/** Outstanding-request gauge and permits (src/concurrency.rs:11-192), as atomic steps of request
    tasks over one semaphore. Every theorem is about every interleaving. */
module Concurrency {
  import opened Numbers

  // ---------- the gauge

  datatype Gauge = Gauge(current: int, max: int, samples: seq<int>, acquires: nat, waits: nat)

  const EMPTY := Gauge(0, 0, [], 0, 0)

  function Sampled(g: Gauge, now: int): Gauge { g.(max := Max(g.max, now), samples := g.samples + [now]) }

  function ResetGauge(g: Gauge): Gauge { Gauge(g.current, g.current, [], 0, 0) }

  class InFlightTracker {
    var current: int
    var max: int
    var samples: seq<int>
    var acquires: nat
    var waits: nat
    const cap: nat

    ghost function State(): Gauge
      reads this
    {
      Gauge(current, max, samples, acquires, waits)
    }

    constructor (cap: nat)
      ensures State() == EMPTY && this.cap == (if cap >= 1 then cap else 1)
    {
      current, max, samples, acquires, waits := 0, 0, [], 0, 0;
      this.cap := if cap >= 1 then cap else 1;
    }

    method NoteAcquire(waited: bool)
      modifies this
      ensures State() == old(State()).(acquires := old(acquires) + 1, waits := old(waits) + (if waited then 1 else 0))
    {
      acquires := acquires + 1;
      if waited {
        waits := waits + 1;
      }
    }

    /** Returns the count including this request. */
    method Enter() returns (now: int)
      modifies this
      ensures now == old(current) + 1
      ensures State() == Sampled(old(State()).(current := now), now)
      ensures current == now <= max && old(max) <= max && (max == now || max == old(max))
      ensures samples == old(samples) + [now] && acquires == old(acquires) && waits == old(waits)
    {
      current := current + 1;
      now := current;
      max := Max(max, now);
      samples := samples + [now];
    }

    method Leave()
      modifies this
      ensures State() == old(State()).(current := old(current) - 1)
    {
      current := current - 1;
    }

    method ResetCounts()
      modifies this
      ensures State() == ResetGauge(old(State()))
      ensures samples == [] && max == current == old(current) && acquires == 0 && waits == 0
    {
      samples := [];
      max := current;
      acquires, waits := 0, 0;
    }
  }

  // ---------- tasks

  /** Where a request task stands. `Granted` holds a permit whose acquire is not yet counted,
      `Counted` one whose wait is not yet counted. */
  datatype Task =
    | Idle | Waiting | Granted(waited: bool) | Counted | Holding
    | Entering(now: int) | Inside(now: int) | GuardGone | PermitGone | Finished

  /** Which part of a slot is dropped first. */
  datatype DropOrder = GuardFirst | PermitFirst

  /** `issued` counts the permits the semaphore was ever given, `permits` those free now. */
  datatype System = System(cap: nat, issued: nat, permits: nat, gauge: Gauge, tasks: seq<Task>)

  predicate HasPermit(t: Task) {
    t.Granted? || t.Counted? || t.Holding? || t.Entering? || t.Inside? || t.GuardGone?
  }

  predicate InGauge(t: Task) { t.Entering? || t.Inside? || t.PermitGone? }

  function Number(tasks: seq<Task>, p: Task -> bool): nat {
    if tasks == [] then 0 else (if p(tasks[0]) then 1 else 0) + Number(tasks[1..], p)
  }

  function Permits(): Task -> bool { t => HasPermit(t) }
  function Guards(): Task -> bool { t => InGauge(t) }
  function Uncounted(): Task -> bool { (t: Task) => t.Counted? }

  datatype Action =
    | TryAcquire(i: nat) | Wake(i: nat) | CountAcquire(i: nat) | CountWait(i: nat)
    | Enter(i: nat) | Record(i: nat) | DropFirst(i: nat) | DropSecond(i: nat)
    | Cancel(i: nat) | GrowPermits | Reset

  function Set(s: System, i: nat, t: Task): System
    requires i < |s.tasks|
  {
    s.(tasks := s.tasks[i := t])
  }

  /** One atomic step, or `s` itself when the action is not enabled. Permits grow during ramp-up,
      never past the cap. Cancelling a waiter gives up its place; cancelling a task that holds an
      unused permit returns it; cancelling a running request drops its slot. */
  function Step(order: DropOrder, s: System, a: Action): System {
    if a.GrowPermits? then
      (if s.issued < s.cap then s.(issued := s.issued + 1, permits := s.permits + 1) else s)
    else if a.Reset? then s.(gauge := ResetGauge(s.gauge))
    else if a.i >= |s.tasks| then s
    else
      var i, t := a.i, s.tasks[a.i];
      match a
      case TryAcquire(_) =>
        if !t.Idle? then s
        else if s.permits > 0 then Set(s.(permits := s.permits - 1), i, Granted(false))
        else Set(s, i, Waiting)
      case Wake(_) =>
        if t.Waiting? && s.permits > 0 then Set(s.(permits := s.permits - 1), i, Granted(true)) else s
      case CountAcquire(_) =>
        if t.Granted? then
          Set(s.(gauge := s.gauge.(acquires := s.gauge.acquires + 1)), i, if t.waited then Counted else Holding)
        else s
      case CountWait(_) =>
        if t.Counted? then Set(s.(gauge := s.gauge.(waits := s.gauge.waits + 1)), i, Holding) else s
      case Enter(_) =>
        if t.Holding? then
          var now := s.gauge.current + 1;
          Set(s.(gauge := s.gauge.(current := now)), i, Entering(now))
        else s
      case Record(_) =>
        if t.Entering? then Set(s.(gauge := Sampled(s.gauge, t.now)), i, Inside(t.now)) else s
      case DropFirst(_) =>
        if !t.Inside? then s
        else if order.GuardFirst? then Set(s.(gauge := s.gauge.(current := s.gauge.current - 1)), i, GuardGone)
        else Set(s.(permits := s.permits + 1), i, PermitGone)
      case DropSecond(_) =>
        if t.GuardGone? then Set(s.(permits := s.permits + 1), i, Finished)
        else if t.PermitGone? then Set(s.(gauge := s.gauge.(current := s.gauge.current - 1)), i, Finished)
        else s
      case Cancel(_) =>
        if t.Waiting? then Set(s, i, Finished)
        else if t.Holding? then Set(s.(permits := s.permits + 1), i, Finished)
        else s
  }

  function Run(order: DropOrder, s: System, actions: seq<Action>): System {
    if actions == [] then s else Step(order, Run(order, s, actions[..|actions| - 1]), actions[|actions| - 1])
  }

  /** Start: some permits handed out to nobody, an empty gauge, idle tasks. */
  ghost predicate Initial(s: System) {
    s.permits == s.issued <= s.cap && s.gauge == EMPTY && forall i :: 0 <= i < |s.tasks| ==> s.tasks[i] == Idle
  }

  // ---------- counting

  lemma {:induction false} NumberUpdate(tasks: seq<Task>, i: nat, t: Task, p: Task -> bool)
    requires i < |tasks|
    ensures Number(tasks[i := t], p)
         == Number(tasks, p) - (if p(tasks[i]) then 1 else 0) + (if p(t) then 1 else 0)
  {
    if i == 0 {
      assert tasks[0 := t][1..] == tasks[1..];
    } else {
      NumberUpdate(tasks[1..], i - 1, t, p);
      assert tasks[i := t][1..] == tasks[1..][i - 1 := t];
    }
  }

  lemma {:induction false} NumberMonotone(tasks: seq<Task>, p: Task -> bool, q: Task -> bool)
    requires forall i :: 0 <= i < |tasks| && p(tasks[i]) ==> q(tasks[i])
    ensures Number(tasks, p) <= Number(tasks, q)
  {
    if tasks != [] { NumberMonotone(tasks[1..], p, q); }
  }

  lemma {:induction false} NumberNone(tasks: seq<Task>, p: Task -> bool)
    requires forall i :: 0 <= i < |tasks| ==> !p(tasks[i])
    ensures Number(tasks, p) == 0
  {
    if tasks != [] { NumberNone(tasks[1..], p); }
  }

  // ---------- what every step keeps

  ghost predicate Invariant(s: System) {
    && s.permits + Number(s.tasks, Permits()) == s.issued <= s.cap
    && s.gauge.current == Number(s.tasks, Guards())
    && s.gauge.max <= s.cap
    && (forall i :: 0 <= i < |s.gauge.samples| ==> s.gauge.samples[i] <= s.cap)
    && (forall i :: 0 <= i < |s.tasks| ==> !s.tasks[i].PermitGone?)
    && (forall i :: 0 <= i < |s.tasks| && (s.tasks[i].Entering? || s.tasks[i].Inside?) ==> s.tasks[i].now <= s.cap)
  }

  /** Every guard is backed by a permit, so the gauge stays within the cap. */
  lemma GaugeWithinCap(s: System)
    requires Invariant(s)
    ensures 0 <= s.gauge.current <= s.cap
    ensures s.gauge.current + s.permits <= s.issued
  {
    NumberMonotone(s.tasks, Guards(), Permits());
  }

  lemma StepKeeps(s: System, a: Action)
    requires Invariant(s)
    ensures Invariant(Step(GuardFirst, s, a))
  {
    StepKeepsCounts(s, a);
    StepKeepsReadings(s, a);
    StepKeepsTasks(s, a);
  }

  lemma StepKeepsCounts(s: System, a: Action)
    requires Invariant(s)
    ensures var r := Step(GuardFirst, s, a);
      && r.permits + Number(r.tasks, Permits()) == r.issued <= r.cap
      && r.gauge.current == Number(r.tasks, Guards())
  {
    hide Number;
    var r := Step(GuardFirst, s, a);
    if !a.GrowPermits? && !a.Reset? && a.i < |s.tasks| {
      var i, t := a.i, r.tasks[a.i];
      NumberUpdate(s.tasks, i, t, Permits());
      NumberUpdate(s.tasks, i, t, Guards());
      assert s.tasks[i := s.tasks[i]] == s.tasks;
    }
  }

  /** Every wait is covered by a counted acquire, including the waits still to be counted. */
  ghost predicate WaitsCovered(s: System) {
    s.gauge.waits + Number(s.tasks, Uncounted()) <= s.gauge.acquires
  }

  /** Every step keeps waits covered, except a reset that catches an acquire half counted. */
  lemma WaitsKept(order: DropOrder, s: System, a: Action)
    requires WaitsCovered(s)
    ensures WaitsCovered(Step(order, s, a)) <==> !a.Reset? || Number(s.tasks, Uncounted()) == 0
  {
    hide Number;
    var r := Step(order, s, a);
    if !a.GrowPermits? && !a.Reset? && a.i < |s.tasks| {
      NumberUpdate(s.tasks, a.i, r.tasks[a.i], Uncounted());
      assert s.tasks[a.i := s.tasks[a.i]] == s.tasks;
    }
  }

  /** No reset of the run catches an acquire half counted. The client resets from the task that
      also acquires, so its runs are like that. */
  ghost predicate CleanResets(order: DropOrder, s: System, actions: seq<Action>) {
    forall n :: 0 <= n < |actions| && actions[n].Reset? ==>
      Number(Run(order, s, actions[..n]).tasks, Uncounted()) == 0
  }

  lemma CleanPrefix(order: DropOrder, s: System, actions: seq<Action>)
    requires actions != [] && CleanResets(order, s, actions)
    ensures CleanResets(order, s, actions[..|actions| - 1])
    ensures actions[|actions| - 1].Reset? ==>
      Number(Run(order, s, actions[..|actions| - 1]).tasks, Uncounted()) == 0
  {
    hide Run, Number;
    var front := actions[..|actions| - 1];
    assert forall n :: 0 <= n < |front| ==> front[n] == actions[n] && front[..n] == actions[..n];
  }

  /** Waits stay covered over a whole run whose resets are clean. */
  lemma {:induction false} RunWaitsCovered(order: DropOrder, s: System, actions: seq<Action>)
    requires WaitsCovered(s) && CleanResets(order, s, actions)
    ensures WaitsCovered(Run(order, s, actions))
  {
    hide Step, CleanResets, WaitsCovered;
    if actions != [] {
      CleanPrefix(order, s, actions);
      RunWaitsCovered(order, s, actions[..|actions| - 1]);
      WaitsKept(order, Run(order, s, actions[..|actions| - 1]), actions[|actions| - 1]);
    }
  }

  lemma StepKeepsReadings(s: System, a: Action)
    requires Invariant(s)
    ensures var r := Step(GuardFirst, s, a);
      r.gauge.max <= r.cap && forall i :: 0 <= i < |r.gauge.samples| ==> r.gauge.samples[i] <= r.cap
  {
    hide Number;
    GaugeWithinCap(s);
  }

  lemma StepKeepsTasks(s: System, a: Action)
    requires Invariant(s)
    ensures var r := Step(GuardFirst, s, a);
      && (forall i :: 0 <= i < |r.tasks| ==> !r.tasks[i].PermitGone?)
      && (forall i :: 0 <= i < |r.tasks| && (r.tasks[i].Entering? || r.tasks[i].Inside?) ==> r.tasks[i].now <= r.cap)
  {
    hide Number;
    if a.Enter? && a.i < |s.tasks| && s.tasks[a.i].Holding? { HolderLeavesRoom(s, a.i); }
  }

  /** A task about to enter holds a permit that no guard uses yet. */
  lemma HolderLeavesRoom(s: System, i: nat)
    requires Invariant(s) && i < |s.tasks| && s.tasks[i].Holding?
    ensures s.gauge.current + 1 <= s.cap
  {
    var without := s.tasks[i := Idle];
    NumberUpdate(s.tasks, i, Idle, Permits());
    NumberUpdate(s.tasks, i, Idle, Guards());
    NumberMonotone(without, Guards(), Permits());
  }

  lemma InitialKeeps(s: System)
    requires Initial(s)
    ensures Invariant(s) && WaitsCovered(s)
  {
    NumberNone(s.tasks, Permits());
    NumberNone(s.tasks, Guards());
    NumberNone(s.tasks, Uncounted());
  }

  ghost predicate AllDone(tasks: seq<Task>) { forall i :: 0 <= i < |tasks| ==> tasks[i].Finished? }

  /** Safety over whole runs: in every interleaving the gauge equals the number of live guards and
      stays within the cap, every sample and the peak are within the cap, waits never exceed
      acquires if resets are clean, and once every task is done the gauge is empty and no permit was lost. */
  lemma {:induction false} RunsAreSafe(s: System, actions: seq<Action>)
    requires Initial(s)
    ensures var r := Run(GuardFirst, s, actions);
      && Invariant(r)
      && r.gauge.current == Number(r.tasks, Guards()) <= r.cap
      && (CleanResets(GuardFirst, s, actions) ==> r.gauge.waits <= r.gauge.acquires)
      && r.cap == s.cap
      && (AllDone(r.tasks) ==> r.permits == r.issued && r.gauge.current == 0)
  {
    hide Invariant, Step, CleanResets;
    if actions == [] {
      InitialKeeps(s);
    } else {
      RunsAreSafe(s, actions[..|actions| - 1]);
      StepKeeps(Run(GuardFirst, s, actions[..|actions| - 1]), actions[|actions| - 1]);
      CapFixed(GuardFirst, Run(GuardFirst, s, actions[..|actions| - 1]), actions[|actions| - 1]);
    }
    InvariantGives(Run(GuardFirst, s, actions));
    if CleanResets(GuardFirst, s, actions) {
      InitialKeeps(s);
      RunWaitsCovered(GuardFirst, s, actions);
    }
  }

  lemma CapFixed(order: DropOrder, s: System, a: Action)
    ensures Step(order, s, a).cap == s.cap
  {
  }

  lemma InvariantGives(s: System)
    requires Invariant(s)
    ensures s.gauge.current == Number(s.tasks, Guards()) <= s.cap
    ensures AllDone(s.tasks) ==> s.permits == s.issued && s.gauge.current == 0
  {
    GaugeWithinCap(s);
    if AllDone(s.tasks) {
      NumberNone(s.tasks, Permits());
      NumberNone(s.tasks, Guards());
    }
  }

  // ---------- the other drop order overshoots

  /** `k` requests inside, the rest idle. */
  ghost function Full(cap: nat, k: nat): System
    requires k <= cap
  {
    System(cap, cap, cap - k, Gauge(k, k, seq(k, j => j + 1), k, 0),
           seq(cap + 1, i requires 0 <= i < cap + 1 => if i < k then Inside(i + 1) else Idle))
  }

  lemma RunSnoc(order: DropOrder, s: System, actions: seq<Action>, a: Action)
    ensures Run(order, s, actions + [a]) == Step(order, Run(order, s, actions), a)
  {
    assert (actions + [a])[..|actions|] == actions;
  }

  /** Task `i` acquires without waiting and enters. */
  lemma AdmitOne(s: System, i: nat)
    requires i < |s.tasks| && s.tasks[i].Idle? && s.permits > 0
    ensures var a := Step(PermitFirst, s, TryAcquire(i));
      var b := Step(PermitFirst, a, CountAcquire(i));
      var c := Step(PermitFirst, b, Enter(i));
      var d := Step(PermitFirst, c, Record(i));
      d == System(s.cap, s.issued, s.permits - 1,
                  Sampled(s.gauge.(acquires := s.gauge.acquires + 1, current := s.gauge.current + 1),
                          s.gauge.current + 1),
                  s.tasks[i := Inside(s.gauge.current + 1)])
  {
    var a := Step(PermitFirst, s, TryAcquire(i));
    assert a == System(s.cap, s.issued, s.permits - 1, s.gauge, s.tasks[i := Granted(false)]);
    var b := Step(PermitFirst, a, CountAcquire(i));
    assert b.tasks == s.tasks[i := Holding];
    var c := Step(PermitFirst, b, Enter(i));
    assert c.tasks == s.tasks[i := Entering(s.gauge.current + 1)];
  }

  lemma {:induction false} FillUp(cap: nat, k: nat) returns (actions: seq<Action>)
    requires k <= cap
    ensures Run(PermitFirst, Full(cap, 0), actions) == Full(cap, k)
  {
    hide Step, Sampled;
    if k == 0 {
      actions := [];
    } else {
      var before := FillUp(cap, k - 1);
      actions := before + [TryAcquire(k - 1)] + [CountAcquire(k - 1)] + [Enter(k - 1)] + [Record(k - 1)];
      RunSnoc(PermitFirst, Full(cap, 0), before, TryAcquire(k - 1));
      RunSnoc(PermitFirst, Full(cap, 0), before + [TryAcquire(k - 1)], CountAcquire(k - 1));
      RunSnoc(PermitFirst, Full(cap, 0), before + [TryAcquire(k - 1)] + [CountAcquire(k - 1)], Enter(k - 1));
      RunSnoc(PermitFirst, Full(cap, 0), before + [TryAcquire(k - 1)] + [CountAcquire(k - 1)] + [Enter(k - 1)],
              Record(k - 1));
      AdmitOne(Full(cap, k - 1), k - 1);
      FullStep(cap, k);
    }
  }

  lemma FullStep(cap: nat, k: nat)
    requires 0 < k <= cap
    ensures var s := Full(cap, k - 1);
      System(s.cap, s.issued, s.permits - 1,
             Sampled(s.gauge.(acquires := s.gauge.acquires + 1, current := s.gauge.current + 1), s.gauge.current + 1),
             s.tasks[k - 1 := Inside(s.gauge.current + 1)]) == Full(cap, k)
  {
    var s := Full(cap, k - 1);
    assert s.gauge.samples + [k] == Full(cap, k).gauge.samples;
    assert s.tasks[k - 1 := Inside(k)] == Full(cap, k).tasks;
  }

  /** Freeing the permit before the guard lets a run read cap + 1, for every cap. */
  lemma PermitFirstOvershoots(cap: nat) returns (actions: seq<Action>)
    requires cap >= 1
    ensures Initial(Full(cap, 0))
    ensures Run(PermitFirst, Full(cap, 0), actions).gauge.current == cap + 1
    ensures Run(PermitFirst, Full(cap, 0), actions).gauge.max == cap + 1
  {
    hide Step, Run;
    var start := Full(cap, 0);
    var filled := FillUp(cap, cap);
    var a1 := filled + [DropFirst(0)];
    var a2 := a1 + [TryAcquire(cap)];
    var a3 := a2 + [CountAcquire(cap)];
    var a4 := a3 + [Enter(cap)];
    actions := a4 + [Record(cap)];
    RunSnoc(PermitFirst, start, filled, DropFirst(0));
    RunSnoc(PermitFirst, start, a1, TryAcquire(cap));
    RunSnoc(PermitFirst, start, a2, CountAcquire(cap));
    RunSnoc(PermitFirst, start, a3, Enter(cap));
    RunSnoc(PermitFirst, start, a4, Record(cap));
    DropPermit(cap);
    AdmitOne(Step(PermitFirst, Full(cap, cap), DropFirst(0)), cap);
  }

  lemma DropPermit(cap: nat)
    requires cap >= 1
    ensures var s := Step(PermitFirst, Full(cap, cap), DropFirst(0));
      s.permits == 1 && s.gauge.current == cap && s.gauge.max == cap && |s.tasks| == cap + 1 && s.tasks[cap].Idle?
  {
  }

  // ---------- why a reset has to wait for the counters

  /** Resetting between the two counter updates of any waiting acquire leaves one wait and no
      acquire. */
  lemma ResetRace(order: DropOrder, s: System, i: nat)
    requires i < |s.tasks| && s.tasks[i].Counted?
    ensures var r := Step(order, Step(order, s, Reset), CountWait(i));
      r.gauge.waits == 1 && r.gauge.acquires == 0
  {
  }
}
