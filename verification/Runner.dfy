/** Stop signals and the warmup barrier (src/runner.rs:19-69, 109-184), and the dispatch loop that
    uses them (src/bin/metrum-ai-bench-cli-llm.rs:1134-1165). Times are nanoseconds since the run
    started. */
module Runner {
  import opened Numbers
  import opened Concurrency

  // ---------- stop flag

  datatype SignalAction = Drain | HardExit

  datatype Flags = Flags(stopped: bool, signaled: bool)

  class StopFlag {
    var stopped: bool
    var signaled: bool

    ghost function State(): Flags
      reads this
    {
      Flags(stopped, signaled)
    }

    constructor ()
      ensures State() == Flags(false, false)
    {
      stopped, signaled := false, false;
    }

    method Stop()
      modifies this
      ensures State() == Flags(true, old(signaled))
    {
      stopped := true;
    }

    method OnSignal() returns (action: SignalAction)
      modifies this
      ensures State() == Flags(true, true)
      ensures action.HardExit? <==> old(signaled)
    {
      var already := signaled;
      signaled := true;
      Stop();
      action := if already then HardExit else Drain;
    }
  }

  /** Atomic steps of any number of tasks: an internal stop, the swap that decides a signal's
      action, and the store that follows it. Steps of different tasks interleave freely. */
  datatype FlagStep = InternalStop | Swap | Store

  datatype FlagRun = FlagRun(flags: Flags, actions: seq<SignalAction>)

  function FlagRunOf(steps: seq<FlagStep>): FlagRun {
    if steps == [] then FlagRun(Flags(false, false), [])
    else
      var r := FlagRunOf(steps[..|steps| - 1]);
      match steps[|steps| - 1]
      case InternalStop => r.(flags := r.flags.(stopped := true))
      case Store => r.(flags := r.flags.(stopped := true))
      case Swap => FlagRun(r.flags.(signaled := true), r.actions + [if r.flags.signaled then HardExit else Drain])
  }

  function Signals(steps: seq<FlagStep>): nat {
    if steps == [] then 0 else Signals(steps[..|steps| - 1]) + (if steps[|steps| - 1].Swap? then 1 else 0)
  }

  /** In every interleaving exactly the real signals after the first exit hard, whatever internal
      stops come before, between or after them; the run is stopped once anyone has stopped it. */
  lemma {:induction false} OnlyLaterSignalsExitHard(steps: seq<FlagStep>)
    ensures var r := FlagRunOf(steps);
      && (forall j :: 0 <= j < |r.actions| ==> (r.actions[j].HardExit? <==> j > 0))
      && |r.actions| == Signals(steps)
      && (r.flags.signaled <==> Signals(steps) > 0)
      && (r.flags.stopped <==> exists i :: 0 <= i < |steps| && !steps[i].Swap?)
  {
    if steps != [] {
      var n := |steps| - 1;
      OnlyLaterSignalsExitHard(steps[..n]);
      assert forall i :: 0 <= i < n ==> steps[..n][i] == steps[i];
    }
  }

  // ---------- durations

  /** The longest duration, in nanoseconds. */
  const LONGEST: nat := 18446744073709551615 * 1000000000 + 999999999

  function SaturatingAdd(a: nat, b: nat): nat { if a + b <= LONGEST then a + b else LONGEST }

  // ---------- warmup barrier

  datatype Slot = Slot(number: nat, delay: nat)

  /** A spawned request: when it ends, and whether joining it fails. */
  datatype Handle = Handle(finish: nat, failed: bool)

  function Failures(handles: seq<Handle>): nat {
    if handles == [] then 0
    else Failures(handles[..|handles| - 1]) + (if handles[|handles| - 1].failed then 1 else 0)
  }

  class WarmupBarrier {
    const warmup: nat
    const tracker: InFlightTracker?
    var shift: nat
    var joinErrors: nat

    constructor (warmup: nat, tracker: InFlightTracker?)
      ensures this.warmup == warmup && this.tracker == tracker && shift == 0 && joinErrors == 0
    {
      this.warmup, this.tracker, shift, joinErrors := warmup, tracker, 0, 0;
    }

    predicate Opens(slot: Slot) { warmup > 0 && slot.number == warmup }

    function Shifted(slot: Slot): Slot
      reads this
    {
      Slot(slot.number, SaturatingAdd(slot.delay, shift))
    }

    /** `now` is the time on entry, `late(i)` how long after its task ended join `i` resumes, and
        `later` the time on return. */
    method BeforeSlot(slot: Slot, handles: seq<Handle>, now: nat, late: nat -> nat)
      returns (r: Slot, left: seq<Handle>, later: nat)
      modifies this, tracker
      ensures r == Shifted(slot)
      ensures !Opens(slot) ==> left == handles && later == now && shift == old(shift) && joinErrors == old(joinErrors)
      ensures Opens(slot) ==>
        && left == [] && later >= now
        && (forall i :: 0 <= i < |handles| ==> handles[i].finish <= later)
        && joinErrors == old(joinErrors) + Failures(handles)
        && shift == SaturatingSub(later, slot.delay)
      ensures tracker != null ==>
        tracker.State() == if Opens(slot) then ResetGauge(old(tracker.State())) else old(tracker.State())
    {
      left, later := handles, now;
      if warmup > 0 && slot.number == warmup {
        left := [];
        var errors := joinErrors;
        for i := 0 to |handles|
          invariant later >= now
          invariant forall j :: 0 <= j < i ==> handles[j].finish <= later
          invariant errors == old(joinErrors) + Failures(handles[..i])
        {
          later := Max(later, handles[i].finish) + late(i);
          if handles[i].failed {
            errors := errors + 1;
          }
          assert handles[..i + 1][..i] == handles[..i];
        }
        assert handles[..|handles|] == handles;
        joinErrors := errors;
        shift := SaturatingSub(later, slot.delay);
        if tracker != null {
          tracker.ResetCounts();
        }
      }
      r := Shifted(slot);
    }
  }

  // ---------- the dispatch loop

  /** A request as it went out: due by the shifted schedule, sent, and finished. */
  datatype Sent = Sent(due: nat, start: nat, finish: nat, failed: bool)

  /** What the loop does not control: how long after it is due a request goes out (jitter, the
      telemetry boundary, waiting for a permit), how long it takes, whether joining it fails, how
      late joins resume, and whether the run is stopped before a slot. */
  datatype World = World(hold: nat -> nat, takes: nat -> nat, fails: nat -> bool, late: nat -> nat, stops: nat -> bool)

  function HandlesOf(sent: seq<Sent>): seq<Handle> {
    seq(|sent|, i requires 0 <= i < |sent| => Handle(sent[i].finish, sent[i].failed))
  }

  /** Warmup requests keep their schedule; measured ones are due by the schedule shifted so that
      the first is due when the barrier opens or at its own time, whichever is later. Without
      warmup nothing is shifted. */
  ghost predicate DueRight(sent: seq<Sent>, slots: seq<Slot>, warmup: nat, opening: nat)
    requires |sent| <= |slots|
  {
    forall j :: 0 <= j < |sent| ==>
      sent[j].due == SaturatingAdd(slots[j].delay,
        if 0 < warmup <= j && warmup < |slots| then SaturatingSub(opening, slots[warmup].delay) else 0)
  }

  /** Every warmup request has finished when the barrier opens, and no measured one starts before. */
  ghost predicate PhasesApart(sent: seq<Sent>, warmup: nat, opening: nat) {
    && (forall i :: 0 <= i < |sent| && i < warmup < |sent| ==> sent[i].finish <= opening)
    && (forall j :: 0 < warmup <= j < |sent| ==> opening <= sent[j].start)
  }

  ghost predicate NeverEarly(sent: seq<Sent>) {
    forall j :: 0 <= j < |sent| ==> sent[j].due <= sent[j].start <= sent[j].finish
  }

  ghost predicate Orderly(sent: seq<Sent>, slots: seq<Slot>, warmup: nat, opening: nat)
    requires |sent| <= |slots|
  {
    DueRight(sent, slots, warmup, opening) && PhasesApart(sent, warmup, opening) && NeverEarly(sent)
  }

  /** Before a measured request has gone out, the opening is still free. */
  lemma OpeningFree(sent: seq<Sent>, slots: seq<Slot>, warmup: nat, before: nat, opening: nat)
    requires |sent| <= |slots| && |sent| <= warmup && Orderly(sent, slots, warmup, before)
    ensures Orderly(sent, slots, warmup, opening)
  {
  }

  /** One more request, due by the shift in force and sent no earlier than the opening. */
  lemma SendKeeps(sent: seq<Sent>, slots: seq<Slot>, warmup: nat, opening: nat, shift: nat, s: Sent)
    requires |sent| < |slots| && Orderly(sent, slots, warmup, opening)
    requires s.due == SaturatingAdd(slots[|sent|].delay, shift) && s.due <= s.start <= s.finish
    requires warmup == 0 || |sent| < warmup ==> shift == 0
    requires 0 < warmup <= |sent| ==> shift == SaturatingSub(opening, slots[warmup].delay) && opening <= s.start
    requires 0 < warmup == |sent| ==> forall i :: 0 <= i < |sent| ==> sent[i].finish <= opening
    ensures Orderly(sent + [s], slots, warmup, opening)
  {
    var next := sent + [s];
    assert forall i :: 0 <= i < |sent| ==> next[i] == sent[i];
  }

  /** Any schedule in slot order, any durations, any stop. */
  method Dispatch(barrier: WarmupBarrier, slots: seq<Slot>, w: World) returns (sent: seq<Sent>, opening: nat)
    requires forall i :: 0 <= i < |slots| ==> slots[i].number == i && slots[i].delay <= LONGEST
    requires barrier.shift == 0 && barrier.joinErrors == 0
    modifies barrier, barrier.tracker
    ensures |sent| <= |slots|
    ensures |sent| < |slots| ==> w.stops(|sent|)
    ensures DueRight(sent, slots, barrier.warmup, opening)
    ensures PhasesApart(sent, barrier.warmup, opening)
    ensures NeverEarly(sent)
    ensures 0 < barrier.warmup < |sent| ==> barrier.joinErrors == Failures(HandlesOf(sent[..barrier.warmup]))
  {
    sent, opening := [], 0;
    var handles: seq<Handle> := [];
    var now: nat := 0;
    var warmup := barrier.warmup;
    assert Orderly(sent, slots, warmup, opening);
    hide DueRight, PhasesApart, NeverEarly;
    for i := 0 to |slots|
      invariant |sent| == i
      invariant Orderly(sent, slots, warmup, opening)
      invariant warmup == 0 || i <= warmup ==>
        barrier.shift == 0 && barrier.joinErrors == 0 && handles == HandlesOf(sent)
      invariant 0 < warmup < i ==>
        && opening <= now
        && barrier.shift == SaturatingSub(opening, slots[warmup].delay)
        && barrier.joinErrors == Failures(HandlesOf(sent[..warmup]))
    {
      var slot;
      slot, handles, now := barrier.BeforeSlot(slots[i], handles, now, w.late);
      if 0 < warmup == i {
        OpeningFree(sent, slots, warmup, opening, now);
        opening := now;
        forall k | 0 <= k < |sent| ensures sent[k].finish <= opening { assert HandlesOf(sent)[k].finish <= now; }
      }
      if w.stops(i) {
        return;
      }
      now := Max(now, slot.delay) + w.hold(i);
      var finish := now + w.takes(i);
      handles := handles + [Handle(finish, w.fails(i))];
      SendKeeps(sent, slots, warmup, opening, barrier.shift, Sent(slot.delay, now, finish, w.fails(i)));
      sent := sent + [Sent(slot.delay, now, finish, w.fails(i))];
      if 0 < warmup <= i {
        assert sent[..i][..warmup] == sent[..warmup];
      }
    }
  }

  // ---------- gaps

  /** The barrier's shift keeps the gap between two measured slots exactly when the later one does
      not run past the longest duration, or the two are due together. */
  lemma GapKeptIff(a: nat, b: nat, shift: nat)
    requires a <= b <= LONGEST
    ensures SaturatingAdd(b, shift) - SaturatingAdd(a, shift) == b - a <==> b + shift <= LONGEST || a == b
  {
  }

  /** The first measured slot is due at the barrier or at its own time, whichever is later. */
  lemma FirstMeasuredDue(delay: nat, opening: nat)
    requires delay <= LONGEST && opening <= LONGEST
    ensures SaturatingAdd(delay, SaturatingSub(opening, delay)) == Max(opening, delay)
  {
  }

  /** Every measured request is due at the barrier's opening or later, by at least its gap to the
      first measured slot: nothing bursts to catch up on warmup. */
  lemma NoCatchUp(sent: seq<Sent>, slots: seq<Slot>, warmup: nat, opening: nat, j: nat)
    requires |sent| <= |slots| && 0 < warmup <= j < |sent| && DueRight(sent, slots, warmup, opening)
    requires slots[warmup].delay <= slots[j].delay
    requires slots[j].delay + SaturatingSub(opening, slots[warmup].delay) <= LONGEST
    ensures sent[j].due == sent[warmup].due + (slots[j].delay - slots[warmup].delay)
    ensures sent[warmup].due == Max(opening, slots[warmup].delay)
  {
  }
}
