/** Time-weighted run metrics (src/time_weighted.rs:92-216). */
module TimeWeighted {
  import opened Numbers
  import opened Sequences
  import opened SweepSpec

  // ---------- peak

  function ValueOf(x: Load, t: real): real { x.a + x.b * t }

  /** `peak` bounds the value up to time `t`. */
  ghost predicate BoundedUpTo(segs: seq<Segment>, w: real, peak: real, t: real) {
    forall u :: u <= t ==> Value(segs, w, u) <= peak
  }

  ghost predicate Exceeds(segs: seq<Segment>, w: real, bound: real) {
    exists u :: 0.0 <= u < w && Value(segs, w, u) > bound
  }

  /** No smaller bound would do: the value exceeds it somewhere in the window. */
  ghost predicate Approached(segs: seq<Segment>, w: real, peak: real) {
    forall bound :: bound < peak ==> Exceeds(segs, w, bound)
  }

  /** The least upper bound of the value over the window. */
  ghost predicate IsPeak(segs: seq<Segment>, w: real, peak: real) {
    (forall u :: Value(segs, w, u) <= peak) && Approached(segs, w, peak)
  }

  lemma AttainedIsApproached(segs: seq<Segment>, w: real, u: real)
    requires 0.0 <= u < w
    ensures Approached(segs, w, Value(segs, w, u))
  {
  }

  /** A rising line is approached at its open right end. */
  lemma LeftLimitApproached(segs: seq<Segment>, w: real, x: Load, lo: real, hi: real)
    requires 0.0 <= lo < hi <= w && x.b >= 0.0
    requires forall u :: lo <= u < hi ==> Value(segs, w, u) == ValueOf(x, u)
    ensures Approached(segs, w, ValueOf(x, hi))
  {
    forall bound | bound < ValueOf(x, hi) ensures Exceeds(segs, w, bound) {
      var u := NearEnd(x, lo, hi, ValueOf(x, hi) - bound);
      assert Value(segs, w, u) == ValueOf(x, u);
    }
  }

  lemma NearEnd(x: Load, lo: real, hi: real, eps: real) returns (u: real)
    requires lo < hi && x.b >= 0.0 && eps > 0.0
    ensures lo <= u < hi && ValueOf(x, u) > ValueOf(x, hi) - eps
  {
    var step := eps / (x.b + 1.0);
    assert step * (x.b + 1.0) == eps;
    assert step > 0.0;
    assert x.b * step + step == eps by { Distribute(step, x.b, 1.0); }
    u := MaxReal(lo, hi - step);
    assert hi - u <= step;
    Product(x.b, step - (hi - u));
    Distribute(x.b, step, -(hi - u));
    Distribute(x.b, u, hi - u);
  }

  // ---------- sorted events

  ghost predicate IsSchedule(segs: seq<Segment>, w: real, events: seq<Event>) {
    SortedBy(Time(), events) && Permutation(events, Events(segs, w))
  }

  lemma {:induction false} EventTimes(segs: seq<Segment>, w: real, e: Event)
    requires e in Events(segs, w)
    ensures 0.0 <= e.t <= w
  {
    hide Line;
    if e in SegmentEvents(segs[0], w) {
    } else {
      EventTimes(segs[1..], w, e);
    }
  }

  lemma ScheduleTimes(segs: seq<Segment>, w: real, events: seq<Event>, i: nat)
    requires IsSchedule(segs, w, events) && i < |events|
    ensures 0.0 <= events[i].t <= w
  {
    assert events[i] in multiset(Events(segs, w));
    EventTimes(segs, w, events[i]);
  }

  lemma {:induction false} EndpointsScheduled(segs: seq<Segment>, w: real, k: nat)
    requires k < |segs| && Live(segs[k], w)
    ensures Event(From(segs[k]), Line(segs[k])) in Events(segs, w)
    ensures Event(Until(segs[k], w), Minus(Line(segs[k]))) in Events(segs, w)
  {
    hide Line;
    if k == 0 {
      var es := SegmentEvents(segs[0], w);
      assert es[0] in es && es[1] in es;
    } else {
      EndpointsScheduled(segs[1..], w, k - 1);
    }
  }

  /** The sorted event times are a grid of the segments. */
  lemma ScheduleIsGrid(segs: seq<Segment>, w: real, events: seq<Event>)
    requires IsSchedule(segs, w, events)
    ensures IsGrid(segs, w, Map(Time(), events))
  {
    hide Line;
    var grid := Map(Time(), events);
    forall i, j | 0 <= i < j < |grid| ensures grid[i] <= grid[j] {
      assert Time()(events[i]) <= Time()(events[j]);
    }
    forall k | 0 <= k < |segs| && Live(segs[k], w) ensures From(segs[k]) in grid && Until(segs[k], w) in grid {
      EndpointsScheduled(segs, w, k);
      OnGrid(segs, w, events, Event(From(segs[k]), Line(segs[k])));
      OnGrid(segs, w, events, Event(Until(segs[k], w), Minus(Line(segs[k]))));
    }
  }

  lemma OnGrid(segs: seq<Segment>, w: real, events: seq<Event>, e: Event)
    requires IsSchedule(segs, w, events) && e in Events(segs, w)
    ensures e.t in Map(Time(), events)
  {
    assert e in multiset(events);
    var i :| 0 <= i < |events| && events[i] == e;
    assert Map(Time(), events)[i] == e.t;
  }

  // ---------- one step of the sweep

  /** `events[..i]` are exactly the events before the next event time. */
  ghost predicate AtCut(events: seq<Event>, i: nat) {
    i <= |events| && (0 < i < |events| ==> events[i - 1].t < events[i].t)
  }

  /** Between the last processed event and the next one the load is that of the prefix. */
  lemma LoadBetween(segs: seq<Segment>, w: real, events: seq<Event>, i: nat, u: real)
    requires IsSchedule(segs, w, events) && AtCut(events, i)
    requires i > 0 ==> events[i - 1].t <= u
    requires i < |events| ==> u < events[i].t
    ensures LoadAt(segs, w, u) == TotalLoad(events[..i])
  {
    SplitByTime(events, i, u);
    hide SortedBy, AtCut, LoadAt, TotalLoad, Events;
    CutLoad(segs, w, events, i, u);
  }

  lemma SplitByTime(events: seq<Event>, i: nat, u: real)
    requires SortedBy(Time(), events) && i <= |events|
    requires i > 0 ==> events[i - 1].t <= u
    requires i < |events| ==> u < events[i].t
    ensures forall k :: 0 <= k < i ==> events[k].t <= u
    ensures forall k :: i <= k < |events| ==> events[k].t > u
  {
    forall k | 0 <= k < i ensures events[k].t <= u {
      assert k < i - 1 ==> Time()(events[k]) <= Time()(events[i - 1]);
    }
    forall k | i <= k < |events| ensures events[k].t > u {
      assert i < k ==> Time()(events[i]) <= Time()(events[k]);
    }
  }

  /** Everything the loop knows about the peak before event `i`. */
  ghost predicate PeakSoFar(segs: seq<Segment>, w: real, events: seq<Event>, i: nat, peak: real) {
    && peak >= 0.0 && Approached(segs, w, peak)
    && (0 < i <= |events| ==> BoundedUpTo(segs, w, peak, events[i - 1].t))
  }

  /** Reading the line at the next event time bounds the whole cell before it. */
  lemma CellBounded(segs: seq<Segment>, w: real, events: seq<Event>, i: nat, peak: real, u: real)
    requires NonNegative(segs) && IsSchedule(segs, w, events) && AtCut(events, i) && i < |events|
    requires PeakSoFar(segs, w, events, i, peak) && u < events[i].t
    ensures var x := TotalLoad(events[..i]);
      Value(segs, w, u) <= if x.open > 0 then MaxReal(peak, ValueOf(x, events[i].t)) else peak
  {
    hide LoadAt, Value, TotalLoad, Approached;
    if i == 0 || events[i - 1].t < u { CellValue(segs, w, events, i, u); }
  }

  /** Between the last processed event and the next one the value is at most what is read next. */
  lemma CellValue(segs: seq<Segment>, w: real, events: seq<Event>, i: nat, u: real)
    requires NonNegative(segs) && IsSchedule(segs, w, events) && AtCut(events, i) && i < |events|
    requires (i == 0 || events[i - 1].t < u) && u < events[i].t
    ensures var x := TotalLoad(events[..i]);
      Value(segs, w, u) <= if x.open > 0 then ValueOf(x, events[i].t) else 0.0
  {
    hide LoadAt, Value, TotalLoad;
    LoadBetween(segs, w, events, i, u);
    ValueIsLine(segs, w, u);
    OpenCount(segs, w, u);
    LoadNonNegative(segs, w, u);
    hide IsSchedule, NonNegative, Covered, AtCut;
    var x := TotalLoad(events[..i]);
    RisingLine(x, u, events[i].t);
    assert ValueOf(IDLE, u) == 0.0;
  }

  lemma RisingLine(x: Load, u: real, t: real)
    requires x.b >= 0.0 && u <= t
    ensures ValueOf(x, u) <= ValueOf(x, t)
  {
    Product(x.b, t - u);
    Distribute(x.b, u, t - u);
  }

  lemma LeftRead(segs: seq<Segment>, w: real, events: seq<Event>, i: nat, peak: real)
    requires NonNegative(segs) && IsSchedule(segs, w, events) && AtCut(events, i) && i < |events|
    requires PeakSoFar(segs, w, events, i, peak)
    ensures var x := TotalLoad(events[..i]);
      var after := if x.open > 0 then MaxReal(peak, ValueOf(x, events[i].t)) else peak;
      && after >= 0.0 && Approached(segs, w, after)
      && forall u :: u < events[i].t ==> Value(segs, w, u) <= after
  {
    hide LoadAt, Value, TotalLoad, Approached;
    var x := TotalLoad(events[..i]);
    forall u | u < events[i].t
      ensures Value(segs, w, u) <= if x.open > 0 then MaxReal(peak, ValueOf(x, events[i].t)) else peak
    {
      CellBounded(segs, w, events, i, peak, u);
    }
    if x.open > 0 {
      NothingOpenFirst(events, i);
      var lo, hi := events[i - 1].t, events[i].t;
      ScheduleTimes(segs, w, events, i - 1);
      ScheduleTimes(segs, w, events, i);
      forall u | lo <= u < hi ensures Value(segs, w, u) == ValueOf(x, u) {
        LoadBetween(segs, w, events, i, u);
        ValueIsLine(segs, w, u);
      }
      LoadBetween(segs, w, events, i, lo);
      LoadNonNegative(segs, w, lo);
      LeftLimitApproached(segs, w, x, lo, hi);
    }
  }

  lemma NothingOpenFirst(events: seq<Event>, i: nat)
    requires i <= |events| && TotalLoad(events[..i]).open > 0
    ensures i > 0
  {
  }

  lemma RightRead(segs: seq<Segment>, w: real, events: seq<Event>, i: nat, peak: real)
    requires NonNegative(segs) && IsSchedule(segs, w, events) && AtCut(events, i) && i > 0 && w > 0.0
    requires peak >= 0.0 && Approached(segs, w, peak)
    requires forall u :: u < events[i - 1].t ==> Value(segs, w, u) <= peak
    ensures var x := TotalLoad(events[..i]);
      PeakSoFar(segs, w, events, i, if x.open > 0 then MaxReal(peak, ValueOf(x, events[i - 1].t)) else peak)
  {
    hide LoadAt, Value, TotalLoad, Approached;
    var x, t := TotalLoad(events[..i]), events[i - 1].t;
    LoadBetween(segs, w, events, i, t);
    ValueIsLine(segs, w, t);
    OpenCount(segs, w, t);
    assert Value(segs, w, t) == ValueOf(x, t);
    if x.open > 0 {
      CoveredInWindow(segs, w, t);
      AttainedIsApproached(segs, w, t);
    } else {
      assert ValueOf(IDLE, t) == 0.0;
    }
    hide ValueOf, IsSchedule;
    var after := if x.open > 0 then MaxReal(peak, ValueOf(x, t)) else peak;
    assert Approached(segs, w, after);
    forall u | u <= t ensures Value(segs, w, u) <= after {
      assert u == t ==> Value(segs, w, u) == Value(segs, w, t);
    }
  }

  lemma CoveredInWindow(segs: seq<Segment>, w: real, t: real)
    requires Covered(segs, w, t)
    ensures 0.0 <= t < w
  {
  }

  /** After the last event nothing is open, so the bound covers all time. */
  lemma {:induction false} NothingOpenLate(segs: seq<Segment>, w: real, u: real)
    requires u >= w
    ensures LoadAt(segs, w, u) == IDLE && Value(segs, w, u) == 0.0
  {
    if segs != [] { NothingOpenLate(segs[1..], w, u); }
  }

  lemma AfterLast(segs: seq<Segment>, w: real, events: seq<Event>, peak: real)
    requires NonNegative(segs) && IsSchedule(segs, w, events) && PeakSoFar(segs, w, events, |events|, peak)
    ensures IsPeak(segs, w, peak)
  {
    hide LoadAt, Value, TotalLoad, Approached;
    forall u ensures Value(segs, w, u) <= peak {
      if events != [] && u <= events[|events| - 1].t {
      } else {
        var late := MaxReal(u, w);
        if events != [] { ScheduleTimes(segs, w, events, |events| - 1); }
        LoadBetween(segs, w, events, |events|, u);
        LoadBetween(segs, w, events, |events|, late);
        hide IsSchedule, PeakSoFar;
        NothingOpenLate(segs, w, late);
        ValueIsLine(segs, w, u);
      }
    }
  }

  // ---------- the sweep

  /** Everything the loop has established before event `i`. */
  ghost predicate SweepState(
      segs: seq<Segment>, w: real, events: seq<Event>, i: nat, x: Load, peak: real, active: real)
  {
    && AtCut(events, i) && x == TotalLoad(events[..i])
    && (NonNegative(segs) ==> PeakSoFar(segs, w, events, i, peak))
    && (events == [] ==> active == 0.0)
    && (events != [] ==> active == ActiveOver(segs, w, Map(Time(), events), if i < |events| then i else |events| - 1))
  }

  lemma {:induction false} GroupAddsNothing(segs: seq<Segment>, w: real, grid: seq<real>, i: nat, j: nat)
    requires i <= j < |grid| && forall k :: i <= k <= j ==> grid[k] == grid[i]
    ensures ActiveOver(segs, w, grid, j) == ActiveOver(segs, w, grid, i)
    decreases j
  {
    if i < j { GroupAddsNothing(segs, w, grid, i, j - 1); }
  }

  /** Processing the group of events `i..j` at one time keeps the sweep's state. */
  lemma GroupStep(
      segs: seq<Segment>, w: real, events: seq<Event>, i: nat, j: nat, x: Load, x': Load,
      peak: real, peak': real, active: real, active': real)
    requires IsSchedule(segs, w, events) && w > 0.0 && i < j <= |events|
    requires SweepState(segs, w, events, i, x, peak, active)
    requires forall k :: i <= k < j ==> events[k].t == events[i].t
    requires j < |events| ==> events[j].t != events[i].t
    requires x' == TotalLoad(events[..j])
    requires var t := events[i].t;
      var left := if x.open > 0 then MaxReal(peak, ValueOf(x, t)) else peak;
      && peak' == (if x'.open > 0 then MaxReal(left, ValueOf(x', t)) else left)
      && active' == active + (if x'.open > 0 && j < |events| then events[j].t - t else 0.0)
    ensures SweepState(segs, w, events, j, x', peak', active')
    ensures x'.open <= 0 ==> x' == IDLE
  {
    hide LoadAt, Value, TotalLoad, Approached, ValueOf, ActiveOver, NonNegative, BoundedUpTo;
    var t := events[i].t;
    if j < |events| { assert Time()(events[i]) <= Time()(events[j]); }
    assert AtCut(events, j);
    LoadBetween(segs, w, events, j, t);
    OpenCount(segs, w, t);
    if NonNegative(segs) {
      LeftRead(segs, w, events, i, peak);
      RightRead(segs, w, events, j, if x.open > 0 then MaxReal(peak, ValueOf(x, t)) else peak);
    }
    hide IsSchedule, PeakSoFar;
    GroupActive(segs, w, events, i, j, x', active, active');
  }

  /** The active time after a group: its own cell counts if something is open. */
  lemma GroupActive(
      segs: seq<Segment>, w: real, events: seq<Event>, i: nat, j: nat, x': Load, active: real, active': real)
    requires i < j <= |events| && x' == LoadAt(segs, w, events[i].t)
    requires forall k :: i <= k < j ==> events[k].t == events[i].t
    requires active == ActiveOver(segs, w, Map(Time(), events), i)
    requires active' == active + (if x'.open > 0 && j < |events| then events[j].t - events[i].t else 0.0)
    ensures active' == ActiveOver(segs, w, Map(Time(), events), if j < |events| then j else |events| - 1)
  {
    hide LoadAt;
    OpenCount(segs, w, events[i].t);
    var grid := Map(Time(), events);
    GroupAddsNothing(segs, w, grid, i, j - 1);
    assert grid[j - 1] == events[i].t;
  }

  method SortedEvents(segs: seq<Segment>, w: real) returns (events: seq<Event>, integral: real)
    ensures IsSchedule(segs, w, events) && integral == TotalArea(segs, w)
  {
    hide Line, SegmentArea, SegmentEvents;
    var unsorted: seq<Event> := [];
    integral := 0.0;
    for k := 0 to |segs|
      invariant unsorted + Events(segs[k..], w) == Events(segs, w)
      invariant integral + TotalArea(segs[k..], w) == TotalArea(segs, w)
    {
      assert segs[k..][1..] == segs[k + 1..];
      integral := integral + SegmentArea(segs[k], w);
      assert unsorted + (SegmentEvents(segs[k], w) + Events(segs[k + 1..], w))
          == (unsorted + SegmentEvents(segs[k], w)) + Events(segs[k + 1..], w);
      unsorted := unsorted + SegmentEvents(segs[k], w);
    }
    assert segs[|segs|..] == [];
    events := SortBy(Time(), unsorted);
    SortBySorts(Time(), unsorted);
  }

  /** Peak and active time from the sorted events. Clearing `a` and `b` when nothing is open
      stores the values they already have. */
  method Scan(segs: seq<Segment>, w: real, events: seq<Event>) returns (peak: real, active: real)
    requires IsSchedule(segs, w, events) && w > 0.0
    ensures NonNegative(segs) ==> IsPeak(segs, w, peak)
    ensures events == [] ==> active == 0.0
    ensures events != [] ==> active == ActiveOver(segs, w, Map(Time(), events), |events| - 1)
  {
    hide IsSchedule, NonNegative, PeakSoFar, IsPeak, TotalLoad, ActiveOver;
    var x := IDLE;
    peak, active := 0.0, 0.0;
    var i := 0;
    StartSweep(segs, w, events);
    while i < |events|
      invariant SweepState(segs, w, events, i, x, peak, active)
    {
      var t := events[i].t;
      ghost var i0, x0, peak0, active0 := i, x, peak, active;
      if x.open > 0 {
        peak := MaxReal(peak, ValueOf(x, t));
      }
      while i < |events| && events[i].t == t
        invariant i0 <= i <= |events| && x == TotalLoad(events[..i])
        invariant forall k :: i0 <= k < i ==> events[k].t == t
      {
        TotalLoadSnoc(events[..i], events[i]);
        assert events[..i + 1] == events[..i] + [events[i]];
        x := Plus(x, events[i].load);
        i := i + 1;
      }
      if x.open > 0 {
        peak := MaxReal(peak, ValueOf(x, t));
        if i < |events| {
          active := active + (events[i].t - t);
        }
      }
      GroupStep(segs, w, events, i0, i, x0, x, peak0, peak, active0, active);
      if x.open <= 0 {
        x := Load(x.open, 0.0, 0.0);
      }
    }
    EndSweep(segs, w, events, x, peak, active);
  }

  lemma StartSweep(segs: seq<Segment>, w: real, events: seq<Event>)
    requires w > 0.0
    ensures SweepState(segs, w, events, 0, IDLE, 0.0, 0.0)
  {
    if NonNegative(segs) {
      LoadNonNegative(segs, w, 0.0);
      forall bound | bound < 0.0 ensures Exceeds(segs, w, bound) {
        assert Value(segs, w, 0.0) > bound;
      }
    }
  }

  lemma EndSweep(segs: seq<Segment>, w: real, events: seq<Event>, x: Load, peak: real, active: real)
    requires IsSchedule(segs, w, events) && SweepState(segs, w, events, |events|, x, peak, active)
    ensures NonNegative(segs) ==> IsPeak(segs, w, peak)
    ensures events == [] ==> active == 0.0
    ensures events != [] ==> active == ActiveOver(segs, w, Map(Time(), events), |events| - 1)
  {
    if NonNegative(segs) { AfterLast(segs, w, events, peak); }
  }

  /** `stat` measures the value function: on every grid the integral is the area and the active
      time the covered length; for request-shaped segments the maximum is the least upper bound
      and the averages are ordered. */
  ghost predicate Measures(segs: seq<Segment>, w: real, stat: TimeWeightedStat)
    requires w > 0.0
  {
    && stat.avg.Some? && stat.max.Some? && stat.activeS.Some?
    && stat.avg.value * w == TotalArea(segs, w)
    && (forall grid :: IsGrid(segs, w, grid) && grid != [] ==>
          stat.avg.value * w == AreaOver(segs, w, grid, |grid| - 1)
          && stat.activeS.value == ActiveOver(segs, w, grid, |grid| - 1))
    && 0.0 <= stat.activeS.value <= w
    && (stat.activeAvg.Some? <==> stat.activeS.value > 0.0)
    && (stat.activeAvg.Some? ==> stat.activeAvg.value * stat.activeS.value == stat.avg.value * w)
    && (NonNegative(segs) ==> IsPeak(segs, w, stat.max.value) && stat.avg.value >= 0.0)
    && (NonNegative(segs) && stat.activeAvg.Some? ==> stat.avg.value <= stat.activeAvg.value <= stat.max.value)
  }

  lemma DivideAtMost(x: real, d: real, bound: real)
    requires d > 0.0 && x <= bound * d
    ensures x / d <= bound
  {
    var q := x / d;
    assert q * d == x;
    if q > bound {
      assert (q - bound) * d > 0.0;
      Distribute(d, q, -bound);
    }
  }

  lemma OrderedAverages(integral: real, w: real, active: real, peak: real)
    requires 0.0 < active <= w && 0.0 <= integral <= peak * active
    ensures integral / w <= integral / active <= peak
  {
    DivideAtMost(integral, active, peak);
    var y := integral / active;
    assert y * active == integral;
    Quotient(integral, active);
    Product(y, w - active);
    Distribute(y, w, -active);
    DivideAtMost(integral, w, y);
  }

  lemma NoEventsNothingLive(segs: seq<Segment>, w: real, events: seq<Event>)
    requires IsSchedule(segs, w, events) && events == []
    ensures IsGrid(segs, w, [0.0]) && TotalArea(segs, w) == AreaOver(segs, w, [0.0], 0)
    ensures ActiveOver(segs, w, [0.0], 0) == 0.0
  {
    PermutationLength(events, Events(segs, w));
    forall k | 0 <= k < |segs| ensures !Live(segs[k], w) {
      if Live(segs[k], w) { EndpointsScheduled(segs, w, k); }
    }
    AreaIsTotal(segs, w, [0.0]);
  }

  /** On every grid the sums are the same area and the same covered length. */
  lemma OnEveryGrid(segs: seq<Segment>, w: real, grid: seq<real>)
    requires IsGrid(segs, w, grid) && grid != []
    ensures forall g :: IsGrid(segs, w, g) && g != [] ==>
              TotalArea(segs, w) == AreaOver(segs, w, g, |g| - 1)
              && ActiveOver(segs, w, grid, |grid| - 1) == ActiveOver(segs, w, g, |g| - 1)
  {
    hide TotalArea, AreaOver, ActiveOver, IsGrid;
    forall g | IsGrid(segs, w, g) && g != []
      ensures TotalArea(segs, w) == AreaOver(segs, w, g, |g| - 1)
           && ActiveOver(segs, w, grid, |grid| - 1) == ActiveOver(segs, w, g, |g| - 1)
    {
      AreaIsTotal(segs, w, g);
      ActiveGridIndependent(segs, w, g, grid);
    }
  }

  lemma Averages(segs: seq<Segment>, w: real, grid: seq<real>, peak: real)
    requires IsGrid(segs, w, grid) && grid != [] && NonNegative(segs) && IsPeak(segs, w, peak) && w > 0.0
    requires ActiveOver(segs, w, grid, |grid| - 1) <= w
    ensures TotalArea(segs, w) / w >= 0.0
    ensures var active := ActiveOver(segs, w, grid, |grid| - 1);
      active > 0.0 ==> TotalArea(segs, w) / w <= TotalArea(segs, w) / active <= peak
  {
    hide TotalArea, AreaOver, ActiveOver, IsGrid, IsPeak;
    var active := ActiveOver(segs, w, grid, |grid| - 1);
    AreaNonNegative(segs, w);
    Quotient(TotalArea(segs, w), w);
    PeakBoundsArea(segs, w, grid, peak);
    if active > 0.0 { OrderedAverages(TotalArea(segs, w), w, active, peak); }
  }

  lemma ScanMeasures(segs: seq<Segment>, w: real, events: seq<Event>, peak: real, active: real, stat: TimeWeightedStat)
    requires IsSchedule(segs, w, events) && w > 0.0
    requires NonNegative(segs) ==> IsPeak(segs, w, peak)
    requires events == [] ==> active == 0.0
    requires events != [] ==> active == ActiveOver(segs, w, Map(Time(), events), |events| - 1)
    requires stat.avg == Some(TotalArea(segs, w) / w) && stat.max == Some(peak) && stat.activeS == Some(active)
    requires stat.activeAvg == if active > 0.0 then Some(TotalArea(segs, w) / active) else None
    ensures Measures(segs, w, stat)
  {
    hide TotalArea, AreaOver, ActiveOver, IsGrid, IsPeak, Value, IsSchedule, NonNegative;
    var grid := if events == [] then [0.0] else Map(Time(), events);
    GridFacts(segs, w, events, grid);
    OnEveryGrid(segs, w, grid);
    if NonNegative(segs) { Averages(segs, w, grid, peak); }
  }

  lemma Quotient(x: real, w: real)
    requires x >= 0.0 && w > 0.0
    ensures x / w >= 0.0
  {
  }

  lemma PeakBoundsArea(segs: seq<Segment>, w: real, grid: seq<real>, peak: real)
    requires IsGrid(segs, w, grid) && grid != [] && IsPeak(segs, w, peak)
    ensures TotalArea(segs, w) <= peak * ActiveOver(segs, w, grid, |grid| - 1)
  {
    hide Value, AreaOver, ActiveOver, TotalArea, IsGrid, Approached;
    AreaAtMostPeak(segs, w, grid, |grid| - 1, peak);
    AreaIsTotal(segs, w, grid);
  }

  lemma GridFacts(segs: seq<Segment>, w: real, events: seq<Event>, grid: seq<real>)
    requires IsSchedule(segs, w, events) && w > 0.0
    requires grid == if events == [] then [0.0] else Map(Time(), events)
    ensures IsGrid(segs, w, grid) && 0.0 <= ActiveOver(segs, w, grid, |grid| - 1) <= w
    ensures events == [] ==> ActiveOver(segs, w, grid, |grid| - 1) == 0.0
  {
    if events == [] {
      NoEventsNothingLive(segs, w, events);
    } else {
      ScheduleIsGrid(segs, w, events);
      ActiveAtMostSpan(segs, w, grid, |grid| - 1);
      ScheduleTimes(segs, w, events, 0);
      ScheduleTimes(segs, w, events, |events| - 1);
      hide IsSchedule, IsGrid, ActiveOver;
    }
  }

  /** Sweep-line statistics of the sum of `segs` over `[0, w]`; nothing to report is `None`. */
  method Sweep(segs: seq<Segment>, n: nat, w: real) returns (stat: TimeWeightedStat)
    ensures stat.n == n
    ensures n == 0 || w <= 0.0 ==> stat == TimeWeightedStat(n, None, None, None, None)
    ensures n > 0 && w > 0.0 ==> Measures(segs, w, stat)
  {
    if n == 0 || w <= 0.0 {
      return TimeWeightedStat(n, None, None, None, None);
    }
    var events, integral := SortedEvents(segs, w);
    var peak, active := Scan(segs, w, events);
    stat := TimeWeightedStat(n, Some(integral / w), if active > 0.0 then Some(integral / active) else None,
                             Some(peak), Some(active));
    ScanMeasures(segs, w, events, peak, active, stat);
  }
}
