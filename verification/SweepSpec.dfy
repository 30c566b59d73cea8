/** The sweep line over clipped, sloped segments (src/time_weighted.rs:68-216).

    The specification is pointwise: the value at time `t` is the sum of the contributions of the
    segments open at `t`. Peak, active time and integral are statements about that function. */
module SweepSpec {
  import opened Numbers
  import opened Sequences

  /** `level + slope * (t - start)` on `[start, end)`. */
  datatype Segment = Segment(start: real, end: real, level: real, slope: real)

  datatype TimeWeightedStat = TimeWeightedStat(
    n: nat, avg: Option<real>, activeAvg: Option<real>, max: Option<real>, activeS: Option<real>)

  // ---------- pointwise specification

  function From(s: Segment): real { if s.start >= 0.0 then s.start else 0.0 }
  function Until(s: Segment, w: real): real { if s.end <= w then s.end else w }

  predicate Live(s: Segment, w: real) { From(s) < Until(s, w) }

  predicate OpenAt(s: Segment, w: real, t: real) { From(s) <= t < Until(s, w) }

  /** Open count and the line `a + b * t` of a set of open segments. */
  datatype Load = Load(open: int, a: real, b: real)

  const IDLE := Load(0, 0.0, 0.0)

  function Plus(x: Load, y: Load): Load { Load(x.open + y.open, x.a + y.a, x.b + y.b) }

  function Minus(x: Load): Load { Load(-x.open, -x.a, -x.b) }

  function Line(s: Segment): Load { Load(1, s.level - s.slope * s.start, s.slope) }

  function SegmentLoad(s: Segment, w: real, t: real): Load {
    if OpenAt(s, w, t) then Line(s) else IDLE
  }

  function LoadAt(segs: seq<Segment>, w: real, t: real): Load {
    if segs == [] then IDLE else Plus(SegmentLoad(segs[0], w, t), LoadAt(segs[1..], w, t))
  }

  function Contribution(s: Segment, w: real, t: real): real {
    if OpenAt(s, w, t) then s.level + s.slope * (t - s.start) else 0.0
  }

  /** The step function being measured. */
  function Value(segs: seq<Segment>, w: real, t: real): real {
    if segs == [] then 0.0 else Contribution(segs[0], w, t) + Value(segs[1..], w, t)
  }

  predicate Covered(segs: seq<Segment>, w: real, t: real) {
    exists i :: 0 <= i < |segs| && OpenAt(segs[i], w, t)
  }

  /** What every request contributes: never negative, never falling while it is open. */
  predicate NonNegative(segs: seq<Segment>) {
    forall i :: 0 <= i < |segs| ==> segs[i].level >= 0.0 && segs[i].slope >= 0.0
  }

  lemma {:induction false} ValueIsLine(segs: seq<Segment>, w: real, t: real)
    ensures Value(segs, w, t) == LoadAt(segs, w, t).a + LoadAt(segs, w, t).b * t
  {
    hide Contribution, SegmentLoad;
    if segs != [] {
      ValueIsLine(segs[1..], w, t);
      ContributionIsLine(segs[0], w, t);
      Distribute(t, SegmentLoad(segs[0], w, t).b, LoadAt(segs[1..], w, t).b);
    }
  }

  lemma ContributionIsLine(s: Segment, w: real, t: real)
    ensures Contribution(s, w, t) == SegmentLoad(s, w, t).a + SegmentLoad(s, w, t).b * t
  {
    assert s.slope * (t - s.start) == s.slope * t - s.slope * s.start;
  }

  lemma CoveredCons(segs: seq<Segment>, w: real, t: real)
    requires segs != []
    ensures Covered(segs, w, t) <==> OpenAt(segs[0], w, t) || Covered(segs[1..], w, t)
  {
    hide OpenAt;
    if Covered(segs[1..], w, t) {
      var i :| 0 <= i < |segs[1..]| && OpenAt(segs[1..][i], w, t);
      assert OpenAt(segs[i + 1], w, t);
    }
    if Covered(segs, w, t) && !OpenAt(segs[0], w, t) {
      var i :| 0 <= i < |segs| && OpenAt(segs[i], w, t);
      assert OpenAt(segs[1..][i - 1], w, t);
    }
  }

  lemma {:induction false} OpenCount(segs: seq<Segment>, w: real, t: real)
    ensures LoadAt(segs, w, t).open >= 0
    ensures LoadAt(segs, w, t).open > 0 <==> Covered(segs, w, t)
    ensures LoadAt(segs, w, t).open == 0 ==> LoadAt(segs, w, t) == IDLE
  {
    if segs != [] {
      OpenCount(segs[1..], w, t);
      OpenCountCons(segs, w, t);
    }
  }

  lemma LoadCons(segs: seq<Segment>, w: real, t: real)
    requires segs != []
    ensures LoadAt(segs, w, t) == Plus(SegmentLoad(segs[0], w, t), LoadAt(segs[1..], w, t))
  {
  }

  lemma SegmentOpens(s: Segment, w: real, t: real)
    ensures OpenAt(s, w, t) ==> SegmentLoad(s, w, t).open == 1
    ensures !OpenAt(s, w, t) ==> SegmentLoad(s, w, t) == IDLE
  {
  }

  lemma PlusOpens(x: Load, y: Load)
    requires (x == IDLE || x.open == 1) && y.open >= 0 && (y.open == 0 ==> y == IDLE)
    ensures Plus(x, y).open == x.open + y.open && (Plus(x, y).open == 0 ==> Plus(x, y) == IDLE)
  {
  }

  lemma OpenCountCons(segs: seq<Segment>, w: real, t: real)
    requires segs != []
    requires var y := LoadAt(segs[1..], w, t);
      y.open >= 0 && (y.open > 0 <==> Covered(segs[1..], w, t)) && (y.open == 0 ==> y == IDLE)
    ensures var x := LoadAt(segs, w, t);
      x.open >= 0 && (x.open > 0 <==> Covered(segs, w, t)) && (x.open == 0 ==> x == IDLE)
  {
    hide LoadAt, SegmentLoad, Plus, Covered, OpenAt;
    CoveredCons(segs, w, t);
    LoadCons(segs, w, t);
    SegmentOpens(segs[0], w, t);
    PlusOpens(SegmentLoad(segs[0], w, t), LoadAt(segs[1..], w, t));
  }

  lemma {:induction false} LoadNonNegative(segs: seq<Segment>, w: real, t: real)
    requires NonNegative(segs)
    ensures LoadAt(segs, w, t).b >= 0.0 && Value(segs, w, t) >= 0.0
  {
    hide Contribution, SegmentLoad;
    if segs != [] {
      LoadNonNegative(segs[1..], w, t);
      SegmentNonNegative(segs[0], w, t);
    }
  }

  lemma SegmentNonNegative(s: Segment, w: real, t: real)
    requires s.level >= 0.0 && s.slope >= 0.0
    ensures SegmentLoad(s, w, t).b >= 0.0 && Contribution(s, w, t) >= 0.0
  {
    if OpenAt(s, w, t) { Product(s.slope, t - s.start); }
  }

  lemma Product(x: real, y: real)
    requires x >= 0.0 && y >= 0.0
    ensures x * y >= 0.0
  {
  }

  // ---------- events

  datatype Event = Event(t: real, load: Load)

  function Time(): Event -> real { (e: Event) => e.t }

  function SegmentEvents(s: Segment, w: real): seq<Event> {
    if Live(s, w) then [Event(From(s), Line(s)), Event(Until(s, w), Minus(Line(s)))] else []
  }

  function Events(segs: seq<Segment>, w: real): seq<Event> {
    if segs == [] then [] else SegmentEvents(segs[0], w) + Events(segs[1..], w)
  }

  /** The load of all events up to and including time `t`. */
  function LoadUpTo(events: seq<Event>, t: real): Load {
    if events == [] then IDLE
    else Plus(Effective(events[0], t), LoadUpTo(events[1..], t))
  }

  function TotalLoad(events: seq<Event>): Load {
    if events == [] then IDLE else Plus(events[0].load, TotalLoad(events[1..]))
  }

  lemma {:induction false} LoadUpToAppend(a: seq<Event>, b: seq<Event>, t: real)
    ensures LoadUpTo(a + b, t) == Plus(LoadUpTo(a, t), LoadUpTo(b, t))
  {
    if a == [] {
      assert a + b == b;
    } else {
      assert (a + b)[1..] == a[1..] + b;
      LoadUpToAppend(a[1..], b, t);
    }
  }

  lemma {:induction false} LoadUpToPermutation(a: seq<Event>, b: seq<Event>, t: real)
    requires Permutation(a, b)
    ensures LoadUpTo(a, t) == LoadUpTo(b, t)
  {
    PermutationLength(a, b);
    if a != [] {
      var j := PermutationSplit(a, b);
      LoadUpToPermutation(a[1..], b[..j] + b[j + 1..], t);
      LoadUpToPull(b, j, t);
    }
  }

  function Effective(e: Event, t: real): Load {
    if e.t <= t then e.load else IDLE
  }

  lemma PlusSwap(x: Load, y: Load, z: Load)
    ensures Plus(x, Plus(y, z)) == Plus(y, Plus(x, z))
  {
  }

  lemma LoadUpToPull(b: seq<Event>, j: nat, t: real)
    requires j < |b|
    ensures LoadUpTo(b, t) == Plus(Effective(b[j], t), LoadUpTo(b[..j] + b[j + 1..], t))
  {
    hide Plus, Effective;
    var rest := [b[j]] + b[j + 1..];
    LoadUpToAppend(b[..j], b[j + 1..], t);
    LoadUpToAppend(b[..j], rest, t);
    assert b == b[..j] + rest;
    LoadUpToCons(b[j], b[j + 1..], t);
    PlusSwap(LoadUpTo(b[..j], t), Effective(b[j], t), LoadUpTo(b[j + 1..], t));
  }

  lemma LoadUpToCons(e: Event, rest: seq<Event>, t: real)
    ensures LoadUpTo([e] + rest, t) == Plus(Effective(e, t), LoadUpTo(rest, t))
  {
    assert ([e] + rest)[1..] == rest;
  }

  /** The events up to `t` add up to the segments open at `t`. */
  lemma {:induction false} EventsGiveLoad(segs: seq<Segment>, w: real, t: real)
    ensures LoadUpTo(Events(segs, w), t) == LoadAt(segs, w, t)
  {
    if segs != [] {
      EventsGiveLoad(segs[1..], w, t);
      LoadUpToAppend(SegmentEvents(segs[0], w), Events(segs[1..], w), t);
      SegmentEventsGiveLoad(segs[0], w, t);
    }
  }

  lemma SegmentEventsGiveLoad(s: Segment, w: real, t: real)
    ensures LoadUpTo(SegmentEvents(s, w), t) == SegmentLoad(s, w, t)
  {
    hide Line, LoadUpTo, Plus, Minus;
    Cancel(Line(s));
    if Live(s, w) {
      var open, close := Event(From(s), Line(s)), Event(Until(s, w), Minus(Line(s)));
      LoadUpToCons(open, [close], t);
      LoadUpToCons(close, [], t);
      LoadUpToNothing(t);
      assert SegmentEvents(s, w) == [open] + [close] && [close] == [close] + [];
    } else {
      LoadUpToNothing(t);
    }
  }

  lemma Cancel(x: Load)
    ensures Plus(x, Plus(Minus(x), IDLE)) == IDLE
    ensures Plus(x, Plus(IDLE, IDLE)) == x
    ensures Plus(IDLE, Plus(IDLE, IDLE)) == IDLE
  {
  }

  lemma LoadUpToNothing(t: real)
    ensures LoadUpTo([], t) == IDLE
  {
  }

  lemma {:induction false} AllBefore(events: seq<Event>, t: real)
    requires forall i :: 0 <= i < |events| ==> events[i].t <= t
    ensures LoadUpTo(events, t) == TotalLoad(events)
  {
    if events != [] { AllBefore(events[1..], t); }
  }

  lemma {:induction false} AllAfter(events: seq<Event>, t: real)
    requires forall i :: 0 <= i < |events| ==> events[i].t > t
    ensures LoadUpTo(events, t) == IDLE
  {
    if events != [] { AllAfter(events[1..], t); }
  }

  lemma {:induction false} TotalLoadSnoc(events: seq<Event>, e: Event)
    ensures TotalLoad(events + [e]) == Plus(TotalLoad(events), e.load)
  {
    if events == [] {
      assert events + [e] == [e];
    } else {
      assert (events + [e])[1..] == events[1..] + [e];
      TotalLoadSnoc(events[1..], e);
    }
  }

  /** A sorted list of the events, cut at time `t`: the part before it is the load at `t`. */
  lemma CutLoad(segs: seq<Segment>, w: real, events: seq<Event>, i: nat, t: real)
    requires Permutation(events, Events(segs, w)) && i <= |events|
    requires forall k :: 0 <= k < i ==> events[k].t <= t
    requires forall k :: i <= k < |events| ==> events[k].t > t
    ensures TotalLoad(events[..i]) == LoadAt(segs, w, t)
  {
    hide Events, LoadAt, TotalLoad, LoadUpTo;
    LoadUpToPermutation(events, Events(segs, w), t);
    EventsGiveLoad(segs, w, t);
    assert events == events[..i] + events[i..];
    LoadUpToAppend(events[..i], events[i..], t);
    assert forall k :: 0 <= k < |events[..i]| ==> events[..i][k] == events[k];
    AllBefore(events[..i], t);
    assert forall k :: 0 <= k < |events[i..]| ==> events[i..][k] == events[i + k];
    AllAfter(events[i..], t);
  }

  // ---------- active time and area over a grid

  /** Length of the cells of the grid whose start is covered. */
  function ActiveOver(segs: seq<Segment>, w: real, grid: seq<real>, m: nat): real
    requires m < |grid|
  {
    if m == 0 then 0.0
    else
      var cell := if LoadAt(segs, w, grid[m - 1]).open > 0 then grid[m] - grid[m - 1] else 0.0;
      ActiveOver(segs, w, grid, m - 1) + cell
  }

  /** Area of the trapezoid under a load between two times. */
  function CellArea(x: Load, lo: real, hi: real): real {
    (hi - lo) * (x.a + x.b * (lo + hi) / 2.0)
  }

  function AreaOver(segs: seq<Segment>, w: real, grid: seq<real>, m: nat): real
    requires m < |grid|
  {
    if m == 0 then 0.0
    else AreaOver(segs, w, grid, m - 1) + CellArea(LoadAt(segs, w, grid[m - 1]), grid[m - 1], grid[m])
  }

  /** A nondecreasing grid that contains every clipped endpoint. */
  ghost predicate IsGrid(segs: seq<Segment>, w: real, grid: seq<real>) {
    && (forall i, j :: 0 <= i < j < |grid| ==> grid[i] <= grid[j])
    && (forall k :: 0 <= k < |segs| && Live(segs[k], w) ==> From(segs[k]) in grid && Until(segs[k], w) in grid)
  }

  /** Area of one clipped segment, as the sweep adds it up. */
  function SegmentArea(s: Segment, w: real): real {
    if Live(s, w) then
      var level := s.level + s.slope * (From(s) - s.start);
      var width := Until(s, w) - From(s);
      width * level + s.slope * width * width / 2.0
    else 0.0
  }

  function TotalArea(segs: seq<Segment>, w: real): real {
    if segs == [] then 0.0 else SegmentArea(segs[0], w) + TotalArea(segs[1..], w)
  }

  // Antiderivative of a segment's line.
  function Primitive(s: Segment, x: real): real {
    (s.level - s.slope * s.start) * x + s.slope * x * x / 2.0
  }

  function Clamp(x: real, lo: real, hi: real): real {
    if x <= lo then lo else if x >= hi then hi else x
  }

  lemma PrimitiveArea(s: Segment, w: real)
    requires Live(s, w)
    ensures SegmentArea(s, w) == Primitive(s, Until(s, w)) - Primitive(s, From(s))
  {
    var lo, hi := From(s), Until(s, w);
    var width := hi - lo;
    assert s.slope * (lo - s.start) == s.slope * lo - s.slope * s.start;
    assert width * (s.slope * lo) + s.slope * width * width / 2.0
        == s.slope * hi * hi / 2.0 - s.slope * lo * lo / 2.0 by {
      assert width * (s.slope * lo) == s.slope * (hi * lo - lo * lo);
      assert s.slope * width * width == s.slope * (hi * hi - 2.0 * (hi * lo) + lo * lo);
    }
  }

  lemma PrimitiveCell(s: Segment, lo: real, hi: real)
    ensures CellArea(Line(s), lo, hi) == Primitive(s, hi) - Primitive(s, lo)
  {
    var c := s.level - s.slope * s.start;
    assert (hi - lo) * (s.slope * (lo + hi) / 2.0) == (s.slope * hi * hi - s.slope * lo * lo) / 2.0 by {
      assert (hi - lo) * (lo + hi) == hi * hi - lo * lo;
      assert (hi - lo) * (s.slope * (lo + hi) / 2.0) == s.slope * ((hi - lo) * (lo + hi)) / 2.0;
    }
  }

  lemma CellAreaPlus(x: Load, y: Load, lo: real, hi: real)
    ensures CellArea(Plus(x, y), lo, hi) == CellArea(x, lo, hi) + CellArea(y, lo, hi)
  {
    var mid := (lo + hi) / 2.0;
    assert (x.b + y.b) * (lo + hi) / 2.0 == x.b * (lo + hi) / 2.0 + y.b * (lo + hi) / 2.0;
    Distribute(hi - lo, x.a + x.b * (lo + hi) / 2.0, y.a + y.b * (lo + hi) / 2.0);
  }

  lemma Distribute(k: real, x: real, y: real)
    ensures k * (x + y) == k * x + k * y
  {
  }

  /** Area of one segment over the first `m` cells. */
  function SegmentOver(s: Segment, w: real, grid: seq<real>, m: nat): real
    requires m < |grid|
  {
    if m == 0 then 0.0
    else SegmentOver(s, w, grid, m - 1) + CellArea(SegmentLoad(s, w, grid[m - 1]), grid[m - 1], grid[m])
  }

  lemma {:induction false} AreaSplits(segs: seq<Segment>, w: real, grid: seq<real>, m: nat)
    requires segs != [] && m < |grid|
    ensures AreaOver(segs, w, grid, m) == SegmentOver(segs[0], w, grid, m) + AreaOver(segs[1..], w, grid, m)
  {
    hide CellArea, SegmentLoad;
    if m > 0 {
      AreaSplits(segs, w, grid, m - 1);
      CellAreaPlus(SegmentLoad(segs[0], w, grid[m - 1]), LoadAt(segs[1..], w, grid[m - 1]), grid[m - 1], grid[m]);
    }
  }

  lemma {:induction false} SegmentTelescopes(s: Segment, w: real, grid: seq<real>, m: nat)
    requires Live(s, w) && IsGrid([s], w, grid) && m < |grid|
    ensures SegmentOver(s, w, grid, m)
         == Primitive(s, Clamp(grid[m], From(s), Until(s, w))) - Primitive(s, Clamp(grid[0], From(s), Until(s, w)))
  {
    if m > 0 {
      SegmentTelescopes(s, w, grid, m - 1);
      var lo, hi := From(s), Until(s, w);
      assert [s][0] == s;
      NotBetween(grid, lo, m - 1);
      NotBetween(grid, hi, m - 1);
      PrimitiveCell(s, grid[m - 1], grid[m]);
      assert CellArea(IDLE, grid[m - 1], grid[m]) == 0.0;
    }
  }

  lemma NotBetween(grid: seq<real>, x: real, k: nat)
    requires k + 1 < |grid| && x in grid && forall i, j :: 0 <= i < j < |grid| ==> grid[i] <= grid[j]
    ensures !(grid[k] < x < grid[k + 1])
  {
    var i :| 0 <= i < |grid| && grid[i] == x;
    assert i < k ==> grid[i] <= grid[k];
    assert k + 1 < i ==> grid[k + 1] <= grid[i];
  }

  lemma {:induction false} IdleOver(s: Segment, w: real, grid: seq<real>, m: nat)
    requires !Live(s, w) && m < |grid|
    ensures SegmentOver(s, w, grid, m) == 0.0
  {
    if m > 0 { IdleOver(s, w, grid, m - 1); }
  }

  lemma SegmentOverWhole(s: Segment, w: real, grid: seq<real>)
    requires IsGrid([s], w, grid) && grid != []
    ensures SegmentOver(s, w, grid, |grid| - 1) == SegmentArea(s, w)
  {
    if Live(s, w) {
      assert [s][0] == s;
      SegmentTelescopes(s, w, grid, |grid| - 1);
      PrimitiveArea(s, w);
      var i :| 0 <= i < |grid| && grid[i] == From(s);
      var j :| 0 <= j < |grid| && grid[j] == Until(s, w);
      assert grid[0] <= grid[i] && grid[j] <= grid[|grid| - 1];
    } else {
      IdleOver(s, w, grid, |grid| - 1);
    }
  }

  /** The closed-form sum is the area under the value function, cell by cell, on every grid. */
  lemma {:induction false} AreaIsTotal(segs: seq<Segment>, w: real, grid: seq<real>)
    requires IsGrid(segs, w, grid) && grid != []
    ensures AreaOver(segs, w, grid, |grid| - 1) == TotalArea(segs, w)
  {
    if segs == [] {
      EmptyArea(w, grid, |grid| - 1);
    } else {
      AreaSplits(segs, w, grid, |grid| - 1);
      assert [segs[0]][0] == segs[0];
      SegmentOverWhole(segs[0], w, grid);
      forall k | 0 <= k < |segs[1..]| && Live(segs[1..][k], w)
        ensures From(segs[1..][k]) in grid && Until(segs[1..][k], w) in grid
      {
        assert segs[1..][k] == segs[k + 1];
      }
      AreaIsTotal(segs[1..], w, grid);
    }
  }

  lemma {:induction false} EmptyArea(w: real, grid: seq<real>, m: nat)
    requires m < |grid|
    ensures AreaOver([], w, grid, m) == 0.0
  {
    if m > 0 { EmptyArea(w, grid, m - 1); }
  }

  /** Inside a cell nothing opens or closes, so value and coverage are those of its start. */
  lemma {:induction false} CellConstant(segs: seq<Segment>, w: real, grid: seq<real>, k: nat, u: real)
    requires IsGrid(segs, w, grid) && k + 1 < |grid| && grid[k] <= u < grid[k + 1]
    ensures LoadAt(segs, w, u) == LoadAt(segs, w, grid[k])
  {
    if segs != [] {
      forall j | 0 <= j < |segs[1..]| && Live(segs[1..][j], w)
        ensures From(segs[1..][j]) in grid && Until(segs[1..][j], w) in grid
      {
        assert segs[1..][j] == segs[j + 1];
      }
      CellConstant(segs[1..], w, grid, k, u);
      if Live(segs[0], w) {
        NotBetween(grid, From(segs[0]), k);
        NotBetween(grid, Until(segs[0], w), k);
      }
    }
  }

  lemma {:induction false} AreaNonNegative(segs: seq<Segment>, w: real)
    requires NonNegative(segs)
    ensures TotalArea(segs, w) >= 0.0
  {
    hide SegmentArea;
    if segs != [] {
      AreaNonNegative(segs[1..], w);
      SegmentAreaNonNegative(segs[0], w);
    }
  }

  lemma SegmentAreaNonNegative(s: Segment, w: real)
    requires s.level >= 0.0 && s.slope >= 0.0
    ensures SegmentArea(s, w) >= 0.0
  {
    if Live(s, w) {
      var width := Until(s, w) - From(s);
      Product(s.slope, From(s) - s.start);
      Product(width, s.level + s.slope * (From(s) - s.start));
      Product(s.slope, width);
      Product(s.slope * width, width);
    }
  }

  /** No cell holds more area than its length times the peak. */
  lemma CellAtMostPeak(segs: seq<Segment>, w: real, grid: seq<real>, k: nat, peak: real)
    requires IsGrid(segs, w, grid) && k + 1 < |grid| && forall t :: Value(segs, w, t) <= peak
    ensures CellArea(LoadAt(segs, w, grid[k]), grid[k], grid[k + 1])
         <= peak * (if LoadAt(segs, w, grid[k]).open > 0 then grid[k + 1] - grid[k] else 0.0)
  {
    hide Value, LoadAt;
    var lo, hi := grid[k], grid[k + 1];
    var x := LoadAt(segs, w, lo);
    OpenCount(segs, w, lo);
    if lo < hi && x.open > 0 {
      var mid := (lo + hi) / 2.0;
      CellConstant(segs, w, grid, k, mid);
      ValueIsLine(segs, w, mid);
      BelowPeak(x, lo, hi, peak);
    }
  }

  lemma BelowPeak(x: Load, lo: real, hi: real, peak: real)
    requires lo < hi && x.a + x.b * ((lo + hi) / 2.0) <= peak
    ensures CellArea(x, lo, hi) <= peak * (hi - lo)
  {
    var v := x.a + x.b * ((lo + hi) / 2.0);
    assert x.b * (lo + hi) / 2.0 == x.b * ((lo + hi) / 2.0);
    Product(hi - lo, peak - v);
    Distribute(hi - lo, peak, -v);
  }

  lemma {:induction false} AreaAtMostPeak(segs: seq<Segment>, w: real, grid: seq<real>, m: nat, peak: real)
    requires IsGrid(segs, w, grid) && m < |grid| && forall t :: Value(segs, w, t) <= peak
    ensures AreaOver(segs, w, grid, m) <= peak * ActiveOver(segs, w, grid, m)
  {
    hide Value, LoadAt, CellArea, IsGrid;
    if m > 0 {
      AreaAtMostPeak(segs, w, grid, m - 1, peak);
      CellAtMostPeak(segs, w, grid, m - 1, peak);
      Distribute(peak, ActiveOver(segs, w, grid, m - 1),
                 if LoadAt(segs, w, grid[m - 1]).open > 0 then grid[m] - grid[m - 1] else 0.0);
    }
  }

  lemma {:induction false} ActiveAtMostSpan(segs: seq<Segment>, w: real, grid: seq<real>, m: nat)
    requires IsGrid(segs, w, grid) && m < |grid|
    ensures 0.0 <= ActiveOver(segs, w, grid, m) <= grid[m] - grid[0]
  {
    if m > 0 { ActiveAtMostSpan(segs, w, grid, m - 1); }
  }

  // ---------- active time is the length of the union

  /** Length of the cells of the grid on which some segment is open throughout. */
  ghost function UnionOver(segs: seq<Segment>, w: real, grid: seq<real>, m: nat): real
    requires m < |grid|
  {
    if m == 0 then 0.0
    else UnionOver(segs, w, grid, m - 1) + (if CoveredCell(segs, w, grid, m - 1) then grid[m] - grid[m - 1] else 0.0)
  }

  ghost predicate CoveredCell(segs: seq<Segment>, w: real, grid: seq<real>, k: nat)
    requires k + 1 < |grid|
  {
    grid[k] < grid[k + 1] && forall u :: grid[k] <= u < grid[k + 1] ==> Covered(segs, w, u)
  }

  /** Every cell of a grid is covered throughout or nowhere, and outside the grid nothing is. */
  lemma CellAllOrNone(segs: seq<Segment>, w: real, grid: seq<real>, k: nat, u: real)
    requires IsGrid(segs, w, grid) && k + 1 < |grid| && grid[k] <= u < grid[k + 1]
    ensures Covered(segs, w, u) <==> CoveredCell(segs, w, grid, k)
  {
    hide Covered, LoadAt;
    forall v | grid[k] <= v < grid[k + 1] ensures Covered(segs, w, v) <==> Covered(segs, w, u) {
      CellConstant(segs, w, grid, k, u);
      CellConstant(segs, w, grid, k, v);
      OpenCount(segs, w, u);
      OpenCount(segs, w, v);
    }
  }

  /** The active time of a sweep is the length of what the segments cover. */
  lemma {:induction false} ActiveIsUnion(segs: seq<Segment>, w: real, grid: seq<real>, m: nat)
    requires IsGrid(segs, w, grid) && m < |grid|
    ensures ActiveOver(segs, w, grid, m) == UnionOver(segs, w, grid, m)
  {
    hide Covered, LoadAt, CoveredCell;
    if m > 0 {
      ActiveIsUnion(segs, w, grid, m - 1);
      OpenCount(segs, w, grid[m - 1]);
      if grid[m - 1] < grid[m] { CellAllOrNone(segs, w, grid, m - 1, grid[m - 1]); }
      EmptyCell(segs, w, grid, m - 1);
    }
  }

  lemma EmptyCell(segs: seq<Segment>, w: real, grid: seq<real>, k: nat)
    requires IsGrid(segs, w, grid) && k + 1 < |grid|
    ensures grid[k] <= grid[k + 1] && (grid[k] == grid[k + 1] ==> !CoveredCell(segs, w, grid, k))
  {
  }

  // ---------- active time does not depend on the grid

  lemma {:induction false} InsertPosition(grid: seq<real>, x: real) returns (k: nat)
    ensures k <= |grid| && Insert(Identity(), x, grid) == grid[..k] + [x] + grid[k..]
    ensures k > 0 ==> grid[k - 1] < x
    ensures k < |grid| ==> x <= grid[k]
  {
    if grid == [] || x <= grid[0] {
      k := 0;
    } else {
      var j := InsertPosition(grid[1..], x);
      k := j + 1;
      assert grid[..k] == [grid[0]] + grid[1..][..j] && grid[k..] == grid[1..][j..];
    }
  }

  lemma InsertKeepsGrid(segs: seq<Segment>, w: real, grid: seq<real>, x: real)
    requires IsGrid(segs, w, grid)
    ensures IsGrid(segs, w, Insert(Identity(), x, grid))
    ensures multiset(Insert(Identity(), x, grid)) == multiset{x} + multiset(grid)
  {
    InsertPermutes(Identity(), x, grid);
    assert SortedBy(Identity(), grid);
    InsertSorts(Identity(), x, grid);
    var more := Insert(Identity(), x, grid);
    forall i, j | 0 <= i < j < |more| ensures more[i] <= more[j] {
      assert Identity()(more[i]) <= Identity()(more[j]);
    }
    forall y | y in grid ensures y in more {
      assert y in multiset(more);
    }
  }

  /** Outside the grid nothing is open. */
  lemma {:induction false} IdleOutside(segs: seq<Segment>, w: real, grid: seq<real>, t: real)
    requires IsGrid(segs, w, grid) && grid != [] && (t < grid[0] || grid[|grid| - 1] <= t)
    ensures !Covered(segs, w, t)
  {
    forall i | 0 <= i < |segs| ensures !OpenAt(segs[i], w, t) {
      if Live(segs[i], w) {
        var j :| 0 <= j < |grid| && grid[j] == From(segs[i]);
        var k :| 0 <= k < |grid| && grid[k] == Until(segs[i], w);
        assert grid[0] <= grid[j] && grid[k] <= grid[|grid| - 1];
      }
    }
  }

  /** Up to the inserted point nothing changes. */
  lemma {:induction false} ActivePrefix(segs: seq<Segment>, w: real, a: seq<real>, b: seq<real>, m: nat)
    requires m < |a| && m < |b| && forall i :: 0 <= i <= m ==> a[i] == b[i]
    ensures ActiveOver(segs, w, a, m) == ActiveOver(segs, w, b, m)
  {
    if m > 0 { ActivePrefix(segs, w, a, b, m - 1); }
  }

  /** Cutting a cell in two at `x` keeps its active length. */
  lemma {:induction false} ActiveInserted(segs: seq<Segment>, w: real, grid: seq<real>, x: real, k: nat, m: nat)
    requires IsGrid(segs, w, grid) && k <= m < |grid| && x <= grid[k] && (k > 0 ==> grid[k - 1] < x)
    ensures ActiveOver(segs, w, grid[..k] + [x] + grid[k..], m + 1) == ActiveOver(segs, w, grid, m)
    decreases m
  {
    hide LoadAt, IsGrid;
    var more := grid[..k] + [x] + grid[k..];
    assert more[m + 1] == grid[m];
    if m > k {
      assert more[m] == grid[m - 1];
      ActiveInserted(segs, w, grid, x, k, m - 1);
    } else if k == 0 {
      InsertedFirst(segs, w, grid, x, more);
    } else {
      InsertedInside(segs, w, grid, x, k, more);
    }
  }

  lemma InsertedFirst(segs: seq<Segment>, w: real, grid: seq<real>, x: real, more: seq<real>)
    requires IsGrid(segs, w, grid) && grid != [] && x <= grid[0] && |more| >= 2 && more[0] == x && more[1] == grid[0]
    ensures ActiveOver(segs, w, more, 1) == 0.0
  {
    hide LoadAt;
    assert ActiveOver(segs, w, more, 0) == 0.0;
    if x < grid[0] {
      IdleOutside(segs, w, grid, x);
      OpenCount(segs, w, x);
    }
  }

  lemma InsertedInside(segs: seq<Segment>, w: real, grid: seq<real>, x: real, k: nat, more: seq<real>)
    requires IsGrid(segs, w, grid) && 0 < k < |grid| && grid[k - 1] < x <= grid[k]
    requires |more| == |grid| + 1 && more[k] == x && more[k + 1] == grid[k]
    requires forall i :: 0 <= i < k ==> more[i] == grid[i]
    ensures ActiveOver(segs, w, more, k + 1) == ActiveOver(segs, w, grid, k)
  {
    hide LoadAt;
    ActivePrefix(segs, w, more, grid, k - 1);
    if x < grid[k] { CellConstant(segs, w, grid, k - 1, x); }
    hide IsGrid;
  }

  lemma InsertKeepsActive(segs: seq<Segment>, w: real, grid: seq<real>, x: real)
    requires IsGrid(segs, w, grid) && grid != []
    ensures Insert(Identity(), x, grid) != []
    ensures ActiveTotal(segs, w, Insert(Identity(), x, grid)) == ActiveTotal(segs, w, grid)
  {
    hide Insert, ActiveOver, IsGrid, LoadAt;
    var k := InsertPosition(grid, x);
    var last := |grid| - 1;
    if k <= last {
      ActiveInserted(segs, w, grid, x, k, last);
    } else {
      assert grid[..k] + [x] + grid[k..] == grid + [x];
      ActiveAppended(segs, w, grid, x);
    }
  }

  /** A point behind the grid opens a cell where nothing is open. */
  lemma ActiveAppended(segs: seq<Segment>, w: real, grid: seq<real>, x: real)
    requires IsGrid(segs, w, grid) && grid != []
    ensures ActiveOver(segs, w, grid + [x], |grid|) == ActiveOver(segs, w, grid, |grid| - 1)
  {
    hide IsGrid, LoadAt;
    var more, last := grid + [x], |grid| - 1;
    assert more[last] == grid[last];
    ActivePrefix(segs, w, more, grid, last);
    IdleOutside(segs, w, grid, grid[last]);
    OpenCount(segs, w, grid[last]);
  }

  ghost function InsertAll(grid: seq<real>, xs: seq<real>): seq<real> {
    if xs == [] then grid else Insert(Identity(), xs[0], InsertAll(grid, xs[1..]))
  }

  lemma {:induction false} InsertAllPermutes(grid: seq<real>, xs: seq<real>)
    ensures multiset(InsertAll(grid, xs)) == multiset(xs) + multiset(grid)
  {
    if xs != [] {
      InsertAllPermutes(grid, xs[1..]);
      InsertPermutes(Identity(), xs[0], InsertAll(grid, xs[1..]));
      HeadMultiset(xs);
    }
  }

  ghost function ActiveTotal(segs: seq<Segment>, w: real, grid: seq<real>): real
    requires grid != []
  {
    ActiveOver(segs, w, grid, |grid| - 1)
  }

  lemma {:induction false} InsertAllKeeps(segs: seq<Segment>, w: real, grid: seq<real>, xs: seq<real>)
    requires IsGrid(segs, w, grid) && grid != []
    ensures IsGrid(segs, w, InsertAll(grid, xs)) && InsertAll(grid, xs) != []
    ensures ActiveTotal(segs, w, InsertAll(grid, xs)) == ActiveTotal(segs, w, grid)
  {
    hide ActiveTotal, IsGrid;
    if xs != [] {
      InsertAllKeeps(segs, w, grid, xs[1..]);
      InsertKeepsGrid(segs, w, InsertAll(grid, xs[1..]), xs[0]);
      InsertKeepsActive(segs, w, InsertAll(grid, xs[1..]), xs[0]);
    }
  }

  lemma GridSorted(segs: seq<Segment>, w: real, grid: seq<real>)
    requires IsGrid(segs, w, grid)
    ensures SortedBy(Identity(), grid)
  {
  }

  /** The covered length is the same on every grid: it is the length of the union. */
  lemma ActiveGridIndependent(segs: seq<Segment>, w: real, a: seq<real>, b: seq<real>)
    requires IsGrid(segs, w, a) && IsGrid(segs, w, b) && a != [] && b != []
    ensures ActiveOver(segs, w, a, |a| - 1) == ActiveOver(segs, w, b, |b| - 1)
  {
    hide ActiveOver, IsGrid, SortedBy, InsertAll;
    InsertAllKeeps(segs, w, a, b);
    InsertAllKeeps(segs, w, b, a);
    InsertAllPermutes(a, b);
    InsertAllPermutes(b, a);
    GridSorted(segs, w, InsertAll(a, b));
    GridSorted(segs, w, InsertAll(b, a));
    SortedUnique(Identity(), InsertAll(a, b), InsertAll(b, a));
  }
}
