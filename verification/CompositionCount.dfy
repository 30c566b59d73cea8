/** Bounded compositions: vectors with `0 <= v[i] <= caps[i]` and a given sum.
    One entry is the number of rows a mix takes from one joint-length bucket.

    `Compositions` lists them in the order of the depth-first search, `Ways` counts
    them, and `CountCompositions` is the saturating sliding-window table that decides
    whether listing them all fits the work limit. */
module CompositionCount {
  import opened Numbers
  import opened Sums
  import opened Sequences

  // ---------- the vectors themselves

  function Total(v: seq<nat>): nat {
    if v == [] then 0 else v[0] + Total(v[1..])
  }

  ghost predicate IsComposition(caps: seq<nat>, n: int, v: seq<nat>) {
    |v| == |caps| && Total(v) == n && forall i :: 0 <= i < |v| ==> v[i] <= caps[i]
  }

  /** `prefix` put in front of every vector of `vs`. */
  ghost function PrependAll(prefix: seq<nat>, vs: seq<seq<nat>>): seq<seq<nat>> {
    seq(|vs|, i requires 0 <= i < |vs| => prefix + vs[i])
  }

  /** All compositions of `n`, in lexicographic order. */
  ghost function Compositions(caps: seq<nat>, n: int): seq<seq<nat>>
    decreases |caps|, 1, 0
  {
    if n < 0 then []
    else if caps == [] then (if n == 0 then [[]] else [])
    else CompositionsFrom(caps, n, 0)
  }

  /** Those whose first entry is at least `v`. */
  ghost function CompositionsFrom(caps: seq<nat>, n: int, v: nat): seq<seq<nat>>
    requires caps != []
    decreases |caps|, 0, caps[0] + 1 - v
  {
    if v > caps[0] then []
    else PrependAll([v], Compositions(caps[1..], n - v)) + CompositionsFrom(caps, n, v + 1)
  }

  lemma TotalAppend(a: seq<nat>, b: seq<nat>)
    ensures Total(a + b) == Total(a) + Total(b)
  {
    if a == [] {
      assert a + b == b;
    } else {
      assert (a + b)[1..] == a[1..] + b;
      TotalAppend(a[1..], b);
    }
  }

  lemma PrependAllLaws(p: seq<nat>, q: seq<nat>, a: seq<seq<nat>>, b: seq<seq<nat>>)
    ensures PrependAll(p, a + b) == PrependAll(p, a) + PrependAll(p, b)
    ensures PrependAll(p, PrependAll(q, a)) == PrependAll(p + q, a)
    ensures PrependAll([], a) == a
    ensures PrependAll(p, [[]]) == [p]
  {
    forall i | 0 <= i < |a| ensures p + (q + a[i]) == p + q + a[i] && [] + a[i] == a[i] {}
    assert PrependAll(p, PrependAll(q, a)) == PrependAll(p + q, a);
    assert p + [] == p;
  }

  // ---------- the list is exactly the set of compositions, without repetition

  lemma {:induction false} CompositionsSound(caps: seq<nat>, n: int, v: seq<nat>)
    requires v in Compositions(caps, n)
    ensures IsComposition(caps, n, v)
    decreases |caps|, 1, 0
  {
    if caps != [] {
      CompositionsFromSound(caps, n, 0, v);
    }
  }

  lemma {:induction false} CompositionsFromSound(caps: seq<nat>, n: int, from: nat, v: seq<nat>)
    requires caps != [] && v in CompositionsFrom(caps, n, from)
    ensures IsComposition(caps, n, v) && v[0] >= from
    decreases |caps|, 0, caps[0] + 1 - from
  {
    var rest := Compositions(caps[1..], n - from);
    if v in PrependAll([from], rest) {
      var i :| 0 <= i < |rest| && v == [from] + rest[i];
      CompositionsSound(caps[1..], n - from, rest[i]);
      assert v[1..] == rest[i];
      forall j | 0 <= j < |v| ensures v[j] <= caps[j] {
        if j > 0 { assert v[j] == rest[i][j - 1] <= caps[1..][j - 1]; }
      }
    } else {
      CompositionsFromSound(caps, n, from + 1, v);
    }
  }

  lemma {:induction false} CompositionsComplete(caps: seq<nat>, n: int, v: seq<nat>)
    requires IsComposition(caps, n, v)
    ensures v in Compositions(caps, n)
    decreases |caps|, 1, 0
  {
    if caps != [] {
      CompositionsFromComplete(caps, n, 0, v);
    }
  }

  lemma {:induction false} CompositionsFromComplete(caps: seq<nat>, n: int, from: nat, v: seq<nat>)
    requires caps != [] && IsComposition(caps, n, v) && v[0] >= from
    ensures v in CompositionsFrom(caps, n, from)
    decreases |caps|, 0, caps[0] + 1 - from
  {
    if v[0] == from {
      var rest := Compositions(caps[1..], n - from);
      CompositionsComplete(caps[1..], n - from, v[1..]);
      var i :| 0 <= i < |rest| && rest[i] == v[1..];
      assert v == [from] + rest[i] == PrependAll([from], rest)[i];
    } else {
      CompositionsFromComplete(caps, n, from + 1, v);
    }
  }

  lemma {:induction false} CompositionsDistinct(caps: seq<nat>, n: int)
    ensures Distinct(Compositions(caps, n))
    decreases |caps|, 1, 0
  {
    if caps != [] && n >= 0 {
      CompositionsFromDistinct(caps, n, 0);
    }
  }

  lemma {:induction false} CompositionsFromDistinct(caps: seq<nat>, n: int, from: nat)
    requires caps != []
    ensures Distinct(CompositionsFrom(caps, n, from))
    decreases |caps|, 0, caps[0] + 1 - from
  {
    if from <= caps[0] {
      var rest := Compositions(caps[1..], n - from);
      var a, b := PrependAll([from], rest), CompositionsFrom(caps, n, from + 1);
      CompositionsDistinct(caps[1..], n - from);
      CompositionsFromDistinct(caps, n, from + 1);
      var both := a + b;
      forall i, j | 0 <= i < j < |both| ensures both[i] != both[j] {
        if j < |a| {
          assert a[i][1..] == rest[i] && a[j][1..] == rest[j];
        } else if i < |a| {
          assert b[j - |a|] in b;
          CompositionsFromSound(caps, n, from + 1, b[j - |a|]);
          assert a[i][0] == from;
        }
      }
    }
  }

  // ---------- counting

  /** The number of compositions of `n`; none for a negative `n`. */
  ghost function Ways(caps: seq<nat>, n: int): int
    decreases |caps|, 0
  {
    if n < 0 then 0
    else if caps == [] then (if n == 0 then 1 else 0)
    else Sum(WaysLeaving(caps[1..], n), 0, caps[0] + 1)
  }

  /** The ways to fill `caps` once `v` of the `n` rows are spent elsewhere. */
  ghost function WaysLeaving(caps: seq<nat>, n: int): int -> int
    decreases |caps|, 1
  {
    v => Ways(caps, n - v)
  }

  ghost function WaysRow(caps: seq<nat>): int -> int {
    m => Ways(caps, m)
  }

  /** `Ways` is the length of the list, so it really counts the distinct compositions. */
  lemma {:induction false} WaysCounts(caps: seq<nat>, n: int)
    ensures |Compositions(caps, n)| == Ways(caps, n)
    decreases |caps|, 1, 0
  {
    if caps != [] && n >= 0 {
      WaysFromCounts(caps, n, 0);
    }
  }

  lemma {:induction false} WaysFromCounts(caps: seq<nat>, n: int, from: nat)
    requires caps != []
    ensures |CompositionsFrom(caps, n, from)| == Sum(WaysLeaving(caps[1..], n), from, caps[0] + 1)
    decreases |caps|, 0, caps[0] + 1 - from
  {
    if from <= caps[0] {
      WaysCounts(caps[1..], n - from);
      WaysFromCounts(caps, n, from + 1);
    }
  }

  /** Ways to fill `tail` after `u` rows from a first bucket and `v` from a last one. */
  ghost function Cell(tail: seq<nat>, n: int): (int, int) -> int {
    (u, v) => Ways(tail, n - u - v)
  }

  lemma WaysWindow(caps: seq<nat>, c: nat, n: int)
    ensures Sum(WaysLeaving(caps, n), 0, c + 1) == Sum(WaysRow(caps), n - c, n + 1)
  {
    SumReverse(WaysLeaving(caps, n), WaysRow(caps), n, c + 1);
  }

  /** Adding a bucket at the end: the sliding-window recurrence of the table. */
  lemma {:induction false} WaysSnoc(caps: seq<nat>, c: nat, n: int)
    ensures Ways(caps + [c], n) == Sum(WaysLeaving(caps, n), 0, c + 1)
    decreases |caps|, 1
  {
    if n < 0 {
      forall v | 0 <= v < c + 1 ensures WaysLeaving(caps, n)(v) == 0 {
        assert WaysLeaving(caps, n)(v) == Ways(caps, n - v);
      }
      SumZero(WaysLeaving(caps, n), 0, c + 1);
    } else if caps == [] {
      assert (caps + [c])[1..] == [];
    } else {
      var tail := caps[1..];
      assert (caps + [c])[1..] == tail + [c];
      forall u | 0 <= u < caps[0] + 1
        ensures WaysLeaving(tail + [c], n)(u) == Sum(Row(Cell(tail, n), u), 0, c + 1)
      {
        WaysCellRow(tail, c, n, u);
      }
      forall v | 0 <= v < c + 1
        ensures WaysLeaving(caps, n)(v) == Sum(Column(Cell(tail, n), v), 0, caps[0] + 1)
      {
        WaysCellColumn(caps, n, v);
      }
      SumSwap(WaysLeaving(tail + [c], n), WaysLeaving(caps, n), Cell(tail, n), caps[0] + 1, c + 1);
    }
  }

  lemma {:induction false} WaysCellRow(tail: seq<nat>, c: nat, n: int, u: int)
    ensures Ways(tail + [c], n - u) == Sum(Row(Cell(tail, n), u), 0, c + 1)
    decreases |tail|, 2
  {
    WaysSnoc(tail, c, n - u);
    SumEqual(Row(Cell(tail, n), u), WaysLeaving(tail, n - u), 0, c + 1);
  }

  lemma {:induction false} WaysCellColumn(caps: seq<nat>, n: int, v: int)
    requires caps != []
    ensures Ways(caps, n - v) == Sum(Column(Cell(caps[1..], n), v), 0, caps[0] + 1)
  {
    if n - v < 0 {
      forall u | 0 <= u < caps[0] + 1 ensures Column(Cell(caps[1..], n), v)(u) == 0 {
        assert Column(Cell(caps[1..], n), v)(u) == Ways(caps[1..], n - u - v);
      }
      SumZero(Column(Cell(caps[1..], n), v), 0, caps[0] + 1);
    } else {
      SumEqual(WaysLeaving(caps[1..], n - v), Column(Cell(caps[1..], n), v), 0, caps[0] + 1);
    }
  }

  lemma WaysNonNegative(caps: seq<nat>, n: int)
    ensures 0 <= Ways(caps, n)
  {
    WaysCounts(caps, n);
  }

  /** Every composition of the first buckets extends to all of them, so counts only grow. */
  lemma {:induction false} WaysGrow(caps: seq<nat>, more: seq<nat>, n: int)
    ensures Ways(caps, n) <= Ways(caps + more, n)
    decreases |more|
  {
    if more == [] {
      assert caps + more == caps;
    } else {
      var c := more[0];
      WaysSnoc(caps, c, n);
      WaysWindow(caps, c, n);
      SumLast(WaysRow(caps), n - c, n);
      forall m | n - c <= m < n ensures 0 <= WaysRow(caps)(m) {
        WaysNonNegative(caps, m);
      }
      SumNonNegative(WaysRow(caps), n - c, n);
      assert caps + more == (caps + [c]) + more[1..];
      WaysGrow(caps + [c], more[1..], n);
    }
  }

  /** No composition exceeds the total capacity, and every length up to it has one. */
  lemma {:induction false} TotalBounded(caps: seq<nat>, v: seq<nat>)
    requires |v| == |caps| && forall i :: 0 <= i < |v| ==> v[i] <= caps[i]
    ensures Total(v) <= Total(caps)
  {
    if v != [] {
      TotalBounded(caps[1..], v[1..]);
    }
  }

  ghost function Fill(caps: seq<nat>, n: nat): (v: seq<nat>)
    requires n <= Total(caps)
    ensures IsComposition(caps, n, v)
  {
    if caps == [] then []
    else
      var first := Min(caps[0], n);
      var v := [first] + Fill(caps[1..], n - first);
      assert v[1..] == Fill(caps[1..], n - first);
      v
  }

  // ---------- the saturating table (src/prompt_library.rs:579-605)

  ghost function EntryAt(dp: seq<nat>): int -> int {
    i => if 0 <= i < |dp| then dp[i] else 0
  }

  /** `dp` holds the capped number of compositions of every length. */
  ghost predicate IsTable(dp: seq<nat>, caps: seq<nat>, cap: nat) {
    forall n :: 0 <= n < |dp| ==> dp[n] == Min(cap, Ways(caps, n))
  }

  /** One bucket's pass: each entry becomes the capped sum of a window of the old row. */
  method AddBucket(dp: seq<nat>, capacity: nat, cap: nat) returns (next: seq<nat>)
    ensures |next| == |dp|
    ensures forall n :: 0 <= n < |dp| ==> next[n] == Min(cap, Sum(EntryAt(dp), n - capacity, n + 1))
  {
    next := [];
    var window: int := 0;
    SumZero(EntryAt(dp), -1 - capacity, 0);
    for n := 0 to |dp|
      invariant |next| == n
      invariant window == Sum(EntryAt(dp), n - 1 - capacity, n)
      invariant forall k :: 0 <= k < n ==> next[k] == Min(cap, Sum(EntryAt(dp), k - capacity, k + 1))
    {
      SumLast(EntryAt(dp), n - 1 - capacity, n);
      window := window + dp[n];
      if n > capacity {
        window := window - dp[n - capacity - 1];
      }
      SumNonNegative(EntryAt(dp), n - capacity, n + 1);
      next := next + [Min(cap, window)];
    }
  }

  lemma AddBucketIsTable(dp: seq<nat>, next: seq<nat>, caps: seq<nat>, c: nat, cap: nat)
    requires IsTable(dp, caps, cap) && |next| == |dp|
    requires forall n :: 0 <= n < |dp| ==> next[n] == Min(cap, Sum(EntryAt(dp), n - c, n + 1))
    ensures IsTable(next, caps + [c], cap)
  {
    forall n | 0 <= n < |next| ensures next[n] == Min(cap, Ways(caps + [c], n)) {
      CappedSum(EntryAt(dp), WaysRow(caps), cap, n - c, n + 1);
      WaysSnoc(caps, c, n);
      WaysWindow(caps, c, n);
    }
  }

  /** The capped number of compositions over the lengths `lo..=hi`. */
  function CappedTotal(dp: seq<nat>, lo: nat, hi: nat, cap: nat): (total: nat)
    requires lo <= hi + 1 <= |dp|
    ensures total == Min(cap, Sum(EntryAt(dp), lo, hi + 1))
    decreases hi + 1 - lo
  {
    if lo > hi then 0
    else
      ghost var _ := SumNonNegativeEntry(dp, lo + 1, hi + 1);
      Min(cap, dp[lo] + CappedTotal(dp, lo + 1, hi, cap))
  }

  ghost function SumNonNegativeEntry(dp: seq<nat>, lo: int, hi: int): (ok: bool)
    ensures ok && 0 <= Sum(EntryAt(dp), lo, hi)
  {
    SumNonNegative(EntryAt(dp), lo, hi);
    true
  }

  /** The number of compositions with a sum in `lo..=hi`. */
  ghost function WaysBetween(caps: seq<nat>, lo: int, hi: int): int {
    Sum(WaysRow(caps), lo, hi + 1)
  }

  lemma TableTotal(dp: seq<nat>, caps: seq<nat>, lo: nat, hi: nat, cap: nat)
    requires IsTable(dp, caps, cap) && lo <= hi < |dp|
    ensures CappedTotal(dp, lo, hi, cap) == Min(cap, WaysBetween(caps, lo, hi))
  {
    CappedSum(EntryAt(dp), WaysRow(caps), cap, lo, hi + 1);
  }

  /** Stopping early keeps the verdict: the buckets left out can only add compositions. */
  lemma PrefixTotal(caps: seq<nat>, done: nat, lo: nat, hi: nat)
    requires done <= |caps|
    ensures WaysBetween(caps[..done], lo, hi) <= WaysBetween(caps, lo, hi)
    ensures done == |caps| ==> caps[..done] == caps
  {
    assert caps[..done] + caps[done..] == caps;
    forall n | lo <= n < hi + 1 ensures WaysRow(caps[..done])(n) <= WaysRow(caps)(n) {
      WaysGrow(caps[..done], caps[done..], n);
    }
    SumMonotone(WaysRow(caps[..done]), WaysRow(caps), lo, hi + 1);
  }

  lemma EmptyTable(dp: seq<nat>, cap: nat)
    requires dp != [] && dp[0] == 1 && cap >= 1 && forall n :: 0 < n < |dp| ==> dp[n] == 0
    ensures IsTable(dp, [], cap)
  {
  }

  method CountCompositions(caps: seq<nat>, minLen: nat, maxLen: nat, workLimit: nat)
    returns (dp: seq<nat>, total: nat)
    requires minLen <= maxLen
    ensures total == Min(workLimit + 1, WaysBetween(caps, minLen, maxLen))
    ensures |dp| == maxLen + 1
    ensures total <= workLimit ==> IsTable(dp, caps, workLimit + 1)
  {
    hide IsTable, Ways, WaysBetween, WaysRow, EntryAt, Sum;
    var cap := workLimit + 1;
    dp := seq(maxLen + 1, i => 0)[0 := 1];
    EmptyTable(dp, cap);
    var done := 0;
    while done < |caps|
      invariant 0 <= done <= |caps| && |dp| == maxLen + 1
      invariant IsTable(dp, caps[..done], cap)
    {
      var next := AddBucket(dp, caps[done], cap);
      AddBucketIsTable(dp, next, caps[..done], caps[done], cap);
      assert caps[..done] + [caps[done]] == caps[..done + 1];
      dp := next;
      done := done + 1;
      TableTotal(dp, caps[..done], minLen, maxLen, cap);
      if CappedTotal(dp, minLen, maxLen, cap) == cap {
        break;
      }
    }
    total := CappedTotal(dp, minLen, maxLen, cap);
    TableTotal(dp, caps[..done], minLen, maxLen, cap);
    PrefixTotal(caps, done, minLen, maxLen);
  }
}
