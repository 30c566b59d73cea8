/** Exhaustive search over bucket compositions (src/prompt_library.rs:531-681).

    The depth-first search keeps its own `counts`, `next` and `remaining` arrays instead of
    recursing. Its unfinished frames denote the list of vectors it has still to visit; every
    step either shortens that list from the front or only refines how it is denoted. */
module MixSearch {
  import opened Numbers
  import opened Sums
  import opened Sequences
  import opened CompositionCount
  import opened MixScore
  import opened MixBuckets

  datatype Best = Best(score: Score, mix: Mix)

  // ---------- keeping the best composition

  ghost function Consider(cands: seq<Cand>, req: SelectRequest, best: Option<Best>, mix: Mix): Option<Best>
    requires IsMix(cands, mix)
  {
    if mix == [] then best
    else
      var score := ScoreOf(cands, req, mix);
      if best.None? || BetterThan(score, best.value.score) then Some(Best(score, mix)) else best
  }

  method ConsiderComposition(best: Option<Best>, mix: Mix, cands: seq<Cand>, req: SelectRequest)
    returns (kept: Option<Best>)
    requires IsMix(cands, mix)
    ensures kept == Consider(cands, req, best, mix)
  {
    kept := best;
    var e := Evaluate(mix, cands, req);
    if e.Some? {
      if best.None? || BetterThan(e.value.score, best.value.score) {
        kept := Some(Best(e.value.score, mix));
      }
    }
  }

  ghost function ConsiderVector(
      cands: seq<Cand>, buckets: Buckets, req: SelectRequest, best: Option<Best>, v: seq<nat>): Option<Best>
  {
    if AreBuckets(cands, buckets) && |v| == |buckets| then
      ComposeIsMix(cands, buckets, v);
      Consider(cands, req, best, Compose(buckets, v))
    else best
  }

  /** The best composition after visiting `vs` in order. */
  ghost function FoldBest(
      cands: seq<Cand>, buckets: Buckets, req: SelectRequest, best: Option<Best>, vs: seq<seq<nat>>): Option<Best>
    decreases |vs|
  {
    if vs == [] then best
    else FoldBest(cands, buckets, req, ConsiderVector(cands, buckets, req, best, vs[0]), vs[1..])
  }

  lemma {:induction false} FoldBestAppend(
      cands: seq<Cand>, buckets: Buckets, req: SelectRequest, best: Option<Best>, a: seq<seq<nat>>, b: seq<seq<nat>>)
    ensures FoldBest(cands, buckets, req, best, a + b)
         == FoldBest(cands, buckets, req, FoldBest(cands, buckets, req, best, a), b)
    decreases |a|
  {
    if a == [] {
      assert a + b == b;
    } else {
      assert (a + b)[1..] == a[1..] + b;
      FoldBestAppend(cands, buckets, req, ConsiderVector(cands, buckets, req, best, a[0]), a[1..], b);
    }
  }

  // ---------- what the frames of the search still denote

  /** Vectors left in the frames above level `i`, deepest frame first. */
  ghost function Above(caps: seq<nat>, counts: seq<nat>, next: seq<nat>, remaining: seq<nat>, i: nat): seq<seq<nat>>
    requires i <= |caps| == |counts| == |next| && |remaining| == |caps| + 1
  {
    if i == 0 then []
    else
      PrependAll(counts[..i - 1], CompositionsFrom(caps[i - 1..], remaining[i - 1], next[i - 1]))
      + Above(caps, counts, next, remaining, i - 1)
  }

  /** All vectors left when the search stands at level `i`. */
  ghost function Todo(caps: seq<nat>, counts: seq<nat>, next: seq<nat>, remaining: seq<nat>, i: nat): seq<seq<nat>>
    requires i <= |caps| == |counts| == |next| && |remaining| == |caps| + 1
  {
    if i < |caps| then Above(caps, counts, next, remaining, i + 1)
    else PrependAll(counts, Compositions([], remaining[i])) + Above(caps, counts, next, remaining, i)
  }

  lemma {:induction false} AboveFrame(
      caps: seq<nat>, c: seq<nat>, x: seq<nat>, r: seq<nat>, c': seq<nat>, x': seq<nat>, r': seq<nat>, i: nat)
    requires i <= |caps| == |c| == |x| == |c'| == |x'| && |r| == |r'| == |caps| + 1
    requires c[..i] == c'[..i] && x[..i] == x'[..i] && r[..i] == r'[..i]
    ensures Above(caps, c, x, r, i) == Above(caps, c', x', r', i)
  {
    if i > 0 {
      assert c[..i - 1] == c[..i][..i - 1] && c'[..i - 1] == c'[..i][..i - 1];
      assert x[..i - 1] == x[..i][..i - 1] && x'[..i - 1] == x'[..i][..i - 1];
      assert r[..i - 1] == r[..i][..i - 1] && r'[..i - 1] == r'[..i][..i - 1];
      assert x[i - 1] == x[..i][i - 1] == x'[i - 1];
      assert r[i - 1] == r[..i][i - 1] == r'[i - 1];
      AboveFrame(caps, c, x, r, c', x', r', i - 1);
    }
  }

  /** Entries below `low` cannot be completed, so skipping to `low` skips nothing. */
  lemma {:induction false} SkipToLow(caps: seq<nat>, n: nat, from: nat, goal: nat)
    requires caps != [] && from <= goal <= Max(from, n - Total(caps[1..]))
    ensures CompositionsFrom(caps, n, from) == CompositionsFrom(caps, n, goal)
    decreases goal - from
  {
    hide Compositions, CompositionsFrom, PrependAll, Total;
    if from < goal {
      TooMany(caps[1..], n - from);
      FromUnfolds(caps, n, from);
      NothingPrepended([from]);
      assert [] + CompositionsFrom(caps, n, from + 1) == CompositionsFrom(caps, n, from + 1);
      SkipToLow(caps, n, from + 1, goal);
    }
  }

  lemma FromUnfolds(caps: seq<nat>, n: int, v: nat)
    requires caps != []
    ensures CompositionsFrom(caps, n, v) ==
      (if v > caps[0] then [] else PrependAll([v], Compositions(caps[1..], n - v))) + CompositionsFrom(caps, n, v + 1)
  {
    if v > caps[0] { assert [] + CompositionsFrom(caps, n, v + 1) == CompositionsFrom(caps, n, v); }
  }

  lemma TooMany(caps: seq<nat>, n: int)
    requires n > Total(caps)
    ensures Compositions(caps, n) == []
  {
    var all := Compositions(caps, n);
    if all != [] {
      assert all[0] in all;
      CompositionsSound(caps, n, all[0]);
      TotalBounded(caps, all[0]);
    }
  }

  lemma {:induction false} NoneFrom(caps: seq<nat>, n: nat, from: nat)
    requires caps != [] && from > Min(caps[0], n)
    ensures CompositionsFrom(caps, n, from) == []
    decreases caps[0] + 1 - from
  {
    if from <= caps[0] {
      NoneFrom(caps, n, from + 1);
      assert Compositions(caps[1..], n - from) == [];
    }
  }

  /** A frame at `from` is its first completable entry `value`, then the frame after it. */
  lemma SplitFrame(prefix: seq<nat>, caps: seq<nat>, n: nat, from: nat, value: nat)
    requires caps != [] && value == Max(from, Max(0, n - Total(caps[1..]))) && value <= Min(caps[0], n)
    ensures PrependAll(prefix, CompositionsFrom(caps, n, from))
         == PrependAll(prefix + [value], Compositions(caps[1..], n - value))
            + PrependAll(prefix, CompositionsFrom(caps, n, value + 1))
  {
    SkipToLow(caps, n, from, value);
    var below := Compositions(caps[1..], n - value);
    PrependAllLaws(prefix, [value], PrependAll([value], below), CompositionsFrom(caps, n, value + 1));
    PrependAllLaws(prefix, [value], below, []);
  }

  /** Moving one level down only splits the current frame at `value`. */
  lemma Descend(caps: seq<nat>, c: seq<nat>, x: seq<nat>, r: seq<nat>, i: nat, value: nat)
    requires i < |caps| == |c| == |x| && |r| == |caps| + 1
    requires value == Max(x[i], Max(0, r[i] - Total(caps[i + 1..]))) && value <= Min(caps[i], r[i])
    requires i + 1 < |caps| ==> x[i + 1] == 0
    ensures Todo(caps, c[i := value], x[i := value + 1], r[i + 1 := r[i] - value], i + 1) == Todo(caps, c, x, r, i)
  {
    hide Compositions, CompositionsFrom, PrependAll, Total, Max, Above;
    AboveUnfolds(caps, c, x, r, i);
    var c', x', r' := c[i := value], x[i := value + 1], r[i + 1 := r[i] - value];
    var mine := caps[i..];
    assert mine[0] == caps[i] && mine[1..] == caps[i + 1..];
    SplitFrame(c[..i], mine, r[i], x[i], value);
    assert c'[..i + 1] == c[..i] + [value];
    assert c'[..i] == c[..i] && x'[..i] == x[..i] && r'[..i] == r[..i];
    AboveUnfolds(caps, c', x', r', i);
    AboveFrame(caps, c, x, r, c', x', r', i);
    BelowFrame(caps, c', x', r', i + 1);
    var taken := PrependAll(c[..i] + [value], Compositions(mine[1..], r[i] - value));
    var later := PrependAll(c[..i], CompositionsFrom(mine, r[i], value + 1));
    assert (taken + later) + Above(caps, c, x, r, i) == taken + (later + Above(caps, c, x, r, i));
  }

  /** Just below a fresh frame the search has all compositions of the rest to visit. */
  lemma BelowFrame(caps: seq<nat>, c: seq<nat>, x: seq<nat>, r: seq<nat>, i: nat)
    requires i <= |caps| == |c| == |x| && |r| == |caps| + 1
    requires i < |caps| ==> x[i] == 0
    ensures Todo(caps, c, x, r, i) == PrependAll(c[..i], Compositions(caps[i..], r[i])) + Above(caps, c, x, r, i)
  {
    if i == |caps| {
      assert c[..i] == c && caps[i..] == [];
    }
  }

  /** An exhausted frame denotes nothing; clearing its `next` does not matter above it. */
  lemma Ascend(caps: seq<nat>, c: seq<nat>, x: seq<nat>, r: seq<nat>, i: nat, value: nat)
    requires i < |caps| == |c| == |x| && |r| == |caps| + 1
    requires value == Max(x[i], Max(0, r[i] - Total(caps[i + 1..]))) && value > Min(caps[i], r[i])
    ensures Todo(caps, c, x, r, i) == Above(caps, c, x[i := 0], r, i)
  {
    hide Above, CompositionsFrom, Total;
    SpentFrame(caps, r[i], x[i], i, value);
    NothingPrepended(c[..i]);
    AboveUnfolds(caps, c, x, r, i);
    hide PrependAll, Max, Min;
    assert [] + Above(caps, c, x, r, i) == Above(caps, c, x, r, i);
    assert x[i := 0][..i] == x[..i];
    AboveFrame(caps, c, x, r, c, x[i := 0], r, i);
  }

  lemma SpentFrame(caps: seq<nat>, n: nat, from: nat, i: nat, value: nat)
    requires i < |caps| && value == Max(from, Max(0, n - Total(caps[i + 1..]))) && value > Min(caps[i], n)
    ensures CompositionsFrom(caps[i..], n, from) == []
  {
    hide CompositionsFrom, Total;
    var mine := caps[i..];
    assert mine[0] == caps[i] && mine[1..] == caps[i + 1..];
    SkipToLow(mine, n, from, value);
    NoneFrom(mine, n, value);
  }

  lemma NothingPrepended(prefix: seq<nat>)
    ensures PrependAll(prefix, []) == []
  {
  }

  lemma AboveUnfolds(caps: seq<nat>, c: seq<nat>, x: seq<nat>, r: seq<nat>, i: nat)
    requires i < |caps| == |c| == |x| && |r| == |caps| + 1
    ensures Above(caps, c, x, r, i + 1)
         == PrependAll(c[..i], CompositionsFrom(caps[i..], r[i], x[i])) + Above(caps, c, x, r, i)
  {
  }

  // ---------- termination: steps left in the tree below the frames

  ghost function Steps(caps: seq<nat>, n: int, from: nat): nat
    requires caps != []
    decreases |caps|, caps[0] + 1 - from
  {
    if from > caps[0] then 1
    else 1 + (if |caps| == 1 then 1 else Steps(caps[1..], n - from, 0)) + Steps(caps, n, from + 1)
  }

  ghost function StepsAbove(caps: seq<nat>, next: seq<nat>, remaining: seq<nat>, i: nat): nat
    requires i <= |caps| == |next| && |remaining| == |caps| + 1
  {
    if i == 0 then 0
    else Steps(caps[i - 1..], remaining[i - 1], next[i - 1]) + StepsAbove(caps, next, remaining, i - 1)
  }

  ghost function StepsLeft(caps: seq<nat>, next: seq<nat>, remaining: seq<nat>, i: nat): nat
    requires i <= |caps| == |next| && |remaining| == |caps| + 1
  {
    if i < |caps| then StepsAbove(caps, next, remaining, i + 1) else 1 + StepsAbove(caps, next, remaining, i)
  }

  lemma {:induction false} StepsShrink(caps: seq<nat>, n: int, from: nat, goal: nat)
    requires caps != [] && from <= goal
    ensures Steps(caps, n, goal) <= Steps(caps, n, from)
    decreases goal - from
  {
    if from < goal { StepsShrink(caps, n, from + 1, goal); }
  }

  lemma {:induction false} StepsFrame(caps: seq<nat>, x: seq<nat>, r: seq<nat>, x': seq<nat>, r': seq<nat>, i: nat)
    requires i <= |caps| == |x| == |x'| && |r| == |r'| == |caps| + 1
    requires forall j :: 0 <= j < i ==> x[j] == x'[j] && r[j] == r'[j]
    ensures StepsAbove(caps, x, r, i) == StepsAbove(caps, x', r', i)
  {
    if i > 0 { StepsFrame(caps, x, r, x', r', i - 1); }
  }

  lemma DescendShrinks(caps: seq<nat>, x: seq<nat>, r: seq<nat>, i: nat, value: nat)
    requires i < |caps| == |x| && |r| == |caps| + 1
    requires x[i] <= value <= Min(caps[i], r[i])
    requires i + 1 < |caps| ==> x[i + 1] == 0
    ensures StepsLeft(caps, x[i := value + 1], r[i + 1 := r[i] - value], i + 1) < StepsLeft(caps, x, r, i)
  {
    var x', r' := x[i := value + 1], r[i + 1 := r[i] - value];
    var mine := caps[i..];
    assert mine[0] == caps[i] && mine[1..] == caps[i + 1..];
    StepsShrink(mine, r[i], x[i], value);
    StepsFrame(caps, x, r, x', r', i);
    assert StepsAbove(caps, x', r', i + 1) == Steps(mine, r[i], value + 1) + StepsAbove(caps, x, r, i);
  }

  lemma AscendShrinks(caps: seq<nat>, x: seq<nat>, r: seq<nat>, i: nat)
    requires 0 < i < |caps| == |x| && |r| == |caps| + 1
    ensures StepsLeft(caps, x[i := 0], r, i - 1) < StepsLeft(caps, x, r, i)
  {
    StepsFrame(caps, x, r, x[i := 0], r, i);
    StepsPositive(caps[i..], r[i], x[i]);
  }

  lemma StepsPositive(caps: seq<nat>, n: int, from: nat)
    requires caps != []
    ensures Steps(caps, n, from) >= 1
  {
  }

  // ---------- the search

  method SuffixCaps(caps: seq<nat>) returns (suffix: seq<nat>)
    ensures |suffix| == |caps| + 1
    ensures forall i :: 0 <= i <= |caps| ==> suffix[i] == Total(caps[i..])
  {
    suffix := seq(|caps| + 1, i => 0);
    for i := |caps| downto 0
      invariant |suffix| == |caps| + 1
      invariant forall j :: i <= j <= |caps| ==> suffix[j] == Total(caps[j..])
    {
      assert caps[i..][1..] == caps[i + 1..];
      suffix := suffix[i := suffix[i + 1] + caps[i]];
    }
  }

  method BuildMix(buckets: Buckets, counts: seq<nat>) returns (mix: Mix)
    requires |buckets| == |counts| && forall b :: 0 <= b < |buckets| ==> buckets[b] != []
    ensures mix == Compose(buckets, counts)
  {
    hide Compose, RoundRobin;
    mix := [];
    ComposeSlices(buckets, counts);
    for b := 0 to |buckets|
      invariant mix + Compose(buckets[b..], counts[b..]) == Compose(buckets, counts)
    {
      ComposeUnfolds(buckets, counts, b);
      Regroup(mix, RoundRobin(buckets[b], counts[b]), Compose(buckets[b + 1..], counts[b + 1..]));
      mix := PushFrom(mix, buckets[b], counts[b]);
    }
    ComposeUnfolds(buckets, counts, |buckets|);
  }

  /** The inner loop: `count` rows of one bucket, cycling. */
  method PushFrom(mix: Mix, bucket: seq<nat>, count: nat) returns (longer: Mix)
    requires bucket != []
    ensures longer == mix + RoundRobin(bucket, count)
  {
    hide RoundRobin;
    longer := mix;
    RoundRobinNext(bucket, 0);
    for slot := 0 to count
      invariant longer == mix + RoundRobin(bucket, slot)
    {
      RoundRobinNext(bucket, slot);
      Regroup(mix, RoundRobin(bucket, slot), [bucket[slot % |bucket|]]);
      longer := longer + [bucket[slot % |bucket|]];
    }
  }

  lemma Regroup(a: Mix, b: Mix, c: Mix)
    ensures a + b + c == a + (b + c)
  {
  }

  lemma ComposeSlices(buckets: Buckets, counts: seq<nat>)
    requires |buckets| == |counts| && forall i :: 0 <= i < |buckets| ==> buckets[i] != []
    ensures [] + Compose(buckets[0..], counts[0..]) == Compose(buckets, counts)
  {
    assert buckets[0..] == buckets && counts[0..] == counts;
  }

  lemma RoundRobinNext(bucket: seq<nat>, slot: nat)
    requires bucket != []
    ensures RoundRobin(bucket, 0) == []
    ensures RoundRobin(bucket, slot + 1) == RoundRobin(bucket, slot) + [bucket[slot % |bucket|]]
  {
  }

  lemma ComposeUnfolds(buckets: Buckets, counts: seq<nat>, b: nat)
    requires b <= |buckets| == |counts| && forall i :: 0 <= i < |buckets| ==> buckets[i] != []
    ensures Compose(buckets[b..], counts[b..]) ==
      if b == |buckets| then []
      else RoundRobin(buckets[b], counts[b]) + Compose(buckets[b + 1..], counts[b + 1..])
  {
    if b < |buckets| { assert buckets[b..][1..] == buckets[b + 1..] && counts[b..][1..] == counts[b + 1..]; }
  }

  /** What stays fixed while the search runs: the final answer and the final work count. */
  datatype Goal = Goal(
    cands: seq<Cand>, buckets: Buckets, req: SelectRequest, caps: seq<nat>, best: Option<Best>, work: nat)

  ghost predicate OnTrack(
      g: Goal, best: Option<Best>, work: nat, c: seq<nat>, x: seq<nat>, r: seq<nat>, i: nat)
  {
    && i <= |g.caps| == |c| == |x| && |r| == |g.caps| + 1
    && (forall j :: i < j < |g.caps| ==> x[j] == 0)
    && FoldBest(g.cands, g.buckets, g.req, best, Todo(g.caps, c, x, r, i)) == g.best
    && work + |Todo(g.caps, c, x, r, i)| == g.work
  }

  lemma StartOnTrack(g: Goal, best: Option<Best>, work: nat, c: seq<nat>, x: seq<nat>, r: seq<nat>, n: nat)
    requires 0 < |g.caps| == |c| == |x| && |r| == |g.caps| + 1
    requires r[0] == n && forall j :: 0 <= j < |x| ==> x[j] == 0
    requires g.best == FoldBest(g.cands, g.buckets, g.req, best, Compositions(g.caps, n))
    requires g.work == work + |Compositions(g.caps, n)|
    ensures OnTrack(g, best, work, c, x, r, 0)
  {
    assert g.caps[0..] == g.caps && c[..0] == [];
    PrependAllLaws([], [], Compositions(g.caps, n), []);
    assert Above(g.caps, c, x, r, 1) == Compositions(g.caps, n) + Above(g.caps, c, x, r, 0);
    assert Todo(g.caps, c, x, r, 0) == Compositions(g.caps, n);
  }

  lemma LeafOnTrack(g: Goal, best: Option<Best>, work: nat, c: seq<nat>, x: seq<nat>, r: seq<nat>)
    requires 0 < |g.caps| && OnTrack(g, best, work, c, x, r, |g.caps|)
    ensures r[|g.caps|] == 0 ==>
              OnTrack(g, ConsiderVector(g.cands, g.buckets, g.req, best, c), work + 1, c, x, r, |g.caps| - 1)
    ensures r[|g.caps|] != 0 ==> OnTrack(g, best, work, c, x, r, |g.caps| - 1)
    ensures StepsLeft(g.caps, x, r, |g.caps| - 1) < StepsLeft(g.caps, x, r, |g.caps|)
  {
    hide Todo, Above, ConsiderVector;
    var k := |g.caps|;
    LeafTodo(g.caps, c, x, r);
    LeafShrinks(g.caps, x, r);
    var rest := Todo(g.caps, c, x, r, k - 1);
    assert ([c] + rest)[0] == c && ([c] + rest)[1..] == rest && [] + rest == rest;
  }

  /** At a leaf the current vector comes first, if it is complete. */
  lemma LeafTodo(caps: seq<nat>, c: seq<nat>, x: seq<nat>, r: seq<nat>)
    requires 0 < |caps| == |c| == |x| && |r| == |caps| + 1
    ensures Todo(caps, c, x, r, |caps|) == (if r[|caps|] == 0 then [c] else []) + Todo(caps, c, x, r, |caps| - 1)
  {
    hide Above;
    PrependAllLaws(c, [], [], []);
  }

  lemma LeafShrinks(caps: seq<nat>, x: seq<nat>, r: seq<nat>)
    requires 0 < |caps| == |x| && |r| == |caps| + 1
    ensures StepsLeft(caps, x, r, |caps| - 1) < StepsLeft(caps, x, r, |caps|)
  {
  }

  lemma AscendOnTrack(
      g: Goal, best: Option<Best>, work: nat, c: seq<nat>, x: seq<nat>, r: seq<nat>, i: nat, value: nat)
    requires i < |g.caps| && OnTrack(g, best, work, c, x, r, i)
    requires value == Max(x[i], Max(0, r[i] - Total(g.caps[i + 1..]))) && value > Min(g.caps[i], r[i])
    ensures i == 0 ==> best == g.best && work == g.work
    ensures i > 0 ==> OnTrack(g, best, work, c, x[i := 0], r, i - 1)
    ensures i > 0 ==> StepsLeft(g.caps, x[i := 0], r, i - 1) < StepsLeft(g.caps, x, r, i)
  {
    Ascend(g.caps, c, x, r, i, value);
    if i > 0 { AscendShrinks(g.caps, x, r, i); }
  }

  lemma DescendOnTrack(
      g: Goal, best: Option<Best>, work: nat, c: seq<nat>, x: seq<nat>, r: seq<nat>, i: nat, value: nat)
    requires i < |g.caps| && OnTrack(g, best, work, c, x, r, i)
    requires value == Max(x[i], Max(0, r[i] - Total(g.caps[i + 1..]))) && value <= Min(g.caps[i], r[i])
    ensures OnTrack(g, best, work, c[i := value], x[i := value + 1], r[i + 1 := r[i] - value], i + 1)
    ensures StepsLeft(g.caps, x[i := value + 1], r[i + 1 := r[i] - value], i + 1) < StepsLeft(g.caps, x, r, i)
  {
    hide Todo, FoldBest, StepsLeft, Total;
    Descend(g.caps, c, x, r, i, value);
    DescendShrinks(g.caps, x, r, i, value);
  }

  method VisitVector(cands: seq<Cand>, buckets: Buckets, req: SelectRequest, best: Option<Best>, counts: seq<nat>)
    returns (kept: Option<Best>)
    requires AreBuckets(cands, buckets) && |counts| == |buckets|
    ensures kept == ConsiderVector(cands, buckets, req, best, counts)
  {
    var mix := BuildMix(buckets, counts);
    ComposeIsMix(cands, buckets, counts);
    kept := ConsiderComposition(best, mix, cands, req);
  }

  method TakeValue(counts: array<nat>, next: array<nat>, remaining: array<nat>, i: nat, value: nat)
    requires i < counts.Length == next.Length && remaining.Length == counts.Length + 1
    requires counts != next && counts != remaining && next != remaining
    requires value <= remaining[i]
    modifies counts, next, remaining
    ensures counts[..] == old(counts[..])[i := value]
    ensures next[..] == old(next[..])[i := value + 1]
    ensures remaining[..] == old(remaining[..])[i + 1 := old(remaining[i]) - value]
  {
    counts[i] := value;
    next[i] := value + 1;
    remaining[i + 1] := remaining[i] - value;
  }

  /** Visits every composition of `n` once, in lexicographic order. */
  method SearchLength(
      cands: seq<Cand>, buckets: Buckets, req: SelectRequest, caps: seq<nat>, suffix: seq<nat>, n: nat,
      start: Option<Best>, startWork: nat)
    returns (best: Option<Best>, work: nat)
    requires AreBuckets(cands, buckets) && |caps| == |buckets| > 0 && |suffix| == |caps| + 1
    requires forall i :: 0 <= i <= |caps| ==> suffix[i] == Total(caps[i..])
    ensures best == FoldBest(cands, buckets, req, start, Compositions(caps, n))
    ensures work == startWork + |Compositions(caps, n)|
  {
    hide OnTrack, StepsLeft, FoldBest, Compositions, AreBuckets, Total, ConsiderVector;
    best, work := start, startWork;
    var counts := new nat[|caps|](_ => 0);
    var next := new nat[|caps|](_ => 0);
    var remaining := new nat[|caps| + 1](_ => 0);
    remaining[0] := n;
    var i: nat := 0;
    ghost var g := Goal(cands, buckets, req, caps,
                        FoldBest(cands, buckets, req, start, Compositions(caps, n)),
                        startWork + |Compositions(caps, n)|);
    ghost var c: seq<nat>, x: seq<nat>, r: seq<nat> := counts[..], next[..], remaining[..];
    StartOnTrack(g, best, work, c, x, r, n);
    while true
      invariant i <= |caps| && OnTrack(g, best, work, c, x, r, i)
      invariant c == counts[..] && x == next[..] && r == remaining[..]
      decreases StepsLeft(caps, x, r, i)
    {
      if i == |caps| {
        LeafOnTrack(g, best, work, c, x, r);
        if remaining[i] == 0 {
          best := VisitVector(cands, buckets, req, best, counts[..]);
          work := work + 1;
        }
        i := i - 1;
        continue;
      }
      var low := if remaining[i] >= suffix[i + 1] then remaining[i] - suffix[i + 1] else 0;
      var high := Min(caps[i], remaining[i]);
      var value: nat := Max(next[i], low);
      if value > high {
        AscendOnTrack(g, best, work, c, x, r, i, value);
        next[i], x := 0, x[i := 0];
        assert next[..] == x;
        if i == 0 {
          break;
        }
        i := i - 1;
      } else {
        DescendOnTrack(g, best, work, c, x, r, i, value);
        TakeValue(counts, next, remaining, i, value);
        c, x, r := c[i := value], x[i := value + 1], r[i + 1 := r[i] - value];
        i := i + 1;
      }
    }
  }
}
