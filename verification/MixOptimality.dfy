/** What the kept best composition says about all row-level mixes.

    `BetterThan` treats excess values within `TIE` as equal, so a near miss, a mix that misses its
    tolerances by no more than `TIE`, can displace one that meets them. If some feasible mix is
    better than every near miss, the exhaustive search is a decision procedure and an optimizer.
    If some near miss is better than every feasible mix, the search reports that nothing fits. */
module MixOptimality {
  import opened Numbers
  import opened Sums
  import opened Sequences
  import opened CompositionCount
  import opened MixScore
  import opened MixBuckets
  import opened MixSearch

  /** Least count deviation first, then least repeats. */
  ghost predicate NoWorse(a: Score, b: Score) {
    a.countDev < b.countDev || (a.countDev == b.countDev && a.extraCopies <= b.extraCopies)
  }

  ghost predicate Permitted(cands: seq<Cand>, buckets: Buckets, req: SelectRequest, v: seq<nat>) {
    AreBuckets(cands, buckets) && |v| == |buckets| && WithinLimits(cands, req, Compose(buckets, v))
  }

  /** A kept mix respects the limits and carries its own score. */
  ghost predicate Kept(cands: seq<Cand>, req: SelectRequest, best: Option<Best>) {
    best.Some? ==>
      (WithinLimits(cands, req, best.value.mix) && best.value.score == ScoreOf(cands, req, best.value.mix))
  }

  // ---------- near misses

  ghost predicate NearMiss(cands: seq<Cand>, req: SelectRequest, mix: Mix) {
    WithinLimits(cands, req, mix) && 0.0 < ScoreOf(cands, req, mix).excess <= TIE
  }

  /** A feasible mix strictly better, by deviation and repeats, than every near miss. */
  ghost predicate Clears(cands: seq<Cand>, req: SelectRequest, mix: Mix) {
    && Feasible(cands, req, mix)
    && forall near :: NearMiss(cands, req, near) ==> !NoWorse(ScoreOf(cands, req, near), ScoreOf(cands, req, mix))
  }

  /** If anything is feasible, something feasible is better than every near miss. */
  ghost predicate Harmless(cands: seq<Cand>, req: SelectRequest) {
    (exists mix :: Feasible(cands, req, mix)) ==> exists mix :: Clears(cands, req, mix)
  }

  /** Some near miss is strictly better than everything feasible. */
  ghost predicate Hidden(cands: seq<Cand>, req: SelectRequest) {
    exists near :: NearMiss(cands, req, near) && Hides(cands, req, near)
  }

  ghost predicate Hides(cands: seq<Cand>, req: SelectRequest, near: Mix)
    requires WithinLimits(cands, req, near)
  {
    forall mix :: Feasible(cands, req, mix) ==> !NoWorse(ScoreOf(cands, req, mix), ScoreOf(cands, req, near))
  }

  /** A near miss on a level with a least feasible mix; only the visiting order separates them. */
  ghost predicate Tied(cands: seq<Cand>, req: SelectRequest) {
    exists near, mix :: NearMiss(cands, req, near) && TiedWith(cands, req, near, mix)
  }

  ghost predicate TiedWith(cands: seq<Cand>, req: SelectRequest, near: Mix, mix: Mix)
    requires WithinLimits(cands, req, near)
  {
    && Feasible(cands, req, mix)
    && NoWorse(ScoreOf(cands, req, near), ScoreOf(cands, req, mix))
    && NoWorse(ScoreOf(cands, req, mix), ScoreOf(cands, req, near))
    && forall other :: Feasible(cands, req, other) ==> NoWorse(ScoreOf(cands, req, mix), ScoreOf(cands, req, other))
  }

  /** No permitted excess lies just above `TIE`, where it would tie with near misses but lose to hits. */
  ghost predicate NoBand(cands: seq<Cand>, req: SelectRequest) {
    forall mix :: WithinLimits(cands, req, mix) ==>
      ScoreOf(cands, req, mix).excess <= TIE || ScoreOf(cands, req, mix).excess > 2.0 * TIE
  }

  ghost function VectorScore(cands: seq<Cand>, buckets: Buckets, req: SelectRequest, v: seq<nat>): Score
    requires Permitted(cands, buckets, req, v)
  {
    ScoreOf(cands, req, Compose(buckets, v))
  }

  ghost predicate Hit(cands: seq<Cand>, buckets: Buckets, req: SelectRequest, v: seq<nat>) {
    Permitted(cands, buckets, req, v) && VectorScore(cands, buckets, req, v).excess == 0.0
  }

  /** Met, or missed by no more than `TIE`. */
  ghost predicate Low(cands: seq<Cand>, buckets: Buckets, req: SelectRequest, v: seq<nat>) {
    Permitted(cands, buckets, req, v) && VectorScore(cands, buckets, req, v).excess <= TIE
  }

  ghost predicate AllPermitted(cands: seq<Cand>, buckets: Buckets, req: SelectRequest, vs: seq<seq<nat>>) {
    forall i :: 0 <= i < |vs| ==> Permitted(cands, buckets, req, vs[i])
  }

  /** What one visit does to the kept best. */
  lemma VisitOne(cands: seq<Cand>, buckets: Buckets, req: SelectRequest, best: Option<Best>, v: seq<nat>)
    requires Kept(cands, req, best) && Permitted(cands, buckets, req, v)
    ensures var kept := ConsiderVector(cands, buckets, req, best, v);
      var score := VectorScore(cands, buckets, req, v);
      && Kept(cands, req, kept) && kept.Some? && score.excess >= 0.0
      && kept.value.score == if best.None? || BetterThan(score, best.value.score) then score else best.value.score
  {
    hide EvaluationOf, RepeatsWithin;
    FeasibleExcess(cands, req, Compose(buckets, v));
  }

  // ---------- a clear hit wins

  /** Once a hit better than every near miss is kept, or something no worse, that stays so. */
  lemma ClearStep(cands: seq<Cand>, buckets: Buckets, req: SelectRequest, best: Option<Best>, v: seq<nat>, hit: Mix)
    requires Clears(cands, req, hit) && Kept(cands, req, best) && Permitted(cands, buckets, req, v)
    requires (best.Some? && Holds(best.value.score, ScoreOf(cands, req, hit)))
          || VectorScore(cands, buckets, req, v) == ScoreOf(cands, req, hit)
    ensures var kept := ConsiderVector(cands, buckets, req, best, v);
      kept.Some? && Holds(kept.value.score, ScoreOf(cands, req, hit))
  {
    hide EvaluationOf, RepeatsWithin;
    VisitOne(cands, buckets, req, best, v);
    FeasibleExcess(cands, req, hit);
    assert NearMiss(cands, req, Compose(buckets, v)) ==>
      !NoWorse(VectorScore(cands, buckets, req, v), ScoreOf(cands, req, hit));
    if best.Some? {
      FeasibleExcess(cands, req, best.value.mix);
      assert NearMiss(cands, req, best.value.mix) ==> !NoWorse(best.value.score, ScoreOf(cands, req, hit));
    }
  }

  ghost predicate Holds(score: Score, bar: Score) { score.excess == 0.0 && NoWorse(score, bar) }

  lemma {:induction false} FoldHolds(
      cands: seq<Cand>, buckets: Buckets, req: SelectRequest, best: Option<Best>, vs: seq<seq<nat>>, hit: Mix)
    requires Clears(cands, req, hit) && Kept(cands, req, best) && AllPermitted(cands, buckets, req, vs)
    requires (best.Some? && Holds(best.value.score, ScoreOf(cands, req, hit)))
          || exists i :: 0 <= i < |vs| && VectorScore(cands, buckets, req, vs[i]) == ScoreOf(cands, req, hit)
    ensures var kept := FoldBest(cands, buckets, req, best, vs);
      kept.Some? && Holds(kept.value.score, ScoreOf(cands, req, hit))
    decreases |vs|
  {
    var bar := ScoreOf(cands, req, hit);
    hide Clears, Permitted, ConsiderVector, Kept, VectorScore, Holds, ScoreOf;
    if vs != [] {
      VisitOne(cands, buckets, req, best, vs[0]);
      if (best.Some? && Holds(best.value.score, bar)) || VectorScore(cands, buckets, req, vs[0]) == bar {
        ClearStep(cands, buckets, req, best, vs[0], hit);
      } else {
        var i :| 0 <= i < |vs| && VectorScore(cands, buckets, req, vs[i]) == bar;
        assert vs[1..][i - 1] == vs[i];
      }
      FoldHolds(cands, buckets, req, ConsiderVector(cands, buckets, req, best, vs[0]), vs[1..], hit);
    }
  }

  // ---------- without a band, the first least low vector wins

  /** `vs[i]` is the first of the least vectors that are met or nearly met. */
  ghost predicate FirstLow(cands: seq<Cand>, buckets: Buckets, req: SelectRequest, vs: seq<seq<nat>>, i: nat) {
    && i < |vs| && Low(cands, buckets, req, vs[i])
    && forall j :: 0 <= j < |vs| && Low(cands, buckets, req, vs[j]) ==>
      && NoWorse(VectorScore(cands, buckets, req, vs[i]), VectorScore(cands, buckets, req, vs[j]))
      && (j < i ==> !NoWorse(VectorScore(cands, buckets, req, vs[j]), VectorScore(cands, buckets, req, vs[i])))
  }

  /** `best` has the score of the first least low vector of `seen`; without one it is not low. */
  ghost predicate KeepsFirst(
      cands: seq<Cand>, buckets: Buckets, req: SelectRequest, best: Option<Best>, seen: seq<seq<nat>>)
  {
    && (best.None? <==> seen == []) && Kept(cands, req, best)
    && (NoneLow(cands, buckets, req, best, seen)
        || exists i :: 0 <= i < |seen| && KeptAt(cands, buckets, req, best, seen, i))
  }

  ghost predicate KeptAt(
      cands: seq<Cand>, buckets: Buckets, req: SelectRequest, best: Option<Best>, seen: seq<seq<nat>>, i: nat)
  {
    && FirstLow(cands, buckets, req, seen, i)
    && best.Some? && best.value.score == VectorScore(cands, buckets, req, seen[i])
  }

  ghost predicate NoneLow(
      cands: seq<Cand>, buckets: Buckets, req: SelectRequest, best: Option<Best>, seen: seq<seq<nat>>)
  {
    && (forall j :: 0 <= j < |seen| ==> !Low(cands, buckets, req, seen[j]))
    && (best.Some? ==> best.value.score.excess > 2.0 * TIE)
  }

  lemma FirstStays(
      cands: seq<Cand>, buckets: Buckets, req: SelectRequest, seen: seq<seq<nat>>, i: nat, v: seq<nat>)
    requires FirstLow(cands, buckets, req, seen, i)
    requires Low(cands, buckets, req, v) ==>
      NoWorse(VectorScore(cands, buckets, req, seen[i]), VectorScore(cands, buckets, req, v))
    ensures FirstLow(cands, buckets, req, seen + [v], i)
  {
    hide Low, VectorScore, NoWorse;
    assert forall j :: 0 <= j < |seen| ==> (seen + [v])[j] == seen[j];
  }

  lemma NewFirst(cands: seq<Cand>, buckets: Buckets, req: SelectRequest, seen: seq<seq<nat>>, v: seq<nat>)
    requires Low(cands, buckets, req, v)
    requires forall j :: 0 <= j < |seen| && Low(cands, buckets, req, seen[j]) ==>
      !NoWorse(VectorScore(cands, buckets, req, seen[j]), VectorScore(cands, buckets, req, v))
    ensures FirstLow(cands, buckets, req, seen + [v], |seen|)
  {
    hide Low, VectorScore;
    assert forall j :: 0 <= j < |seen| ==> (seen + [v])[j] == seen[j];
  }

  lemma FirstStep(
      cands: seq<Cand>, buckets: Buckets, req: SelectRequest, best: Option<Best>, seen: seq<seq<nat>>, v: seq<nat>)
    requires NoBand(cands, req) && KeepsFirst(cands, buckets, req, best, seen) && Permitted(cands, buckets, req, v)
    ensures KeepsFirst(cands, buckets, req, ConsiderVector(cands, buckets, req, best, v), seen + [v])
  {
    hide ConsiderVector, Permitted, FirstLow, ScoreOf;
    VisitOne(cands, buckets, req, best, v);
    var score, now := VectorScore(cands, buckets, req, v), seen + [v];
    VectorBand(cands, buckets, req, v);
    assert now[|seen|] == v && forall j :: 0 <= j < |seen| ==> now[j] == seen[j];
    if i: nat :| i < |seen| && KeptAt(cands, buckets, req, best, seen, i) {
      FirstIsLow(cands, buckets, req, seen, i);
      if Low(cands, buckets, req, v) && BetterThan(score, best.value.score) {
        FirstLeads(cands, buckets, req, seen, i, v);
        NewFirst(cands, buckets, req, seen, v);
        assert KeptAt(cands, buckets, req, ConsiderVector(cands, buckets, req, best, v), now, |seen|);
      } else {
        FirstStays(cands, buckets, req, seen, i, v);
        assert KeptAt(cands, buckets, req, ConsiderVector(cands, buckets, req, best, v), now, i);
      }
    } else if Low(cands, buckets, req, v) {
      NewFirst(cands, buckets, req, seen, v);
      assert KeptAt(cands, buckets, req, ConsiderVector(cands, buckets, req, best, v), now, |seen|);
    }
  }

  lemma VectorBand(cands: seq<Cand>, buckets: Buckets, req: SelectRequest, v: seq<nat>)
    requires NoBand(cands, req) && Permitted(cands, buckets, req, v)
    ensures Low(cands, buckets, req, v) || VectorScore(cands, buckets, req, v).excess > 2.0 * TIE
    ensures VectorScore(cands, buckets, req, v).excess >= 0.0
  {
    FeasibleExcess(cands, req, Compose(buckets, v));
  }

  lemma FirstIsLow(cands: seq<Cand>, buckets: Buckets, req: SelectRequest, seen: seq<seq<nat>>, i: nat)
    requires FirstLow(cands, buckets, req, seen, i)
    ensures Low(cands, buckets, req, seen[i]) && 0.0 <= VectorScore(cands, buckets, req, seen[i]).excess <= TIE
  {
    FeasibleExcess(cands, req, Compose(buckets, seen[i]));
  }

  lemma FirstLeads(
      cands: seq<Cand>, buckets: Buckets, req: SelectRequest, seen: seq<seq<nat>>, i: nat, v: seq<nat>)
    requires FirstLow(cands, buckets, req, seen, i) && Permitted(cands, buckets, req, v)
    requires !NoWorse(VectorScore(cands, buckets, req, seen[i]), VectorScore(cands, buckets, req, v))
    ensures forall j :: 0 <= j < |seen| && Low(cands, buckets, req, seen[j]) ==>
      !NoWorse(VectorScore(cands, buckets, req, seen[j]), VectorScore(cands, buckets, req, v))
  {
    hide VectorScore;
  }

  lemma {:induction false} FoldFirst(
      cands: seq<Cand>, buckets: Buckets, req: SelectRequest, best: Option<Best>,
      seen: seq<seq<nat>>, vs: seq<seq<nat>>)
    requires NoBand(cands, req) && KeepsFirst(cands, buckets, req, best, seen) && AllPermitted(cands, buckets, req, vs)
    ensures KeepsFirst(cands, buckets, req, FoldBest(cands, buckets, req, best, vs), seen + vs)
    decreases |vs|
  {
    hide KeepsFirst, Permitted, NoBand, ConsiderVector;
    if vs == [] {
      assert seen + vs == seen;
    } else {
      FirstStep(cands, buckets, req, best, seen, vs[0]);
      FoldFirst(cands, buckets, req, ConsiderVector(cands, buckets, req, best, vs[0]), seen + [vs[0]], vs[1..]);
      assert seen + vs == (seen + [vs[0]]) + vs[1..];
    }
  }

  // ---------- all lengths together

  /** Every vector the exhaustive search visits, shortest mixes first. */
  ghost function AllCompositions(caps: seq<nat>, lo: nat, hi: nat): seq<seq<nat>>
    decreases hi + 1 - lo
  {
    if lo > hi then [] else Compositions(caps, lo) + AllCompositions(caps, lo + 1, hi)
  }

  lemma {:induction false} AllCompositionsMembers(caps: seq<nat>, lo: nat, hi: nat, v: seq<nat>)
    ensures v in AllCompositions(caps, lo, hi) <==> lo <= Total(v) <= hi && IsComposition(caps, Total(v), v)
    decreases hi + 1 - lo
  {
    if lo <= hi {
      AllCompositionsMembers(caps, lo + 1, hi, v);
      if v in Compositions(caps, lo) {
        CompositionsSound(caps, lo, v);
      }
      if IsComposition(caps, lo, v) {
        CompositionsComplete(caps, lo, v);
      }
    }
  }

  lemma {:induction false} AllCompositionsCount(caps: seq<nat>, lo: nat, hi: nat)
    ensures |AllCompositions(caps, lo, hi)| == WaysBetween(caps, lo, hi)
    decreases hi + 1 - lo
  {
    if lo <= hi {
      AllCompositionsCount(caps, lo + 1, hi);
      WaysCounts(caps, lo);
    }
  }

  /** Each composition of each length is listed once. */
  lemma {:induction false} AllCompositionsDistinct(caps: seq<nat>, lo: nat, hi: nat)
    ensures Distinct(AllCompositions(caps, lo, hi))
    decreases hi + 1 - lo
  {
    if lo <= hi {
      var a, b := Compositions(caps, lo), AllCompositions(caps, lo + 1, hi);
      CompositionsDistinct(caps, lo);
      AllCompositionsDistinct(caps, lo + 1, hi);
      forall i, j | 0 <= i < |a| && 0 <= j < |b| ensures a[i] != b[j] {
        assert a[i] in a && b[j] in b;
        CompositionsSound(caps, lo, a[i]);
        AllCompositionsMembers(caps, lo + 1, hi, b[j]);
      }
    }
  }

  /** The longest mix the search tries. */
  function SearchMax(buckets: Buckets, req: SelectRequest): nat {
    Min(MaxLen(req), Total(CapsOf(buckets, req)))
  }

  ghost function Visited(buckets: Buckets, req: SelectRequest): seq<seq<nat>> {
    AllCompositions(CapsOf(buckets, req), MinLen(req), SearchMax(buckets, req))
  }

  /** The answer of the exhaustive search. */
  ghost function ExactBest(cands: seq<Cand>, buckets: Buckets, req: SelectRequest): Option<Best> {
    FoldBest(cands, buckets, req, None, Visited(buckets, req))
  }

  lemma VisitedPermitted(cands: seq<Cand>, buckets: Buckets, req: SelectRequest, v: seq<nat>)
    requires AreBuckets(cands, buckets) && v in Visited(buckets, req)
    ensures Permitted(cands, buckets, req, v)
  {
    AllCompositionsMembers(CapsOf(buckets, req), MinLen(req), SearchMax(buckets, req), v);
    CompositionWithinLimits(cands, buckets, req, Total(v), v);
  }

  /** Every permitted row-level mix is matched by a visited vector that is no worse. */
  lemma MixVisited(cands: seq<Cand>, buckets: Buckets, req: SelectRequest, mix: Mix) returns (v: seq<nat>)
    requires AreBuckets(cands, buckets) && CoversAll(cands, buckets) && WithinLimits(cands, req, mix)
    ensures v in Visited(buckets, req) && Permitted(cands, buckets, req, v)
    ensures ScoreOf(cands, req, Compose(buckets, v)).excess == ScoreOf(cands, req, mix).excess
    ensures NoWorse(ScoreOf(cands, req, Compose(buckets, v)), ScoreOf(cands, req, mix))
  {
    v := MixHasComposition(cands, buckets, req, mix);
    TotalBounded(CapsOf(buckets, req), v);
    AllCompositionsMembers(CapsOf(buckets, req), MinLen(req), SearchMax(buckets, req), v);
  }

  lemma VisitedAllPermitted(cands: seq<Cand>, buckets: Buckets, req: SelectRequest)
    requires AreBuckets(cands, buckets)
    ensures AllPermitted(cands, buckets, req, Visited(buckets, req))
  {
    hide Visited, Permitted;
    var vs := Visited(buckets, req);
    forall i | 0 <= i < |vs| ensures Permitted(cands, buckets, req, vs[i]) {
      assert vs[i] in vs;
      VisitedPermitted(cands, buckets, req, vs[i]);
    }
  }

  /** A visited vector at most as bad as a clear mix is clear itself. */
  lemma ClearsDown(cands: seq<Cand>, req: SelectRequest, mix: Mix, lower: Mix)
    requires Clears(cands, req, mix) && Feasible(cands, req, lower)
    requires NoWorse(ScoreOf(cands, req, lower), ScoreOf(cands, req, mix))
    ensures Clears(cands, req, lower)
  {
    hide ScoreOf;
  }

  /** Soundness and optimality of the exhaustive search over all row-level mixes, wherever near
      misses are harmless: it finds a feasible mix whenever there is one, and then one with least
      (count deviation, repeats). */
  lemma ExactBestIsOptimal(cands: seq<Cand>, buckets: Buckets, req: SelectRequest, mix: Mix)
    requires AreBuckets(cands, buckets) && CoversAll(cands, buckets) && Harmless(cands, req)
    requires Feasible(cands, req, mix)
    ensures ExactBest(cands, buckets, req).Some?
    ensures ExactBest(cands, buckets, req).value.score.excess == 0.0
    ensures NoWorse(ExactBest(cands, buckets, req).value.score, ScoreOf(cands, req, mix))
  {
    hide Visited, FoldBest, AreBuckets, CoversAll, Clears, ScoreOf;
    var clear :| Clears(cands, req, clear);
    ClearIsFeasible(cands, req, clear);
    if NoWorse(ScoreOf(cands, req, mix), ScoreOf(cands, req, clear)) {
      ClearsDown(cands, req, clear, mix);
      ClearMixHolds(cands, buckets, req, mix);
    } else {
      ClearMixHolds(cands, buckets, req, clear);
    }
  }

  lemma ClearIsFeasible(cands: seq<Cand>, req: SelectRequest, mix: Mix)
    requires Clears(cands, req, mix)
    ensures Feasible(cands, req, mix)
  {
  }

  lemma ClearMixHolds(cands: seq<Cand>, buckets: Buckets, req: SelectRequest, mix: Mix)
    requires AreBuckets(cands, buckets) && CoversAll(cands, buckets) && Clears(cands, req, mix)
    ensures ExactBest(cands, buckets, req).Some?
    ensures Holds(ExactBest(cands, buckets, req).value.score, ScoreOf(cands, req, mix))
  {
    hide Visited, FoldBest, CoversAll, ScoreOf;
    var v := MixVisited(cands, buckets, req, mix);
    var lower := Compose(buckets, v);
    FeasibleExcess(cands, req, mix);
    FeasibleExcess(cands, req, lower);
    ClearsDown(cands, req, mix, lower);
    VisitedAllPermitted(cands, buckets, req);
    var vs := Visited(buckets, req);
    var i :| 0 <= i < |vs| && vs[i] == v;
    assert VectorScore(cands, buckets, req, vs[i]) == ScoreOf(cands, req, lower);
    FoldHolds(cands, buckets, req, None, vs, lower);
  }

  /** Under the visiting order of `buckets`, the first least low vector meets the tolerances. */
  ghost predicate FeasibleFirst(cands: seq<Cand>, buckets: Buckets, req: SelectRequest) {
    var vs := Visited(buckets, req);
    exists i :: 0 <= i < |vs| && FirstLow(cands, buckets, req, vs, i) && Hit(cands, buckets, req, vs[i])
  }

  /** Without a band the outcome is decided: the search ends on a feasible mix exactly when the
      first least low vector is one, and then on one that is optimal. */
  lemma ExactBestFeasibleIff(cands: seq<Cand>, buckets: Buckets, req: SelectRequest)
    requires AreBuckets(cands, buckets) && CoversAll(cands, buckets) && NoBand(cands, req)
    ensures var best := ExactBest(cands, buckets, req);
      && (best.Some? && best.value.score.excess == 0.0 <==> FeasibleFirst(cands, buckets, req))
      && (FeasibleFirst(cands, buckets, req) ==> forall mix :: Feasible(cands, req, mix) ==>
            NoWorse(best.value.score, ScoreOf(cands, req, mix)))
  {
    hide Visited, FoldBest, AreBuckets, CoversAll, ScoreOf, FirstLow, Permitted, NoBand;
    var vs, best := Visited(buckets, req), ExactBest(cands, buckets, req);
    VisitedAllPermitted(cands, buckets, req);
    FoldFirst(cands, buckets, req, None, [], vs);
    assert [] + vs == vs;
    if FeasibleFirst(cands, buckets, req) {
      var i :| 0 <= i < |vs| && FirstLow(cands, buckets, req, vs, i) && Hit(cands, buckets, req, vs[i]);
      FirstIsLow(cands, buckets, req, vs, i);
      var k :| 0 <= k < |vs| && KeptAt(cands, buckets, req, best, vs, k);
      FirstUnique(cands, buckets, req, vs, i, k);
      forall mix | Feasible(cands, req, mix) ensures NoWorse(best.value.score, ScoreOf(cands, req, mix)) {
        FirstBelowAll(cands, buckets, req, k, mix);
      }
    }
    if best.Some? && best.value.score.excess == 0.0 {
      var k :| 0 <= k < |vs| && KeptAt(cands, buckets, req, best, vs, k);
      FirstIsLow(cands, buckets, req, vs, k);
      assert Hit(cands, buckets, req, vs[k]);
    }
  }

  lemma FirstUnique(cands: seq<Cand>, buckets: Buckets, req: SelectRequest, vs: seq<seq<nat>>, i: nat, k: nat)
    requires FirstLow(cands, buckets, req, vs, i) && FirstLow(cands, buckets, req, vs, k)
    ensures i == k
  {
    hide Low, VectorScore;
  }

  /** The first least low vector is no worse than any feasible or nearly feasible row-level mix. */
  lemma FirstBelowAll(cands: seq<Cand>, buckets: Buckets, req: SelectRequest, i: nat, mix: Mix)
    requires AreBuckets(cands, buckets) && CoversAll(cands, buckets)
    requires FirstLow(cands, buckets, req, Visited(buckets, req), i)
    requires Feasible(cands, req, mix) || NearMiss(cands, req, mix)
    ensures NoWorse(VectorScore(cands, buckets, req, Visited(buckets, req)[i]), ScoreOf(cands, req, mix))
  {
    hide Visited, AreBuckets, CoversAll, ScoreOf;
    var vs := Visited(buckets, req);
    var v := MixVisited(cands, buckets, req, mix);
    FeasibleExcess(cands, req, mix);
    var j :| 0 <= j < |vs| && vs[j] == v;
    assert Low(cands, buckets, req, vs[j]);
  }

  /** A near miss better than everything feasible makes the search report failure, in every order
      of the buckets. */
  lemma HiddenFails(cands: seq<Cand>, buckets: Buckets, req: SelectRequest)
    requires AreBuckets(cands, buckets) && CoversAll(cands, buckets) && NoBand(cands, req) && Hidden(cands, req)
    ensures !FeasibleFirst(cands, buckets, req)
    ensures ExactBest(cands, buckets, req).Some? && ExactBest(cands, buckets, req).value.score.excess > 0.0
  {
    hide Visited, FoldBest, CoversAll, ScoreOf, FirstLow, NoBand;
    var near :| NearMiss(cands, req, near) && Hides(cands, req, near);
    var vs := Visited(buckets, req);
    forall i | 0 <= i < |vs| && FirstLow(cands, buckets, req, vs, i) ensures !Hit(cands, buckets, req, vs[i]) {
      FirstIsLow(cands, buckets, req, vs, i);
      var mix := Compose(buckets, vs[i]);
      FeasibleExcess(cands, req, mix);
      assert Hit(cands, buckets, req, vs[i]) ==> Feasible(cands, req, mix);
      FirstBelowAll(cands, buckets, req, i, near);
    }
    ExactBestFeasibleIff(cands, buckets, req);
    CapacityNeeded(cands, buckets, req, near);
    ExactBestPermitted(cands, buckets, req);
    FeasibleExcess(cands, req, ExactBest(cands, buckets, req).value.mix);
  }

  /** Without bands and ties, a condition on the library alone decides whether the search finds
      what is there. */
  lemma FoundIffHarmless(cands: seq<Cand>, buckets: Buckets, req: SelectRequest, mix: Mix)
    requires AreBuckets(cands, buckets) && CoversAll(cands, buckets) && NoBand(cands, req) && !Tied(cands, req)
    requires Feasible(cands, req, mix)
    ensures var best := ExactBest(cands, buckets, req);
      best.Some? && best.value.score.excess == 0.0 <==> Harmless(cands, req)
  {
    hide Visited, FoldBest, CoversAll, ScoreOf, FirstLow, NoBand;
    ExactBestFeasibleIff(cands, buckets, req);
    if Harmless(cands, req) {
      ExactBestIsOptimal(cands, buckets, req, mix);
    }
    if FeasibleFirst(cands, buckets, req) {
      var vs := Visited(buckets, req);
      var i :| 0 <= i < |vs| && FirstLow(cands, buckets, req, vs, i) && Hit(cands, buckets, req, vs[i]);
      FirstClears(cands, buckets, req, i);
    }
  }

  lemma FirstClears(cands: seq<Cand>, buckets: Buckets, req: SelectRequest, i: nat)
    requires AreBuckets(cands, buckets) && CoversAll(cands, buckets) && !Tied(cands, req)
    requires FirstLow(cands, buckets, req, Visited(buckets, req), i)
    requires Hit(cands, buckets, req, Visited(buckets, req)[i])
    ensures Clears(cands, req, Compose(buckets, Visited(buckets, req)[i]))
  {
    hide Visited, CoversAll, ScoreOf;
    var first := Compose(buckets, Visited(buckets, req)[i]);
    FeasibleExcess(cands, req, first);
    forall other | Feasible(cands, req, other) ensures NoWorse(ScoreOf(cands, req, first), ScoreOf(cands, req, other)) {
      FirstBelowAll(cands, buckets, req, i, other);
    }
    forall near | NearMiss(cands, req, near) ensures !NoWorse(ScoreOf(cands, req, near), ScoreOf(cands, req, first)) {
      FirstBelowAll(cands, buckets, req, i, near);
      assert !TiedWith(cands, req, near, first);
    }
  }

  /** Whatever the near misses, the kept mix is permitted and scored correctly. */
  lemma {:induction false} FoldKeepsPermitted(
      cands: seq<Cand>, buckets: Buckets, req: SelectRequest, best: Option<Best>, vs: seq<seq<nat>>)
    requires forall i :: 0 <= i < |vs| ==> Permitted(cands, buckets, req, vs[i])
    requires Kept(cands, req, best)
    ensures Kept(cands, req, FoldBest(cands, buckets, req, best, vs))
    ensures FoldBest(cands, buckets, req, best, vs).Some? <==> best.Some? || vs != []
    decreases |vs|
  {
    if vs != [] {
      FoldKeepsPermitted(cands, buckets, req, ConsiderVector(cands, buckets, req, best, vs[0]), vs[1..]);
    }
  }

  lemma ExactBestPermitted(cands: seq<Cand>, buckets: Buckets, req: SelectRequest)
    requires AreBuckets(cands, buckets)
    ensures ExactBest(cands, buckets, req).Some? <==> Total(CapsOf(buckets, req)) >= MinLen(req)
    ensures Kept(cands, req, ExactBest(cands, buckets, req))
  {
    var vs, caps := Visited(buckets, req), CapsOf(buckets, req);
    forall i | 0 <= i < |vs| ensures Permitted(cands, buckets, req, vs[i]) {
      assert vs[i] in vs;
      VisitedPermitted(cands, buckets, req, vs[i]);
    }
    FoldKeepsPermitted(cands, buckets, req, None, vs);
    if Total(caps) >= MinLen(req) {
      var v := Fill(caps, MinLen(req));
      AllCompositionsMembers(caps, MinLen(req), SearchMax(buckets, req), v);
      assert v in vs;
    }
  }

  /** A row-level mix of a permitted length needs that much capacity. */
  lemma CapacityNeeded(cands: seq<Cand>, buckets: Buckets, req: SelectRequest, mix: Mix)
    requires AreBuckets(cands, buckets) && CoversAll(cands, buckets) && WithinLimits(cands, req, mix)
    ensures Total(CapsOf(buckets, req)) >= MinLen(req)
  {
    var v := MixHasComposition(cands, buckets, req, mix);
    TotalBounded(CapsOf(buckets, req), v);
  }

  // ---------- a near miss that hides a feasible mix

  /** A near miss of the preferred length without repeats is never displaced again. */
  lemma {:induction false} NearMissSticks(
      cands: seq<Cand>, buckets: Buckets, req: SelectRequest, best: Best, vs: seq<seq<nat>>)
    requires best.score.excess <= TIE && best.score.countDev == 0 && best.score.extraCopies == 0
    ensures FoldBest(cands, buckets, req, Some(best), vs) == Some(best)
    decreases |vs|
  {
    if vs != [] {
      if AreBuckets(cands, buckets) && |vs[0]| == |buckets| {
        ComposeIsMix(cands, buckets, vs[0]);
        var mix := Compose(buckets, vs[0]);
        if mix != [] { FeasibleExcess(cands, req, mix); }
      }
      NearMissSticks(cands, buckets, req, best, vs[1..]);
    }
  }

  function ExampleRow(tokens: int): LibraryRow {
    LibraryRow(0, 0, 1, false, tokens, 1)
  }

  function ExampleRows(): seq<LibraryRow> { [ExampleRow(0), ExampleRow(8), ExampleRow(5)] }

  function ExampleCands(): seq<Cand> {
    [Cand(ExampleRow(0), 0.0, 1.0), Cand(ExampleRow(8), 8.0, 1.0), Cand(ExampleRow(5), 5.0, 1.0)]
  }

  /** One or two different rows with mean ISL within 1 of 4 - 5e-13. */
  function ExampleRequest(): SelectRequest {
    SelectRequest(1, 1, 3.9999999999995, Tokens, Mean, 1.0, 1.0, Tokens, Mean, 0.0, Any, 1, 100)
  }

  lemma ExampleCandsAreRows()
    ensures FilterCandidates(ExampleRows(), ExampleRequest()) == ExampleCands()
  {
    var rows, req := ExampleRows(), ExampleRequest();
    assert rows[1..] == [ExampleRow(8), ExampleRow(5)] && rows[1..][1..] == [ExampleRow(5)];
    assert rows[1..][1..][1..] == [];
    assert FilterCandidates([ExampleRow(5)], req) == [Cand(ExampleRow(5), 5.0, 1.0)];
    assert FilterCandidates([ExampleRow(8), ExampleRow(5)], req)
        == [Cand(ExampleRow(8), 8.0, 1.0), Cand(ExampleRow(5), 5.0, 1.0)];
  }

  lemma ExampleMean(mix: Mix)
    requires IsMix(ExampleCands(), mix) && 1 <= |mix| <= 2
    ensures OslAchieved(ExampleCands(), ExampleRequest(), mix) == Some(1.0)
    ensures IslAchieved(ExampleCands(), ExampleRequest(), mix)
         == Some(if |mix| == 1 then ExampleCands()[mix[0]].isl
                 else (ExampleCands()[mix[0]].isl + ExampleCands()[mix[1]].isl) / 2.0)
  {
    var cands := ExampleCands();
    var isl, osl := Map(First(), Lengths(cands, mix)), Map(Second(), Lengths(cands, mix));
    StatConstant(osl, 1.0, Mean);
    if |mix| == 1 {
      StatConstant(isl, cands[mix[0]].isl, Mean);
    } else {
      assert SumOf(isl[1..]) == isl[1] + SumOf(isl[1..][1..]);
      assert isl[1..][1..] == [];
    }
  }

  /** Nothing in the example falls in the band, no single row fits, and rows 0 and 1 together do. */
  lemma ExampleExcess(mix: Mix)
    requires WithinLimits(ExampleCands(), ExampleRequest(), mix)
    ensures var excess := ScoreOf(ExampleCands(), ExampleRequest(), mix).excess;
      && (excess <= TIE || excess > 2.0 * TIE)
      && (|mix| == 1 ==> excess > 0.0)
      && (mix == [2] ==> excess <= TIE)
      && (mix == [0, 1] ==> excess == 0.0)
  {
    ExampleMean(mix);
    if |mix| == 2 { PairRepeats(mix); }
  }

  lemma PairRepeats(mix: Mix)
    requires |mix| == 2
    ensures mix[0] == mix[1] ==> multiset(mix)[mix[0]] == 2
  {
    assert mix == [mix[0], mix[1]];
  }

  lemma ExampleWithin()
    ensures WithinLimits(ExampleCands(), ExampleRequest(), [2])
    ensures WithinLimits(ExampleCands(), ExampleRequest(), [0, 1])
  {
    var one: Mix, two: Mix := [2], [0, 1];
    assert multiset(one) == multiset{2} && multiset(two) == multiset{0, 1};
  }

  lemma ExampleHidden()
    ensures Feasible(ExampleCands(), ExampleRequest(), [0, 1])
    ensures NoBand(ExampleCands(), ExampleRequest()) && Hidden(ExampleCands(), ExampleRequest())
    ensures forall mix :: Feasible(ExampleCands(), ExampleRequest(), mix) ==> |mix| == 2
  {
    hide EvaluationOf, RepeatsWithin;
    var cands, req := ExampleCands(), ExampleRequest();
    ExampleWithin();
    ExampleExcess([0, 1]);
    FeasibleExcess(cands, req, [0, 1]);
    forall mix | WithinLimits(cands, req, mix)
      ensures ScoreOf(cands, req, mix).excess <= TIE || ScoreOf(cands, req, mix).excess > 2.0 * TIE
      ensures Feasible(cands, req, mix) ==> |mix| == 2
    {
      ExampleExcess(mix);
      FeasibleExcess(cands, req, mix);
    }
    ExampleExcess([2]);
    assert NearMiss(cands, req, [2]);
    LongerIsWorse(cands, req, [2]);
  }

  /** A mix of the preferred size without repeats beats every mix of another size. */
  lemma LongerIsWorse(cands: seq<Cand>, req: SelectRequest, near: Mix)
    requires WithinLimits(cands, req, near) && |near| == req.count
    requires forall mix :: Feasible(cands, req, mix) ==> |mix| != req.count
    ensures Hides(cands, req, near)
  {
  }

  /** The concrete failure, in whatever order the buckets are walked: rows of 0 and 8 tokens
      together meet the tolerance, yet the search ends on a mix that does not. */
  lemma NearMissHidesFeasibleMix(buckets: Buckets)
    requires AreBuckets(ExampleCands(), buckets) && CoversAll(ExampleCands(), buckets)
    ensures Feasible(ExampleCands(), ExampleRequest(), [0, 1])
    ensures ExactBest(ExampleCands(), buckets, ExampleRequest()).Some?
    ensures ExactBest(ExampleCands(), buckets, ExampleRequest()).value.score.excess > 0.0
  {
    ExampleHidden();
    HiddenFails(ExampleCands(), buckets, ExampleRequest());
  }

  // ---------- the example has six compositions

  lemma ExampleBucket(bucket: seq<nat>)
    requires IsBucket(ExampleCands(), bucket)
    ensures |bucket| == 1
  {
    var k := |bucket| - 1;
    assert LengthOf(ExampleCands(), bucket[k]) == LengthOf(ExampleCands(), bucket[0]);
    assert bucket[k] == bucket[0];
  }

  ghost predicate Among(b: int, x: nat, y: nat, z: nat) { b == x || b == y || b == z }

  lemma AtMostThree(n: nat, x: nat, y: nat, z: nat)
    requires forall b: nat :: b < n ==> Among(b, x, y, z)
    ensures n <= 3
  {
    assert n > 3 ==> Among(0, x, y, z) && Among(1, x, y, z) && Among(2, x, y, z) && Among(3, x, y, z);
  }

  lemma ExampleCaps(buckets: Buckets)
    requires AreBuckets(ExampleCands(), buckets) && CoversAll(ExampleCands(), buckets)
    ensures CapsOf(buckets, ExampleRequest()) == [1, 1, 1]
  {
    var cands := ExampleCands();
    var b0 := CoveringBucket(cands, buckets, 0);
    var b1 := CoveringBucket(cands, buckets, 1);
    var b2 := CoveringBucket(cands, buckets, 2);
    forall b: nat | b < |buckets| ensures |buckets[b]| == 1 && Among(b, b0, b1, b2) {
      ExampleBucket(buckets[b]);
      SameBucketIf(cands, buckets, b, b0);
      SameBucketIf(cands, buckets, b, b1);
      SameBucketIf(cands, buckets, b, b2);
    }
    AtMostThree(|buckets|, b0, b1, b2);
  }

  lemma SameBucketIf(cands: seq<Cand>, buckets: Buckets, b: nat, c: nat)
    requires AreBuckets(cands, buckets) && b < |buckets| && c < |buckets|
    ensures BucketLength(cands, buckets[b]) == BucketLength(cands, buckets[c]) ==> b == c
  {
  }

  lemma ExampleNumber(buckets: Buckets)
    requires AreBuckets(ExampleCands(), buckets) && CoversAll(ExampleCands(), buckets)
    ensures var req := ExampleRequest();
      WaysBetween(CapsOf(buckets, req), MinLen(req), SearchMax(buckets, req)) == 6
  {
    ExampleCaps(buckets);
    hide Ways, CapsOf;
    UnitTotal([]);
    UnitTotal([1]);
    UnitTotal([1, 1]);
    assert [1] + [] == [1] && [1] + [1] == [1, 1] && [1] + [1, 1] == [1, 1, 1];
    UnitWays();
    TwoTerms(WaysRow([1, 1, 1]), 1);
  }

  lemma UnitTotal(caps: seq<nat>)
    ensures Total([1] + caps) == 1 + Total(caps)
  {
    assert ([1] + caps)[1..] == caps;
  }

  lemma UnitWays()
    ensures Ways([1, 1, 1], 1) == 3 && Ways([1, 1, 1], 2) == 3
  {
    assert Ways([], -1) == 0 && Ways([], 0) == 1 && Ways([], 1) == 0 && Ways([], 2) == 0;
    assert Ways([1], -1) == 0;
    hide Ways;
    assert [1] + [] == [1] && [1] + [1] == [1, 1] && [1] + [1, 1] == [1, 1, 1];
    UnitBucket([], 0);
    UnitBucket([], 1);
    UnitBucket([], 2);
    UnitBucket([1], 0);
    UnitBucket([1], 1);
    UnitBucket([1], 2);
    UnitBucket([1, 1], 1);
    UnitBucket([1, 1], 2);
  }

  /** A bucket of one row is used or not. */
  lemma UnitBucket(caps: seq<nat>, n: nat)
    ensures Ways([1] + caps, n) == Ways(caps, n) + Ways(caps, n - 1)
  {
    assert ([1] + caps)[1..] == caps;
    TwoTerms(WaysLeaving(caps, n), 0);
  }

  lemma TwoTerms(f: int -> int, lo: int)
    ensures Sum(f, lo, lo + 2) == f(lo) + f(lo + 1)
  {
    assert Sum(f, lo + 1, lo + 2) == f(lo + 1) + Sum(f, lo + 2, lo + 2);
  }
}
