/** What an answer of the solver means for the rows of the library, without candidates or scores:
    statistics by what characterizes them, mixes as positions in the library. */
module MixMeaning {
  import opened Numbers
  import opened Sequences
  import opened MixScore
  import opened MixOptimality

  // ---------- mean and median (src/prompt_library.rs:242-269)

  /** How far the values lie above `m`, summed up. */
  function Surplus(values: seq<real>, m: real): real {
    if values == [] then 0.0 else values[0] - m + Surplus(values[1..], m)
  }

  ghost predicate Ascending(s: seq<real>) { forall i, j :: 0 <= i <= j < |s| ==> s[i] <= s[j] }

  /** The mean of the two central values of the sorted sample, which coincide for odd sizes. */
  ghost predicate IsMedian(values: seq<real>, m: real) {
    exists s :: Permutation(s, values) && s != [] && Ascending(s) && m == (s[(|s| - 1) / 2] + s[|s| / 2]) / 2.0
  }

  ghost predicate IsCenter(values: seq<real>, stat: LengthStat, v: real) {
    match stat
    case Mean => values != [] && Surplus(values, v) == 0.0
    case Median => IsMedian(values, v)
  }

  lemma {:induction false} SurplusIs(values: seq<real>, m: real)
    ensures Surplus(values, m) == SumOf(values) - m * |values| as real
  {
    if values != [] {
      SurplusIs(values[1..], m);
      assert |values| as real == 1.0 + |values[1..]| as real;
    }
  }

  /** The mean is the one value with no surplus. */
  lemma MeanIff(values: seq<real>, m: real)
    ensures ApplyStat(values, Mean) == Some(m) <==> IsCenter(values, Mean, m)
  {
    SurplusIs(values, m);
    if values != [] {
      var n := |values| as real;
      assert n > 0.0;
      if SumOf(values) - m * n == 0.0 { DivideBack(SumOf(values), m, n); }
      Undivide(SumOf(values), n);
    }
  }

  lemma Undivide(x: real, n: real)
    requires n != 0.0
    ensures x / n * n == x
  {
  }

  lemma AscendingIsSorted(s: seq<real>)
    ensures Ascending(s) <==> SortedBy(Identity(), s)
  {
    if SortedBy(Identity(), s) {
      forall i, j | 0 <= i <= j < |s| ensures s[i] <= s[j] {
        assert i < j ==> Identity()(s[i]) <= Identity()(s[j]);
      }
    }
  }

  lemma MiddleOfOdd(n: nat)
    ensures n % 2 == 1 ==> (n - 1) / 2 == n / 2
    ensures n > 0 && n % 2 == 0 ==> (n - 1) / 2 == n / 2 - 1
  {
  }

  lemma MedianOfSorted(values: seq<real>, s: seq<real>)
    requires values != [] && Permutation(s, values) && SortedBy(Identity(), s)
    ensures s != [] && ApplyStat(values, Median) == Some((s[(|s| - 1) / 2] + s[|s| / 2]) / 2.0)
  {
    hide SortBy, SortedBy;
    var sorted := SortBy(Identity(), values);
    SortBySorts(Identity(), values);
    PermutationLength(s, values);
    SortedUnique(Identity(), s, sorted);
    MiddleOfOdd(|s|);
  }

  lemma MedianIff(values: seq<real>, m: real)
    ensures ApplyStat(values, Median) == Some(m) <==> IsMedian(values, m)
  {
    hide MixMedian, SortBy, SortedBy, Ascending;
    if values != [] {
      var sorted := SortBy(Identity(), values);
      SortBySorts(Identity(), values);
      AscendingIsSorted(sorted);
      MedianOfSorted(values, sorted);
    }
    forall s | Permutation(s, values) && s != [] && Ascending(s)
      ensures ApplyStat(values, Median) == Some((s[(|s| - 1) / 2] + s[|s| / 2]) / 2.0)
    {
      PermutationLength(s, values);
      AscendingIsSorted(s);
      MedianOfSorted(values, s);
    }
  }

  lemma CenterIff(values: seq<real>, stat: LengthStat, v: real)
    ensures ApplyStat(values, stat) == Some(v) <==> IsCenter(values, stat, v)
  {
    hide MixMean, MixMedian, IsMedian;
    match stat
    case Mean => MeanIff(values, v);
    case Median => MedianIff(values, v);
  }

  // ---------- at least half lie on either side

  function Number(values: seq<real>, p: real -> bool): nat {
    if values == [] then 0 else (if p(values[0]) then 1 else 0) + Number(values[1..], p)
  }

  lemma {:induction false} NumberAppend(a: seq<real>, b: seq<real>, p: real -> bool)
    ensures Number(a + b, p) == Number(a, p) + Number(b, p)
  {
    if a == [] {
      assert a + b == b;
    } else {
      assert (a + b)[1..] == a[1..] + b;
      NumberAppend(a[1..], b, p);
    }
  }

  lemma {:induction false} NumberPermutation(a: seq<real>, b: seq<real>, p: real -> bool)
    requires Permutation(a, b)
    ensures Number(a, p) == Number(b, p)
  {
    PermutationLength(a, b);
    if a != [] {
      var j := PermutationSplit(a, b);
      NumberPermutation(a[1..], b[..j] + b[j + 1..], p);
      NumberAppend(b[..j], b[j + 1..], p);
      NumberAppend(b[..j], [b[j]] + b[j + 1..], p);
      assert b == b[..j] + ([b[j]] + b[j + 1..]);
      assert ([b[j]] + b[j + 1..])[1..] == b[j + 1..];
    }
  }

  lemma {:induction false} NumberAll(values: seq<real>, p: real -> bool)
    requires forall i :: 0 <= i < |values| ==> p(values[i])
    ensures Number(values, p) == |values|
  {
    if values != [] { NumberAll(values[1..], p); }
  }

  lemma AtMostMiddle(s: seq<real>, m: real)
    requires s != [] && Ascending(s) && m >= s[(|s| - 1) / 2]
    ensures 2 * Number(s, x => x <= m) >= |s|
  {
    var k, below := (|s| - 1) / 2 + 1, (x: real) => x <= m;
    assert s == s[..k] + s[k..];
    NumberAppend(s[..k], s[k..], below);
    forall i | 0 <= i < k ensures below(s[..k][i]) { assert s[i] <= s[k - 1]; }
    NumberAll(s[..k], below);
  }

  lemma AtLeastMiddle(s: seq<real>, m: real)
    requires s != [] && Ascending(s) && m <= s[|s| / 2]
    ensures 2 * Number(s, x => x >= m) >= |s|
  {
    var k, above := |s| / 2, (x: real) => x >= m;
    assert s == s[..k] + s[k..];
    NumberAppend(s[..k], s[k..], above);
    forall i | 0 <= i < |s[k..]| ensures above(s[k..][i]) { assert s[k] <= s[k + i]; }
    NumberAll(s[k..], above);
  }

  /** At least half of the values are at most the median, and at least half are at least it. */
  lemma MedianHalves(values: seq<real>, m: real)
    requires IsMedian(values, m)
    ensures 2 * Number(values, x => x <= m) >= |values| && 2 * Number(values, x => x >= m) >= |values|
  {
    hide Number;
    var s :| Permutation(s, values) && s != [] && Ascending(s) && m == (s[(|s| - 1) / 2] + s[|s| / 2]) / 2.0;
    PermutationLength(s, values);
    assert s[(|s| - 1) / 2] <= s[|s| / 2];
    AtMostMiddle(s, m);
    AtLeastMiddle(s, m);
    NumberPermutation(s, values, x => x <= m);
    NumberPermutation(s, values, x => x >= m);
  }

  // ---------- mixes as positions in the library

  type Library = seq<LibraryRow>

  /** Kept rows, an allowed size, and no row too often. */
  ghost predicate Eligible(rows: Library, req: SelectRequest, ps: seq<nat>) {
    && (forall i :: 0 <= i < |ps| ==> ps[i] < |rows|)
    && (forall i :: 0 <= i < |ps| && ps[i] < |rows| ==>
          (req.reasoning.OnlyReasoning? ==> rows[ps[i]].reasoning)
          && (req.reasoning.OnlyPlain? ==> !rows[ps[i]].reasoning))
    && 1 <= |ps| && req.count <= |ps| + req.countSlack && |ps| <= Max(1, req.count + req.countSlack)
    && RepeatsWithin(ps, req.maxRepeats)
  }

  function IslsAt(rows: Library, req: SelectRequest, ps: seq<nat>): seq<real>
    requires forall i :: 0 <= i < |ps| ==> ps[i] < |rows|
  {
    seq(|ps|, i requires 0 <= i < |ps| =>
      if req.islUnit.Words? then rows[ps[i]].words as real else rows[ps[i]].targetInputTokens as real)
  }

  function OslsAt(rows: Library, req: SelectRequest, ps: seq<nat>): seq<real>
    requires forall i :: 0 <= i < |ps| ==> ps[i] < |rows|
  {
    seq(|ps|, i requires 0 <= i < |ps| =>
      (if req.oslUnit.Words? then rows[ps[i]].targetOutputLength else rows[ps[i]].targetOutputTokens) as real)
  }

  function RowsAt(rows: Library, ps: seq<nat>): Library
    requires forall i :: 0 <= i < |ps| ==> ps[i] < |rows|
  {
    seq(|ps|, i requires 0 <= i < |ps| => rows[ps[i]])
  }

  /** An eligible mix with these centers, both within their tolerances. */
  ghost predicate Hits(rows: Library, req: SelectRequest, ps: seq<nat>, isl: real, osl: real) {
    && Centers(rows, req, ps, isl, osl)
    && req.islTarget - req.islTolerance <= isl <= req.islTarget + req.islTolerance
    && req.oslTarget - req.oslTolerance <= osl <= req.oslTarget + req.oslTolerance
  }

  ghost function Repeats(ps: seq<nat>): int { |ps| - |Elements(ps)| }

  /** Nearer the wanted size, or as near with no more repeats. */
  ghost predicate NoFarther(req: SelectRequest, ps: seq<nat>, qs: seq<nat>) {
    var d, e := Max(|ps| - req.count, req.count - |ps|), Max(|qs| - req.count, req.count - |qs|);
    d < e || (d == e && Repeats(ps) <= Repeats(qs))
  }

  /** No mix that hits is better. */
  ghost predicate Least(rows: Library, req: SelectRequest, ps: seq<nat>) {
    forall qs, isl, osl :: Hits(rows, req, qs, isl, osl) ==> NoFarther(req, ps, qs)
  }

  // ---------- candidates and library rows

  /** The library positions behind a mix of candidates. */
  function Through(at: seq<nat>, mix: Mix): seq<nat>
    requires forall i :: 0 <= i < |mix| ==> mix[i] < |at|
  {
    seq(|mix|, i requires 0 <= i < |mix| => at[mix[i]])
  }

  ghost predicate Injective(at: seq<nat>) { forall i, j :: 0 <= i < j < |at| ==> at[i] != at[j] }

  lemma {:induction false} ThroughCounts(at: seq<nat>, mix: Mix, x: nat)
    requires Injective(at) && x < |at| && forall i :: 0 <= i < |mix| ==> mix[i] < |at|
    ensures multiset(Through(at, mix))[at[x]] == multiset(mix)[x]
  {
    if mix != [] {
      ThroughCounts(at, mix[1..], x);
      assert mix == [mix[0]] + mix[1..];
      assert Through(at, mix) == [at[mix[0]]] + Through(at, mix[1..]);
      assert at[mix[0]] == at[x] <==> mix[0] == x;
    } else {
      assert Through(at, mix) == [];
    }
  }

  lemma ThroughRepeats(at: seq<nat>, mix: Mix, most: nat)
    requires Injective(at) && forall i :: 0 <= i < |mix| ==> mix[i] < |at|
    ensures RepeatsWithin(mix, most) <==> RepeatsWithin(Through(at, mix), most)
  {
    var ps := Through(at, mix);
    if RepeatsWithin(mix, most) {
      forall y ensures multiset(ps)[y] <= most {
        if y in multiset(ps) {
          var i :| 0 <= i < |ps| && ps[i] == y;
          ThroughCounts(at, mix, mix[i]);
        }
      }
    }
    if RepeatsWithin(ps, most) {
      forall x ensures multiset(mix)[x] <= most {
        if x in multiset(mix) {
          var i :| 0 <= i < |mix| && mix[i] == x;
          ThroughCounts(at, mix, x);
        }
      }
    }
  }

  lemma {:induction false} ThroughElements(at: seq<nat>, mix: Mix)
    requires Injective(at) && forall i :: 0 <= i < |mix| ==> mix[i] < |at|
    ensures |Elements(Through(at, mix))| == |Elements(mix)|
  {
    if mix == [] {
      assert Through(at, mix) == [] && Elements(mix) == {} && Elements<nat>([]) == {};
    } else {
      var rest := mix[1..];
      ThroughElements(at, rest);
      assert mix == [mix[0]] + rest;
      assert Through(at, mix) == [at[mix[0]]] + Through(at, rest);
      ElementsCons(mix[0], rest);
      ElementsCons(at[mix[0]], Through(at, rest));
      ThroughMember(at, rest, mix[0]);
    }
  }

  lemma ElementsCons(x: nat, s: seq<nat>)
    ensures Elements([x] + s) == {x} + Elements(s)
    ensures |Elements([x] + s)| == |Elements(s)| + if x in s then 0 else 1
  {
    assert forall y :: y in [x] + s <==> y == x || y in s;
    assert x in s ==> {x} + Elements(s) == Elements(s);
  }

  lemma ThroughMember(at: seq<nat>, mix: Mix, x: nat)
    requires Injective(at) && x < |at| && forall i :: 0 <= i < |mix| ==> mix[i] < |at|
    ensures x in mix <==> at[x] in Through(at, mix)
  {
    var ps := Through(at, mix);
    if x in mix {
      var i :| 0 <= i < |mix| && mix[i] == x;
      assert ps[i] == at[x];
    }
    if at[x] in ps {
      var i :| 0 <= i < |ps| && ps[i] == at[x];
      assert mix[i] == x;
    }
  }

  /** Candidates `cands` are the rows at positions `at`. */
  ghost predicate Placed(rows: Library, req: SelectRequest, cands: seq<Cand>, at: seq<nat>) {
    && Positions(rows, req, at) && |cands| == |at|
    && forall i :: 0 <= i < |at| ==> at[i] < |rows| && cands[i] == CandOf(rows[at[i]], req)
  }

  lemma CandidatesPlaced(rows: Library, req: SelectRequest) returns (at: seq<nat>)
    ensures Placed(rows, req, FilterCandidates(rows, req), at)
  {
    hide FilterCandidates;
    at := FilterKeepsOrder(rows, req);
  }

  lemma PlacedGives(rows: Library, req: SelectRequest, cands: seq<Cand>, at: seq<nat>)
    requires Placed(rows, req, cands, at)
    ensures Injective(at)
  {
  }

  lemma ThroughLengths(rows: Library, req: SelectRequest, cands: seq<Cand>, at: seq<nat>, mix: Mix)
    requires Placed(rows, req, cands, at) && IsMix(cands, mix)
    ensures forall i :: 0 <= i < |mix| ==> Through(at, mix)[i] < |rows|
    ensures Map(First(), Lengths(cands, mix)) == IslsAt(rows, req, Through(at, mix))
    ensures Map(Second(), Lengths(cands, mix)) == OslsAt(rows, req, Through(at, mix))
  {
  }

  /** An eligible mix with these centers, within tolerance or not. */
  ghost predicate Centers(rows: Library, req: SelectRequest, ps: seq<nat>, isl: real, osl: real) {
    && Eligible(rows, req, ps)
    && IsCenter(IslsAt(rows, req, ps), req.islStat, isl) && IsCenter(OslsAt(rows, req, ps), req.oslStat, osl)
  }

  lemma LimitsCenters(rows: Library, req: SelectRequest, cands: seq<Cand>, at: seq<nat>, mix: Mix)
    requires Placed(rows, req, cands, at) && WithinLimits(cands, req, mix)
    ensures var e := EvaluationOf(cands, req, mix);
      Centers(rows, req, Through(at, mix), e.islAchieved, e.oslAchieved)
  {
    hide IsCenter, RepeatsWithin, ApplyStat;
    var e, ps := EvaluationOf(cands, req, mix), Through(at, mix);
    PlacedGives(rows, req, cands, at);
    ThroughLengths(rows, req, cands, at, mix);
    ThroughRepeats(at, mix, req.maxRepeats);
    CenterIff(IslsAt(rows, req, ps), req.islStat, e.islAchieved);
    CenterIff(OslsAt(rows, req, ps), req.oslStat, e.oslAchieved);
  }

  /** A mix of candidates is feasible exactly when its library positions hit, with its own
      achieved values. */
  lemma FeasibleHits(rows: Library, req: SelectRequest, cands: seq<Cand>, at: seq<nat>, mix: Mix)
    requires Placed(rows, req, cands, at) && Feasible(cands, req, mix)
    ensures var e := EvaluationOf(cands, req, mix);
      Hits(rows, req, Through(at, mix), e.islAchieved, e.oslAchieved)
  {
    hide IsCenter, RepeatsWithin, ApplyStat, Eligible;
    LimitsCenters(rows, req, cands, at, mix);
  }

  lemma HitsFeasible(
      rows: Library, req: SelectRequest, cands: seq<Cand>, at: seq<nat>, ps: seq<nat>, isl: real, osl: real)
    returns (mix: Mix)
    requires Placed(rows, req, cands, at) && Hits(rows, req, ps, isl, osl)
    ensures Feasible(cands, req, mix) && Through(at, mix) == ps
  {
    hide IsCenter, RepeatsWithin, ApplyStat;
    mix := Back(rows, req, cands, at, ps);
    PlacedGives(rows, req, cands, at);
    ThroughLengths(rows, req, cands, at, mix);
    ThroughRepeats(at, mix, req.maxRepeats);
    CenterIff(IslsAt(rows, req, ps), req.islStat, isl);
    CenterIff(OslsAt(rows, req, ps), req.oslStat, osl);
  }

  /** Every eligible choice of rows is a mix of candidates. */
  lemma Back(rows: Library, req: SelectRequest, cands: seq<Cand>, at: seq<nat>, ps: seq<nat>) returns (mix: Mix)
    requires Placed(rows, req, cands, at)
    requires forall i :: 0 <= i < |ps| ==> ps[i] < |rows| && Keeps(req.reasoning, rows[ps[i]])
    ensures IsMix(cands, mix) && Through(at, mix) == ps
  {
    hide Keeps;
    mix := [];
    for k := 0 to |ps|
      invariant |mix| == k && forall i :: 0 <= i < k ==> mix[i] < |at| && at[mix[i]] == ps[i]
    {
      var x: nat :| x < |at| && at[x] == ps[k];
      mix := mix + [x];
    }
  }

  /** The order of scores is the order of sizes and repeats. */
  lemma ScoresCompare(
      rows: Library, req: SelectRequest, cands: seq<Cand>, at: seq<nat>, a: Mix, b: Mix)
    requires Placed(rows, req, cands, at) && Feasible(cands, req, a) && Feasible(cands, req, b)
    ensures NoWorse(ScoreOf(cands, req, a), ScoreOf(cands, req, b))
      <==> NoFarther(req, Through(at, a), Through(at, b))
  {
    hide RepeatsWithin, MeetsTolerances;
    PlacedGives(rows, req, cands, at);
    ThroughElements(at, a);
    ThroughElements(at, b);
  }

  /** A least feasible mix of candidates is least among all choices of rows. */
  lemma LeastMix(rows: Library, req: SelectRequest, cands: seq<Cand>, at: seq<nat>, mix: Mix)
    requires Placed(rows, req, cands, at) && Feasible(cands, req, mix)
    requires forall other :: Feasible(cands, req, other) ==>
      NoWorse(ScoreOf(cands, req, mix), ScoreOf(cands, req, other))
    ensures Least(rows, req, Through(at, mix))
  {
    hide Hits, ScoreOf, NoWorse, NoFarther;
    forall qs, isl, osl | Hits(rows, req, qs, isl, osl) ensures NoFarther(req, Through(at, mix), qs) {
      var other := HitsFeasible(rows, req, cands, at, qs, isl, osl);
      ScoresCompare(rows, req, cands, at, mix, other);
    }
  }
}
