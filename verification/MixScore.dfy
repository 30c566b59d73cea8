/** Rows, requests and the score of a mix (src/prompt_library.rs:130-320).
    A mix is a sequence of candidate positions; repeats are allowed. Lengths are exact reals. */
module MixScore {
  import opened Numbers
  import opened Sequences

  datatype LengthUnit = Words | Tokens
  datatype LengthStat = Mean | Median
  datatype ReasoningFilter = Any | OnlyReasoning | OnlyPlain

  /** `words` is the word count of the rendered prompt. */
  datatype LibraryRow = LibraryRow(
    ordinal: nat, words: nat, targetOutputLength: int, reasoning: bool,
    targetInputTokens: int, targetOutputTokens: int)

  datatype SelectRequest = SelectRequest(
    count: nat, countSlack: nat,
    islTarget: real, islUnit: LengthUnit, islStat: LengthStat, islTolerance: real,
    oslTarget: real, oslUnit: LengthUnit, oslStat: LengthStat, oslTolerance: real,
    reasoning: ReasoningFilter, maxRepeats: nat, workLimit: nat)

  datatype Cand = Cand(row: LibraryRow, isl: real, osl: real)

  datatype Score = Score(excess: real, countDev: nat, extraCopies: nat)

  datatype Evaluation = Evaluation(score: Score, islAchieved: real, oslAchieved: real, islGap: real, oslGap: real)

  type Mix = seq<nat>

  function Isl(row: LibraryRow, unit: LengthUnit): real {
    match unit
    case Words => row.words as real
    case Tokens => row.targetInputTokens as real
  }

  function Osl(row: LibraryRow, unit: LengthUnit): real {
    match unit
    case Words => row.targetOutputLength as real
    case Tokens => row.targetOutputTokens as real
  }

  function Keeps(filter: ReasoningFilter, row: LibraryRow): bool {
    match filter
    case Any => true
    case OnlyReasoning => row.reasoning
    case OnlyPlain => !row.reasoning
  }

  function CandOf(row: LibraryRow, req: SelectRequest): Cand {
    Cand(row, Isl(row, req.islUnit), Osl(row, req.oslUnit))
  }

  function FilterCandidates(rows: seq<LibraryRow>, req: SelectRequest): (cands: seq<Cand>)
    ensures forall c :: c in cands ==> c.row in rows && Keeps(req.reasoning, c.row) && c == CandOf(c.row, req)
    ensures forall row :: row in rows && Keeps(req.reasoning, row) ==> CandOf(row, req) in cands
  {
    if rows == [] then []
    else (if Keeps(req.reasoning, rows[0]) then [CandOf(rows[0], req)] else []) + FilterCandidates(rows[1..], req)
  }

  /** `at` lists, in order, the positions of all rows that are kept. */
  ghost predicate Positions(rows: seq<LibraryRow>, req: SelectRequest, at: seq<nat>) {
    && (forall i :: 0 <= i < |at| ==> at[i] < |rows| && Keeps(req.reasoning, rows[at[i]]))
    && (forall i, j :: 0 <= i < j < |at| ==> at[i] < at[j])
    && (forall k :: 0 <= k < |rows| && Keeps(req.reasoning, rows[k]) ==> k in at)
  }

  function ChosenAt(rows: seq<LibraryRow>, req: SelectRequest, at: seq<nat>): seq<Cand>
    requires forall i :: 0 <= i < |at| ==> at[i] < |rows|
  {
    seq(|at|, i requires 0 <= i < |at| => CandOf(rows[at[i]], req))
  }

  lemma {:induction false} FilterSnoc(rows: seq<LibraryRow>, row: LibraryRow, req: SelectRequest)
    ensures FilterCandidates(rows + [row], req)
         == FilterCandidates(rows, req) + (if Keeps(req.reasoning, row) then [CandOf(row, req)] else [])
  {
    if rows == [] {
      assert rows + [row] == [row] && [row][1..] == [];
    } else {
      assert (rows + [row])[0] == rows[0] && (rows + [row])[1..] == rows[1..] + [row];
      FilterSnoc(rows[1..], row, req);
      hide CandOf, Keeps;
      var head := if Keeps(req.reasoning, rows[0]) then [CandOf(rows[0], req)] else [];
      var last := if Keeps(req.reasoning, row) then [CandOf(row, req)] else [];
      assert head + (FilterCandidates(rows[1..], req) + last) == head + FilterCandidates(rows[1..], req) + last;
    }
  }

  /** Candidates keep the order of the rows and appear once for each kept row, equal rows included. */
  lemma {:induction false} FilterKeepsOrder(rows: seq<LibraryRow>, req: SelectRequest) returns (at: seq<nat>)
    ensures Positions(rows, req, at) && FilterCandidates(rows, req) == ChosenAt(rows, req, at)
  {
    hide FilterCandidates, CandOf, Keeps;
    if rows == [] {
      at := [];
      NothingFiltered(req);
    } else {
      var front, row := rows[..|rows| - 1], rows[|rows| - 1];
      var before := FilterKeepsOrder(front, req);
      FilterSnoc(front, row, req);
      assert front + [row] == rows;
      at := before + (if Keeps(req.reasoning, row) then [|rows| - 1] else []);
      OnePosition(rows, req, before);
      assert ChosenAt(rows, req, before) == ChosenAt(front, req, before);
      assert ChosenAt(rows, req, before + [|rows| - 1]) == ChosenAt(rows, req, before) + [CandOf(row, req)];
    }
  }

  lemma NothingFiltered(req: SelectRequest)
    ensures FilterCandidates([], req) == []
  {
  }

  lemma OnePosition(rows: seq<LibraryRow>, req: SelectRequest, before: seq<nat>)
    requires rows != [] && Positions(rows[..|rows| - 1], req, before)
    ensures Positions(rows, req, before + (if Keeps(req.reasoning, rows[|rows| - 1]) then [|rows| - 1] else []))
  {
    hide Keeps;
    var n := |rows| - 1;
    var at := before + (if Keeps(req.reasoning, rows[n]) then [n] else []);
    assert forall i :: 0 <= i < |before| ==> at[i] == before[i] && rows[..n][before[i]] == rows[before[i]];
    forall k | 0 <= k < |rows| && Keeps(req.reasoning, rows[k]) ensures k in at {
      if k < n { assert rows[..n][k] == rows[k]; } else { assert at[|before|] == n; }
    }
  }

  // ---------- limits a mix has to respect

  function MinLen(req: SelectRequest): nat {
    if req.count > req.countSlack + 1 then req.count - req.countSlack else 1
  }

  function MaxLen(req: SelectRequest): nat {
    if req.count + req.countSlack >= MinLen(req) then req.count + req.countSlack else MinLen(req)
  }

  ghost predicate IsMix(cands: seq<Cand>, mix: Mix) {
    forall i :: 0 <= i < |mix| ==> mix[i] < |cands|
  }

  ghost predicate RepeatsWithin(mix: Mix, maxRepeats: nat) {
    forall x :: multiset(mix)[x] <= maxRepeats
  }

  /** Rows, length and repeats allowed by the request; nothing about tolerances yet. */
  ghost predicate WithinLimits(cands: seq<Cand>, req: SelectRequest, mix: Mix) {
    IsMix(cands, mix) && MinLen(req) <= |mix| <= MaxLen(req) && RepeatsWithin(mix, req.maxRepeats)
  }

  // ---------- statistics

  function SumOf(values: seq<real>): real {
    if values == [] then 0.0 else values[0] + SumOf(values[1..])
  }

  function MixMean(values: seq<real>): Option<real> {
    if values == [] then None else Some(SumOf(values) / |values| as real)
  }

  function MixMedian(values: seq<real>): Option<real> {
    if values == [] then None
    else
      SortBySorts(Identity(), values);
      PermutationLength(SortBy(Identity(), values), values);
      var sorted := SortBy(Identity(), values);
      var n := |sorted|;
      if n % 2 == 1 then Some(sorted[n / 2])
      else Some((sorted[n / 2 - 1] + sorted[n / 2]) / 2.0)
  }

  function ApplyStat(values: seq<real>, stat: LengthStat): (r: Option<real>)
    ensures r.None? <==> values == []
  {
    match stat
    case Mean => MixMean(values)
    case Median => MixMedian(values)
  }

  lemma {:induction false} SumPermutation(a: seq<real>, b: seq<real>)
    requires Permutation(a, b)
    ensures SumOf(a) == SumOf(b)
  {
    PermutationLength(a, b);
    if a != [] {
      var j := PermutationSplit(a, b);
      SumPermutation(a[1..], b[..j] + b[j + 1..]);
      SumAppend(b[..j], b[j + 1..]);
      SumAppend(b[..j], [b[j]] + b[j + 1..]);
      assert b == b[..j] + ([b[j]] + b[j + 1..]);
      assert ([b[j]] + b[j + 1..])[1..] == b[j + 1..];
    }
  }

  lemma {:induction false} SumAppend(a: seq<real>, b: seq<real>)
    ensures SumOf(a + b) == SumOf(a) + SumOf(b)
  {
    if a == [] {
      assert a + b == b;
    } else {
      assert (a + b)[1..] == a[1..] + b;
      SumAppend(a[1..], b);
    }
  }

  /** Mean and median do not depend on the order of the rows. */
  lemma StatPermutation(a: seq<real>, b: seq<real>, stat: LengthStat)
    requires Permutation(a, b)
    ensures ApplyStat(a, stat) == ApplyStat(b, stat)
  {
    hide SortBy, SumOf;
    PermutationLength(a, b);
    SumPermutation(a, b);
    SortedAlike(a, b);
  }

  lemma SortedAlike(a: seq<real>, b: seq<real>)
    requires Permutation(a, b)
    ensures SortBy(Identity(), a) == SortBy(Identity(), b)
  {
    hide SortBy;
    SortBySorts(Identity(), a);
    SortBySorts(Identity(), b);
    SortedUnique(Identity(), SortBy(Identity(), a), SortBy(Identity(), b));
  }

  /** A constant sample has that constant as mean and as median. */
  lemma StatConstant(values: seq<real>, c: real, stat: LengthStat)
    requires values != [] && forall i :: 0 <= i < |values| ==> values[i] == c
    ensures ApplyStat(values, stat) == Some(c)
  {
    match stat {
      case Mean => MeanConstant(values, c);
      case Median => MedianConstant(values, c);
    }
  }

  lemma MeanConstant(values: seq<real>, c: real)
    requires values != [] && forall i :: 0 <= i < |values| ==> values[i] == c
    ensures MixMean(values) == Some(c)
  {
    SumConstant(values, c);
    DivideBack(SumOf(values), c, |values| as real);
  }

  lemma MedianConstant(values: seq<real>, c: real)
    requires values != [] && forall i :: 0 <= i < |values| ==> values[i] == c
    ensures MixMedian(values) == Some(c)
  {
    var sorted := SortBy(Identity(), values);
    SortBySorts(Identity(), values);
    PermutationLength(sorted, values);
    forall i | 0 <= i < |sorted| ensures sorted[i] == c {
      assert sorted[i] in multiset(values);
    }
  }

  lemma DivideBack(x: real, c: real, n: real)
    requires n != 0.0 && x == c * n
    ensures x / n == c
  {
  }

  lemma {:induction false} SumConstant(values: seq<real>, c: real)
    requires forall i :: 0 <= i < |values| ==> values[i] == c
    ensures SumOf(values) == c * |values| as real
  {
    if values != [] {
      SumConstant(values[1..], c);
      assert |values| as real == |values[1..]| as real + 1.0;
    }
  }

  // ---------- score

  const TIE: real := 0.000000000001

  /** Excess first, values within `TIE` counting as equal; then count deviation, then repeats. */
  predicate BetterThan(a: Score, b: Score) {
    if Abs(a.excess - b.excess) > TIE then a.excess < b.excess
    else if a.countDev != b.countDev then a.countDev < b.countDev
    else a.extraCopies < b.extraCopies
  }

  function ExcessOf(islGap: real, oslGap: real, req: SelectRequest): real {
    MaxReal(Abs(islGap) - req.islTolerance, 0.0) + MaxReal(Abs(oslGap) - req.oslTolerance, 0.0)
  }

  predicate InTolerance(islGap: real, oslGap: real, req: SelectRequest) {
    Abs(islGap) <= req.islTolerance && Abs(oslGap) <= req.oslTolerance
  }

  lemma ExcessZero(islGap: real, oslGap: real, req: SelectRequest)
    ensures ExcessOf(islGap, oslGap, req) >= 0.0
    ensures ExcessOf(islGap, oslGap, req) == 0.0 <==> InTolerance(islGap, oslGap, req)
  {
  }

  function AbsDiff(a: nat, b: nat): nat {
    if a >= b then a - b else b - a
  }

  /** Copies beyond the first of each row. */
  ghost function ExtraCopies(mix: Mix): nat {
    DistinctAtMost(mix);
    |mix| - |Elements(mix)|
  }

  lemma {:induction false} DistinctAtMost(mix: Mix)
    ensures |Elements(mix)| <= |mix|
  {
    if mix != [] {
      DistinctAtMost(mix[1..]);
      assert Elements(mix) == Elements(mix[1..]) + {mix[0]};
    } else {
      assert Elements(mix) == {};
    }
  }

  /** The joint length of each pick; mean and median see nothing else of a mix. */
  function Lengths(cands: seq<Cand>, mix: Mix): seq<(real, real)>
    requires forall i :: 0 <= i < |mix| ==> mix[i] < |cands|
  {
    seq(|mix|, i requires 0 <= i < |mix| => (cands[mix[i]].isl, cands[mix[i]].osl))
  }

  function First(): ((real, real)) -> real { (p: (real, real)) => p.0 }
  function Second(): ((real, real)) -> real { (p: (real, real)) => p.1 }

  function IslAchieved(cands: seq<Cand>, req: SelectRequest, mix: Mix): Option<real>
    requires forall i :: 0 <= i < |mix| ==> mix[i] < |cands|
  {
    ApplyStat(Map(First(), Lengths(cands, mix)), req.islStat)
  }

  function OslAchieved(cands: seq<Cand>, req: SelectRequest, mix: Mix): Option<real>
    requires forall i :: 0 <= i < |mix| ==> mix[i] < |cands|
  {
    ApplyStat(Map(Second(), Lengths(cands, mix)), req.oslStat)
  }

  ghost function EvaluationOf(cands: seq<Cand>, req: SelectRequest, mix: Mix): Evaluation
    requires IsMix(cands, mix) && mix != []
  {
    var isl := IslAchieved(cands, req, mix).value;
    var osl := OslAchieved(cands, req, mix).value;
    var islGap, oslGap := isl - req.islTarget, osl - req.oslTarget;
    Evaluation(Score(ExcessOf(islGap, oslGap, req), AbsDiff(|mix|, req.count), ExtraCopies(mix)),
               isl, osl, islGap, oslGap)
  }

  ghost function ScoreOf(cands: seq<Cand>, req: SelectRequest, mix: Mix): Score
    requires IsMix(cands, mix) && mix != []
  {
    EvaluationOf(cands, req, mix).score
  }

  /** Both gaps within their tolerances. */
  ghost predicate MeetsTolerances(cands: seq<Cand>, req: SelectRequest, mix: Mix)
    requires IsMix(cands, mix) && mix != []
  {
    var e := EvaluationOf(cands, req, mix);
    InTolerance(e.islGap, e.oslGap, req)
  }

  ghost predicate Feasible(cands: seq<Cand>, req: SelectRequest, mix: Mix) {
    WithinLimits(cands, req, mix) && MeetsTolerances(cands, req, mix)
  }

  lemma FeasibleExcess(cands: seq<Cand>, req: SelectRequest, mix: Mix)
    requires IsMix(cands, mix) && mix != []
    ensures ScoreOf(cands, req, mix).excess >= 0.0
    ensures ScoreOf(cands, req, mix).excess == 0.0 <==> MeetsTolerances(cands, req, mix)
  {
    var e := EvaluationOf(cands, req, mix);
    ExcessZero(e.islGap, e.oslGap, req);
  }

  /** Mixes with the same joint lengths, in any order, achieve the same values and excess. */
  lemma SameLengthsSameExcess(cands: seq<Cand>, req: SelectRequest, a: Mix, b: Mix)
    requires IsMix(cands, a) && IsMix(cands, b) && a != [] && b != []
    requires Permutation(Lengths(cands, a), Lengths(cands, b))
    ensures IslAchieved(cands, req, a) == IslAchieved(cands, req, b)
    ensures OslAchieved(cands, req, a) == OslAchieved(cands, req, b)
    ensures ScoreOf(cands, req, a).excess == ScoreOf(cands, req, b).excess
    ensures |a| == |b|
  {
    PermutationLength(Lengths(cands, a), Lengths(cands, b));
    MapPermutation(First(), Lengths(cands, a), Lengths(cands, b));
    MapPermutation(Second(), Lengths(cands, a), Lengths(cands, b));
    StatPermutation(Map(First(), Lengths(cands, a)), Map(First(), Lengths(cands, b)), req.islStat);
    StatPermutation(Map(Second(), Lengths(cands, a)), Map(Second(), Lengths(cands, b)), req.oslStat);
  }

  // ---------- the histogram loops

  method CountExtraCopies(mix: Mix) returns (extra: nat)
    ensures extra == ExtraCopies(mix)
  {
    var hist: map<nat, nat> := map[];
    for k := 0 to |mix|
      invariant hist.Keys == Elements(mix[..k])
      invariant forall x :: x in hist ==> hist[x] == multiset(mix[..k])[x] > 0
    {
      assert mix[..k + 1] == mix[..k] + [mix[k]];
      hist := hist[mix[k] := (if mix[k] in hist then hist[mix[k]] else 0) + 1];
    }
    assert mix[..|mix|] == mix;
    extra := 0;
    var keys := hist.Keys;
    ghost var rest := multiset(mix);
    assert |rest| == |mix|;
    while keys != {}
      invariant keys <= hist.Keys == Elements(mix)
      invariant forall x :: x in keys ==> rest[x] == hist[x]
      invariant forall x :: x !in keys ==> rest[x] == 0
      invariant extra == (|mix| - |rest|) - (|Elements(mix)| - |keys|)
      decreases keys
    {
      var x :| x in keys;
      extra := extra + (if hist[x] >= 1 then hist[x] - 1 else 0);
      keys := keys - {x};
      rest := rest[x := 0];
    }
    assert rest == multiset{};
  }

  method MultiplicityOk(mix: Mix, maxRepeats: nat) returns (ok: bool)
    ensures ok <==> RepeatsWithin(mix, maxRepeats)
  {
    var hist: map<nat, nat> := map[];
    for k := 0 to |mix|
      invariant forall x :: (if x in hist then hist[x] else 0) == multiset(mix[..k])[x] <= maxRepeats
    {
      assert mix[..k + 1] == mix[..k] + [mix[k]];
      hist := hist[mix[k] := (if mix[k] in hist then hist[mix[k]] else 0) + 1];
      if hist[mix[k]] > maxRepeats {
        assert mix == mix[..k + 1] + mix[k + 1..];
        assert multiset(mix)[mix[k]] >= multiset(mix[..k + 1])[mix[k]];
        return false;
      }
    }
    assert mix[..|mix|] == mix;
    return true;
  }

  method Evaluate(mix: Mix, cands: seq<Cand>, req: SelectRequest) returns (r: Option<Evaluation>)
    requires IsMix(cands, mix)
    ensures mix == [] ==> r == None
    ensures mix != [] ==> r == Some(EvaluationOf(cands, req, mix))
  {
    if mix == [] {
      return None;
    }
    var isl := IslAchieved(cands, req, mix).value;
    var osl := OslAchieved(cands, req, mix).value;
    var islGap := isl - req.islTarget;
    var oslGap := osl - req.oslTarget;
    var extra := CountExtraCopies(mix);
    var score := Score(ExcessOf(islGap, oslGap, req), AbsDiff(|mix|, req.count), extra);
    return Some(Evaluation(score, isl, osl, islGap, oslGap));
  }
}
