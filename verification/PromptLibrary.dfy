/** Mix selection (src/prompt_library.rs:336-858). Random draws are arbitrary choices, so
    every statement holds for every seed. */
module PromptLibrary {
  import opened Numbers
  import opened Sums
  import opened Modulo
  import opened Sequences
  import opened CompositionCount
  import opened MixScore
  import opened MixBuckets
  import opened MixSearch
  import opened MixOptimality
  import opened MixMeaning

  datatype SelectedMix = SelectedMix(
    rows: seq<LibraryRow>, islAchieved: real, oslAchieved: real, islGap: real, oslGap: real,
    extraCopies: nat, workUsed: nat)

  datatype FailureReason =
    | CountZero | MaxRepeatsZero | NoRowsAfterFilter | NothingWithinLimits | NothingWithinTolerances

  datatype SelectFailure = SelectFailure(
    message: FailureReason, best: Option<Evaluation>, selectedCount: nat, candidateCount: nat,
    workUsed: nat, provenEmpty: bool, bestRows: seq<LibraryRow>)

  datatype SelectResult = Ok(mix: SelectedMix) | Err(failure: SelectFailure)

  /** Which part of the solver produced the answer. */
  datatype Path = Rejected | Homogeneous | Exact | Local

  function RowsOf(cands: seq<Cand>, mix: Mix): seq<LibraryRow>
    requires forall i :: 0 <= i < |mix| ==> mix[i] < |cands|
  {
    seq(|mix|, i requires 0 <= i < |mix| => cands[mix[i]].row)
  }

  /** `s` reports the mix truthfully: its rows, achieved values, gaps and real repeats. */
  ghost predicate Reports(cands: seq<Cand>, req: SelectRequest, s: SelectedMix, mix: Mix) {
    && WithinLimits(cands, req, mix)
    && s.rows == RowsOf(cands, mix)
    && var e := EvaluationOf(cands, req, mix);
       s.islAchieved == e.islAchieved && s.oslAchieved == e.oslAchieved
       && s.islGap == e.islGap && s.oslGap == e.oslGap && s.extraCopies == ExtraCopies(mix)
  }

  // ---------- random order

  /** Fisher-Yates with arbitrary draws. */
  method Shuffle<T>(s: seq<T>) returns (r: seq<T>)
    ensures Permutation(s, r) && |r| == |s|
  {
    r := s;
    if s == [] { return; }
    for i := |s| - 1 downto 0
      invariant |r| == |s| && Permutation(s, r)
    {
      if i >= 1 {
        var j :| 0 <= j <= i;
        r := r[i := r[j]][j := r[i]];
      }
    }
  }

  method FindBucket(cands: seq<Cand>, buckets: Buckets, key: (real, real)) returns (at: nat)
    requires AreBuckets(cands, buckets)
    ensures at <= |buckets|
    ensures at < |buckets| ==> BucketLength(cands, buckets[at]) == key
    ensures at == |buckets| ==> forall b :: 0 <= b < |buckets| ==> BucketLength(cands, buckets[b]) != key
  {
    at := 0;
    while at < |buckets|
      invariant at <= |buckets|
      invariant forall b :: 0 <= b < at ==> BucketLength(cands, buckets[b]) != key
    {
      if BucketLength(cands, buckets[at]) == key {
        return;
      }
      at := at + 1;
    }
  }

  ghost predicate Grouped(cands: seq<Cand>, buckets: Buckets, k: nat) {
    && AreBuckets(cands, buckets)
    && (forall b, x :: 0 <= b < |buckets| && x in buckets[b] ==> x < k)
    && (forall x: nat :: x < k ==> Covers(buckets, x))
  }

  lemma ExtendBucket(cands: seq<Cand>, bucket: seq<nat>, k: nat)
    requires IsBucket(cands, bucket) && k < |cands| && LengthOf(cands, k) == BucketLength(cands, bucket)
    requires forall x :: x in bucket ==> x < k
    ensures IsBucket(cands, bucket + [k]) && BucketLength(cands, bucket + [k]) == BucketLength(cands, bucket)
  {
    forall i | 0 <= i < |bucket| ensures bucket[i] != k {
      assert bucket[i] in bucket;
    }
  }

  lemma GroupedAppend(cands: seq<Cand>, buckets: Buckets, k: nat, at: nat)
    requires Grouped(cands, buckets, k) && k < |cands| && at < |buckets|
    requires BucketLength(cands, buckets[at]) == LengthOf(cands, k)
    ensures Grouped(cands, buckets[at := buckets[at] + [k]], k + 1)
  {
    var more := buckets[at := buckets[at] + [k]];
    ExtendBucket(cands, buckets[at], k);
    forall b | 0 <= b < |more|
      ensures IsBucket(cands, more[b]) && BucketLength(cands, more[b]) == BucketLength(cands, buckets[b])
    {
    }
    forall x: nat | x < k + 1 ensures Covers(more, x) {
      if x == k {
        assert x in more[at];
      } else {
        assert Covers(buckets, x);
        var b :| 0 <= b < |buckets| && x in buckets[b];
        assert x in more[b];
      }
    }
  }

  lemma GroupedNew(cands: seq<Cand>, buckets: Buckets, k: nat)
    requires Grouped(cands, buckets, k) && k < |cands|
    requires forall b :: 0 <= b < |buckets| ==> BucketLength(cands, buckets[b]) != LengthOf(cands, k)
    ensures Grouped(cands, buckets + [[k]], k + 1)
  {
    var more := buckets + [[k]];
    forall x: nat | x < k + 1 ensures Covers(more, x) {
      if x == k {
        assert x in more[|buckets|];
      } else {
        assert Covers(buckets, x);
        var b :| 0 <= b < |buckets| && x in buckets[b];
        assert x in more[b];
      }
    }
  }

  lemma ReorderBuckets(cands: seq<Cand>, buckets: Buckets, other: Buckets)
    requires AreBuckets(cands, buckets) && CoversAll(cands, buckets) && Permutation(buckets, other)
    ensures AreBuckets(cands, other) && CoversAll(cands, other)
  {
    assert Distinct(buckets) by {
      assert forall b, c :: 0 <= b < c < |buckets| ==>
        BucketLength(cands, buckets[b]) != BucketLength(cands, buckets[c]);
    }
    DistinctPermutation(buckets, other);
    forall b | 0 <= b < |other| ensures other[b] in buckets {
      assert other[b] in multiset(buckets);
    }
    forall b, c | 0 <= b < c < |other| ensures BucketLength(cands, other[b]) != BucketLength(cands, other[c]) {
      var i :| 0 <= i < |buckets| && buckets[i] == other[b];
      var j :| 0 <= j < |buckets| && buckets[j] == other[c];
      assert i != j;
      assert i < j ==> BucketLength(cands, buckets[i]) != BucketLength(cands, buckets[j]);
      assert j < i ==> BucketLength(cands, buckets[j]) != BucketLength(cands, buckets[i]);
    }
    forall x: nat | x < |cands| ensures Covers(other, x) {
      assert Covers(buckets, x);
      var b :| 0 <= b < |buckets| && x in buckets[b];
      assert buckets[b] in multiset(other);
      var c :| 0 <= c < |other| && other[c] == buckets[b];
    }
  }

  lemma ReorderBucket(cands: seq<Cand>, buckets: Buckets, b: nat, bucket: seq<nat>)
    requires AreBuckets(cands, buckets) && CoversAll(cands, buckets) && b < |buckets|
    requires Permutation(buckets[b], bucket)
    ensures AreBuckets(cands, buckets[b := bucket]) && CoversAll(cands, buckets[b := bucket])
  {
    var other := buckets[b := bucket];
    PermutationLength(buckets[b], bucket);
    DistinctPermutation(buckets[b], bucket);
    forall i | 0 <= i < |bucket|
      ensures bucket[i] < |cands| && LengthOf(cands, bucket[i]) == BucketLength(cands, buckets[b])
    {
      assert bucket[i] in multiset(buckets[b]);
      MemberLength(cands, buckets[b], bucket[i]);
    }
    forall x: nat | x < |cands| ensures Covers(other, x) {
      assert Covers(buckets, x);
      var c :| 0 <= c < |buckets| && x in buckets[c];
      if c == b { assert x in multiset(bucket); }
      assert x in other[c];
    }
  }

  /** Joint-length buckets in some order, each with its rows in random order. The program walks
      them in key order; nothing below depends on which order that is. */
  method GroupByLengths(cands: seq<Cand>) returns (buckets: Buckets)
    ensures AreBuckets(cands, buckets) && CoversAll(cands, buckets)
  {
    buckets := [];
    for k := 0 to |cands|
      invariant Grouped(cands, buckets, k)
    {
      var at := FindBucket(cands, buckets, LengthOf(cands, k));
      if at < |buckets| {
        GroupedAppend(cands, buckets, k, at);
        buckets := buckets[at := buckets[at] + [k]];
      } else {
        GroupedNew(cands, buckets, k);
        buckets := buckets + [[k]];
      }
    }
    var order := Shuffle(buckets);
    ReorderBuckets(cands, buckets, order);
    buckets := order;
    for b := 0 to |buckets|
      invariant AreBuckets(cands, buckets) && CoversAll(cands, buckets) && |buckets| == |order|
    {
      var bucket := Shuffle(buckets[b]);
      ReorderBucket(cands, buckets, b, bucket);
      buckets := buckets[b := bucket];
    }
  }

  // ---------- composition search

  /** One balanced pair of buckets. */
  method TryPair(cands: seq<Cand>, buckets: Buckets, req: SelectRequest, a: nat, b: nat, half: nat, rest: nat,
                 best: Option<Best>)
    returns (kept: Option<Best>)
    requires AreBuckets(cands, buckets) && a < b < |buckets| && Kept(cands, req, best)
    requires half <= CapsOf(buckets, req)[a] && rest <= CapsOf(buckets, req)[b]
    requires MinLen(req) <= half + rest <= MaxLen(req)
    ensures Kept(cands, req, kept) && kept.Some?
  {
    var counts := seq(|buckets|, i => 0)[a := half][b := rest];
    PairTotal(|buckets|, a, b, half, rest);
    CompositionWithinLimits(cands, buckets, req, half + rest, counts);
    var mix := BuildMix(buckets, counts);
    kept := ConsiderComposition(best, mix, cands, req);
  }

  lemma PairTotal(k: nat, a: nat, b: nat, x: nat, y: nat)
    requires a < b < k
    ensures Total(seq(k, i => 0)[a := x][b := y]) == x + y
  {
    var zeros: seq<nat> := seq(k, i => 0);
    var v := zeros[a := x][b := y];
    assert v == zeros[..a] + ([x] + (zeros[a + 1..b] + ([y] + zeros[b + 1..])));
    TotalZero(zeros[..a]);
    TotalZero(zeros[a + 1..b]);
    TotalZero(zeros[b + 1..]);
    TotalAppend(zeros[..a], [x] + (zeros[a + 1..b] + ([y] + zeros[b + 1..])));
    TotalAppend([x], zeros[a + 1..b] + ([y] + zeros[b + 1..]));
    TotalAppend(zeros[a + 1..b], [y] + zeros[b + 1..]);
    TotalAppend([y], zeros[b + 1..]);
    assert Total([x]) == x && Total([y]) == y;
  }

  /** Balanced pairs for even medians, within half the work limit. */
  method TryPairs(cands: seq<Cand>, buckets: Buckets, req: SelectRequest, n: nat)
    returns (best: Option<Best>, work: nat)
    requires AreBuckets(cands, buckets) && MinLen(req) <= n <= MaxLen(req)
    ensures Kept(cands, req, best) && work <= req.workLimit / 2
  {
    var caps := CapsOf(buckets, req);
    var half := n / 2;
    best, work := None, 0;
    var a := 0;
    while a < |buckets|
      invariant a <= |buckets| && Kept(cands, req, best) && work <= req.workLimit / 2
    {
      var b := a + 1;
      while b < |buckets|
        invariant a < b && Kept(cands, req, best) && work <= req.workLimit / 2
      {
        if work >= req.workLimit / 2 {
          return;
        }
        if half <= caps[a] && n - half <= caps[b] {
          best := TryPair(cands, buckets, req, a, b, half, n - half, best);
          work := work + 1;
        }
        b := b + 1;
      }
      a := a + 1;
    }
  }

  /** All lengths, skipping those the table counts as having no composition. */
  method SearchAll(cands: seq<Cand>, buckets: Buckets, req: SelectRequest, dp: seq<nat>, maxLen: nat)
    returns (best: Option<Best>, work: nat)
    requires AreBuckets(cands, buckets) && buckets != [] && |dp| == maxLen + 1 && MinLen(req) <= maxLen
    requires IsTable(dp, CapsOf(buckets, req), req.workLimit + 1)
    ensures best == FoldBest(cands, buckets, req, None, AllCompositions(CapsOf(buckets, req), MinLen(req), maxLen))
    ensures work == |AllCompositions(CapsOf(buckets, req), MinLen(req), maxLen)|
  {
    hide AreBuckets, IsComposition, FoldBest;
    var caps := CapsOf(buckets, req);
    var suffix := SuffixCaps(caps);
    best, work := None, 0;
    ghost var all := AllCompositions(caps, MinLen(req), maxLen);
    var n := MinLen(req);
    while n <= maxLen
      invariant n <= maxLen + 1
      invariant FoldBest(cands, buckets, req, best, AllCompositions(caps, n, maxLen))
             == FoldBest(cands, buckets, req, None, all)
      invariant work + |AllCompositions(caps, n, maxLen)| == |all|
    {
      FoldBestAppend(cands, buckets, req, best, Compositions(caps, n), AllCompositions(caps, n + 1, maxLen));
      if dp[n] == 0 {
        NoWays(dp, caps, req.workLimit + 1, n);
        assert [] + AllCompositions(caps, n + 1, maxLen) == AllCompositions(caps, n + 1, maxLen);
      } else {
        best, work := SearchLength(cands, buckets, req, caps, suffix, n, best, work);
      }
      n := n + 1;
    }
    FoldNothing(cands, buckets, req, best);
  }

  lemma FoldNothing(cands: seq<Cand>, buckets: Buckets, req: SelectRequest, best: Option<Best>)
    ensures FoldBest(cands, buckets, req, best, []) == best
  {
  }

  lemma NoWays(dp: seq<nat>, caps: seq<nat>, cap: nat, n: nat)
    requires IsTable(dp, caps, cap) && n < |dp| && dp[n] == 0 && cap >= 1
    ensures Compositions(caps, n) == []
  {
    WaysNonNegative(caps, n);
    WaysCounts(caps, n);
  }

  function PickClamp(count: nat, lo: nat, hi: nat): nat
    requires lo <= hi
  {
    if count < lo then lo else if count > hi then hi else count
  }

  /** The composition search. `exact` says that the compositions fit the work limit, and then
      the answer is the best of all of them and `work` is their true number. */
  method SearchCompositions(cands: seq<Cand>, req: SelectRequest)
    returns (mix: Option<Mix>, work: nat, exact: bool, ghost buckets: Buckets)
    ensures AreBuckets(cands, buckets) && CoversAll(cands, buckets)
    ensures exact <==> WaysBetween(CapsOf(buckets, req), MinLen(req), SearchMax(buckets, req)) <= req.workLimit
    ensures exact ==> work == WaysBetween(CapsOf(buckets, req), MinLen(req), SearchMax(buckets, req))
    ensures exact ==> mix == (match ExactBest(cands, buckets, req) case None => None case Some(b) => Some(b.mix))
    ensures mix.Some? ==> WithinLimits(cands, req, mix.value)
    ensures work <= req.workLimit
    ensures !exact ==> Total(CapsOf(buckets, req)) >= MinLen(req)
  {
    var groups := GroupByLengths(cands);
    buckets := groups;
    var caps := CapsOf(groups, req);
    var minLen := MinLen(req);
    var maxLen := SearchMax(groups, req);
    ExactBestPermitted(cands, groups, req);
    AllCompositionsCount(caps, minLen, maxLen);
    if maxLen < minLen {
      return None, 0, true, groups;
    }
    var dp, total := CountCompositions(caps, minLen, maxLen, req.workLimit);
    exact := total <= req.workLimit;
    if exact {
      var best: Option<Best>;
      best, work := SearchAll(cands, groups, req, dp, maxLen);
      mix := if best.None? then None else Some(best.value.mix);
    } else if req.islStat == Median && req.oslStat == Median {
      var best: Option<Best>;
      best, work := TryPairs(cands, groups, req, PickClamp(req.count, minLen, maxLen));
      mix := if best.None? then None else Some(best.value.mix);
    } else {
      mix, work := None, 0;
    }
  }

  // ---------- homogeneous cells (src/prompt_library.rs:413-529)

  datatype HomogeneousPick = HomogeneousPick(
    score: Score, n: nat, isl: real, osl: real, islGap: real, oslGap: real, idxs: seq<nat>)

  ghost predicate GoodPick(cands: seq<Cand>, req: SelectRequest, p: HomogeneousPick) {
    && IsBucket(cands, p.idxs) && BucketLength(cands, p.idxs) == (p.isl, p.osl)
    && p.islGap == p.isl - req.islTarget && p.oslGap == p.osl - req.oslTarget
    && InTolerance(p.islGap, p.oslGap, req)
    && MinLen(req) <= p.n <= MaxLen(req) && p.n <= |p.idxs| * req.maxRepeats
    && p.score == Score(0.0, AbsDiff(p.n, req.count), p.n - Min(p.n, |p.idxs|))
  }

  /** All rows of the mix have one joint length. */
  ghost predicate OneCell(cands: seq<Cand>, mix: Mix) {
    IsMix(cands, mix) && forall i :: 0 <= i < |mix| ==> LengthOf(cands, mix[i]) == LengthOf(cands, mix[0])
  }

  ghost predicate DrawnFrom(mix: Mix, idxs: seq<nat>) { forall i :: 0 <= i < |mix| ==> mix[i] in idxs }

  /** `best` is no worse than any feasible mix drawn from `idxs` alone. */
  ghost predicate LeadsCell(cands: seq<Cand>, req: SelectRequest, best: Option<HomogeneousPick>, idxs: seq<nat>) {
    forall other :: Feasible(cands, req, other) && DrawnFrom(other, idxs) ==>
      best.Some? && NoWorse(best.value.score, ScoreOf(cands, req, other))
  }

  /** `score` is no worse than that of any feasible mix of one joint length. */
  ghost predicate LeadsOneCell(cands: seq<Cand>, req: SelectRequest, score: Option<Score>) {
    forall other :: Feasible(cands, req, other) && OneCell(cands, other) ==>
      score.Some? && NoWorse(score.value, ScoreOf(cands, req, other))
  }

  /** A mix from one cell shows the cell's lengths, fits its capacity and repeats at least so much. */
  lemma CellMix(cands: seq<Cand>, req: SelectRequest, idxs: seq<nat>, mix: Mix)
    requires IsBucket(cands, idxs) && Feasible(cands, req, mix) && DrawnFrom(mix, idxs)
    ensures var (isl, osl) := BucketLength(cands, idxs);
      InTolerance(isl - req.islTarget, osl - req.oslTarget, req)
    ensures |mix| <= |idxs| * req.maxRepeats
    ensures ExtraCopies(mix) >= |mix| - Min(|mix|, |idxs|)
  {
    var (isl, osl) := BucketLength(cands, idxs);
    forall i | 0 <= i < |mix| ensures LengthOf(cands, mix[i]) == (isl, osl) {
      MemberLength(cands, idxs, mix[i]);
    }
    StatConstant(Map(First(), Lengths(cands, mix)), isl, req.islStat);
    StatConstant(Map(Second(), Lengths(cands, mix)), osl, req.oslStat);
    DistinctCardinality(idxs);
    var rows := Elements(idxs);
    forall x ensures multiset(mix)[x] <= if x in rows then req.maxRepeats else 0 {
      if x in multiset(mix) {
        var i :| 0 <= i < |mix| && mix[i] == x;
        assert mix[i] in idxs;
      }
    }
    BoundedMultiset(multiset(mix), rows, req.maxRepeats);
    SubsetAtMost(Elements(mix), rows);
  }

  /** The clamped count is the nearest one the cell can serve, and the only one that near. */
  lemma NearestCount(count: nat, lo: nat, hi: nat, other: nat)
    requires lo <= other <= hi
    ensures AbsDiff(PickClamp(count, lo, hi), count) <= AbsDiff(other, count)
    ensures AbsDiff(PickClamp(count, lo, hi), count) == AbsDiff(other, count) ==> PickClamp(count, lo, hi) == other
  {
  }

  /** The better of two picks still leads every cell the other one led. */
  lemma StillLeads(
      cands: seq<Cand>, req: SelectRequest, best: Option<HomogeneousPick>, next: HomogeneousPick, idxs: seq<nat>)
    requires LeadsCell(cands, req, best, idxs)
    requires best.Some? ==> NoWorse(next.score, best.value.score)
    ensures LeadsCell(cands, req, Some(next), idxs)
  {
  }

  lemma PickIsGood(cands: seq<Cand>, req: SelectRequest, p: HomogeneousPick)
    requires IsBucket(cands, p.idxs) && BucketLength(cands, p.idxs) == (p.isl, p.osl)
    requires p.islGap == p.isl - req.islTarget && p.oslGap == p.osl - req.oslTarget
    requires ExcessOf(p.islGap, p.oslGap, req) <= 0.0 && MinLen(req) <= |p.idxs| * req.maxRepeats
    requires p.n == PickClamp(req.count, MinLen(req), Min(MaxLen(req), |p.idxs| * req.maxRepeats))
    requires p.score == Score(0.0, AbsDiff(p.n, req.count), p.n - Min(p.n, |p.idxs|))
    ensures GoodPick(cands, req, p)
  {
    ExcessZero(p.islGap, p.oslGap, req);
  }

  lemma GoodPickScore(cands: seq<Cand>, req: SelectRequest, p: HomogeneousPick)
    requires GoodPick(cands, req, p)
    ensures p.score.excess == 0.0
  {
  }

  method BestHomogeneousCell(cands: seq<Cand>, req: SelectRequest) returns (best: Option<HomogeneousPick>)
    ensures best.Some? ==> GoodPick(cands, req, best.value)
    ensures LeadsOneCell(cands, req, if best.Some? then Some(best.value.score) else None)
  {
    hide LeadsCell, Feasible, ScoreOf, DrawnFrom, CellScored, OneCell, LeadsOneCell, GoodPick, CoversAll, ExcessOf;
    var groups := GroupByLengths(cands);
    var minLen, maxLen := MinLen(req), MaxLen(req);
    best := None;
    for b := 0 to |groups|
      invariant best.Some? ==> GoodPick(cands, req, best.value)
      invariant forall c :: 0 <= c < b ==> LeadsCell(cands, req, best, groups[c])
    {
      var idxs := groups[b];
      CellScore(cands, req, idxs);
      var (isl, osl) := BucketLength(cands, idxs);
      var islGap, oslGap := isl - req.islTarget, osl - req.oslTarget;
      if ExcessOf(islGap, oslGap, req) > 0.0 {
        continue;
      }
      var unique := |idxs|;
      var capacity := unique * req.maxRepeats;
      if capacity < minLen {
        continue;
      }
      var n := PickClamp(req.count, minLen, Min(maxLen, capacity));
      var score := Score(0.0, AbsDiff(n, req.count), n - Min(n, unique));
      if best.Some? { GoodPickScore(cands, req, best.value); }
      if best.None? || BetterThan(score, best.value.score) {
        var pick := HomogeneousPick(score, n, isl, osl, islGap, oslGap, idxs);
        PickIsGood(cands, req, pick);
        forall c | 0 <= c < b ensures LeadsCell(cands, req, Some(pick), groups[c]) {
          StillLeads(cands, req, best, pick, groups[c]);
        }
        best := Some(pick);
      }
      LeadsBy(cands, req, best.value, idxs, score);
    }
    LeadsAll(cands, req, groups, best);
  }

  lemma LeadsAll(cands: seq<Cand>, req: SelectRequest, groups: Buckets, best: Option<HomogeneousPick>)
    requires AreBuckets(cands, groups) && CoversAll(cands, groups)
    requires forall c :: 0 <= c < |groups| ==> LeadsCell(cands, req, best, groups[c])
    ensures LeadsOneCell(cands, req, if best.Some? then Some(best.value.score) else None)
  {
    hide LeadsCell, AreBuckets, CoversAll;
    forall other | Feasible(cands, req, other) && OneCell(cands, other)
      ensures best.Some? && NoWorse(best.value.score, ScoreOf(cands, req, other))
    {
      var c := HomeCell(cands, req, groups, other);
      CellLed(cands, req, best, groups[c], other);
    }
  }

  /** Every feasible mix of a cell is matched by the cell's own pick, if the cell has one. */
  ghost predicate CellScored(cands: seq<Cand>, req: SelectRequest, idxs: seq<nat>, score: Score) {
    forall other :: Feasible(cands, req, other) && DrawnFrom(other, idxs) ==> NoWorse(score, ScoreOf(cands, req, other))
  }

  lemma CellScore(cands: seq<Cand>, req: SelectRequest, idxs: seq<nat>)
    requires IsBucket(cands, idxs)
    ensures var (isl, osl) := BucketLength(cands, idxs);
      var capacity := |idxs| * req.maxRepeats;
      if ExcessOf(isl - req.islTarget, osl - req.oslTarget, req) > 0.0 || capacity < MinLen(req) then
        forall best :: LeadsCell(cands, req, best, idxs)
      else
        var n := PickClamp(req.count, MinLen(req), Min(MaxLen(req), capacity));
        CellScored(cands, req, idxs, Score(0.0, AbsDiff(n, req.count), n - Min(n, |idxs|)))
  {
    var (isl, osl) := BucketLength(cands, idxs);
    var capacity := |idxs| * req.maxRepeats;
    ExcessZero(isl - req.islTarget, osl - req.oslTarget, req);
    forall other | Feasible(cands, req, other) && DrawnFrom(other, idxs)
      ensures ExcessOf(isl - req.islTarget, osl - req.oslTarget, req) == 0.0 && capacity >= MinLen(req)
    {
      CellMix(cands, req, idxs, other);
    }
    if capacity >= MinLen(req) {
      var n := PickClamp(req.count, MinLen(req), Min(MaxLen(req), capacity));
      forall other | Feasible(cands, req, other) && DrawnFrom(other, idxs)
        ensures NoWorse(Score(0.0, AbsDiff(n, req.count), n - Min(n, |idxs|)), ScoreOf(cands, req, other))
      {
        CellMix(cands, req, idxs, other);
        NearestCount(req.count, MinLen(req), Min(MaxLen(req), capacity), |other|);
      }
    }
  }

  lemma LeadsBy(cands: seq<Cand>, req: SelectRequest, best: HomogeneousPick, idxs: seq<nat>, score: Score)
    requires CellScored(cands, req, idxs, score) && NoWorse(best.score, score)
    ensures LeadsCell(cands, req, Some(best), idxs)
  {
  }

  lemma CellLed(cands: seq<Cand>, req: SelectRequest, best: Option<HomogeneousPick>, idxs: seq<nat>, other: Mix)
    requires LeadsCell(cands, req, best, idxs) && Feasible(cands, req, other) && DrawnFrom(other, idxs)
    ensures best.Some? && NoWorse(best.value.score, ScoreOf(cands, req, other))
  {
  }

  /** A mix of one joint length is drawn from one bucket. */
  lemma HomeCell(cands: seq<Cand>, req: SelectRequest, buckets: Buckets, mix: Mix) returns (b: nat)
    requires AreBuckets(cands, buckets) && CoversAll(cands, buckets) && Feasible(cands, req, mix) && OneCell(cands, mix)
    ensures b < |buckets| && DrawnFrom(mix, buckets[b])
  {
    b := CoveringBucket(cands, buckets, mix[0]);
    forall i | 0 <= i < |mix| ensures mix[i] in buckets[b] {
      var c := CoveringBucket(cands, buckets, mix[i]);
      assert LengthOf(cands, mix[i]) == LengthOf(cands, mix[0]);
      SameBucketIf(cands, buckets, b, c);
    }
  }

  lemma BelowLimit(k: nat, p: nat, most: nat)
    requires k * p < k * most
    ensures p < most
  {
    if p >= most { MulMonotone(k, most, p); }
  }

  lemma NextRoundRobin(idxs: seq<nat>, k: nat, p: nat, slot: nat)
    requires k == |idxs| > 0 && slot < k
    ensures RoundRobin(idxs, k * p + slot + 1) == RoundRobin(idxs, k * p + slot) + [idxs[slot]]
  {
    ModUnique(k * p + slot, k, p, slot);
  }

  /** One further pass over the rows; stops as soon as the mix is long enough. */
  method CyclePass(idxs: seq<nat>, n: nat, maxRepeats: nat, mix: Mix, used: array<nat>, ghost p: nat)
    returns (longer: Mix, progressed: bool)
    requires idxs != [] && used.Length == |idxs| && n <= |idxs| * maxRepeats
    requires |mix| == |idxs| * p < n && mix == RoundRobin(idxs, |mix|)
    requires forall j :: 0 <= j < |idxs| ==> used[j] == p
    modifies used
    ensures progressed && |longer| <= n && longer == RoundRobin(idxs, |longer|)
    ensures |longer| == n || |longer| == |idxs| * (p + 1)
    ensures |longer| < n ==> forall j :: 0 <= j < |idxs| ==> used[j] == p + 1
  {
    longer, progressed := mix, false;
    ghost var k := |idxs|;
    assert k * (p + 1) == k * p + k;
    var slot := 0;
    while slot < |idxs|
      invariant 0 <= slot <= k && |longer| == k * p + slot <= n && longer == RoundRobin(idxs, |longer|)
      invariant forall j :: 0 <= j < slot ==> used[j] == p + 1
      invariant forall j :: slot <= j < k ==> used[j] == p
      invariant slot > 0 ==> progressed
    {
      if |longer| >= n {
        break;
      }
      BelowLimit(k, p, maxRepeats);
      if used[slot] < maxRepeats {
        NextRoundRobin(idxs, k, p, slot);
        longer := longer + [idxs[slot]];
        used[slot] := used[slot] + 1;
        progressed := true;
      }
      slot := slot + 1;
    }
  }

  /** Unique rows first, then bounded repeats, pass by pass. */
  method CycleRows(idxs: seq<nat>, n: nat, maxRepeats: nat) returns (mix: Mix)
    requires idxs != [] && n <= |idxs| * maxRepeats
    ensures mix == RoundRobin(idxs, n)
  {
    mix := [];
    var used := new nat[|idxs|](_ => 0);
    ghost var k := |idxs|;
    assert k * 1 == k;
    var slot := 0;
    while slot < |idxs|
      invariant 0 <= slot <= k && mix == idxs[..slot] && slot <= n
      invariant forall j :: 0 <= j < slot ==> used[j] == 1
    {
      if |mix| >= n {
        break;
      }
      mix := mix + [idxs[slot]];
      used[slot] := 1;
      slot := slot + 1;
    }
    RoundRobinWrap(idxs, |mix|);
    ghost var p := 1;
    while |mix| < n
      invariant |mix| <= n && mix == RoundRobin(idxs, |mix|)
      invariant |mix| == n || (|mix| == k * p && forall j :: 0 <= j < k ==> used[j] == p)
      decreases n - |mix|
    {
      var longer, progressed := CyclePass(idxs, n, maxRepeats, mix, used, p);
      assert k * (p + 1) == k * p + k;
      mix := longer;
      p := p + 1;
      if !progressed {
        break;
      }
    }
  }

  lemma HomogeneousMix(cands: seq<Cand>, req: SelectRequest, p: HomogeneousPick, idxs: seq<nat>)
    requires GoodPick(cands, req, p) && Permutation(p.idxs, idxs)
    ensures idxs != [] && Feasible(cands, req, RoundRobin(idxs, p.n)) && OneCell(cands, RoundRobin(idxs, p.n))
    ensures EvaluationOf(cands, req, RoundRobin(idxs, p.n)) == Evaluation(p.score, p.isl, p.osl, p.islGap, p.oslGap)
    ensures |RoundRobin(idxs, p.n)| == p.n && ExtraCopies(RoundRobin(idxs, p.n)) == p.score.extraCopies
  {
    PermutationLength(p.idxs, idxs);
    DistinctPermutation(p.idxs, idxs);
    forall i | 0 <= i < |idxs| ensures idxs[i] < |cands| && LengthOf(cands, idxs[i]) == (p.isl, p.osl) {
      assert idxs[i] in multiset(p.idxs);
      MemberLength(cands, p.idxs, idxs[i]);
    }
    var mix := RoundRobin(idxs, p.n);
    forall x ensures multiset(mix)[x] <= req.maxRepeats {
      RoundRobinRepeats(idxs, p.n, req.maxRepeats, x);
    }
    RoundRobinElements(idxs, p.n);
    StatConstant(Map(First(), Lengths(cands, mix)), p.isl, req.islStat);
    StatConstant(Map(Second(), Lengths(cands, mix)), p.osl, req.oslStat);
    ExcessZero(p.islGap, p.oslGap, req);
  }

  /** A feasible mix of one joint length, truthfully reported, and no other such mix is better. */
  ghost predicate BestOfOneCell(cands: seq<Cand>, req: SelectRequest, s: SelectedMix, mix: Mix) {
    && Feasible(cands, req, mix) && Reports(cands, req, s, mix) && s.workUsed == 0
    && OneCell(cands, mix) && LeadsOneCell(cands, req, Some(ScoreOf(cands, req, mix)))
  }

  method TryHomogeneousBucket(cands: seq<Cand>, req: SelectRequest) returns (r: Option<SelectedMix>)
    ensures r.Some? ==> exists mix :: BestOfOneCell(cands, req, r.value, mix)
    ensures r.None? ==> LeadsOneCell(cands, req, None)
  {
    hide MeetsTolerances, EvaluationOf, IsBucket, OneCell, LeadsOneCell, RoundRobin, InTolerance;
    var best := BestHomogeneousCell(cands, req);
    if best.None? {
      return None;
    }
    var pick := best.value;
    var idxs := Shuffle(pick.idxs);
    HomogeneousMix(cands, req, pick, idxs);
    PermutationLength(pick.idxs, idxs);
    var picked := CycleRows(idxs, pick.n, req.maxRepeats);
    var ok := MultiplicityOk(picked, req.maxRepeats);
    if |picked| != pick.n || !ok {
      return None;
    }
    r := Some(SelectedMix(RowsOf(cands, picked), pick.isl, pick.osl, pick.islGap, pick.oslGap,
                          pick.score.extraCopies, 0));
    assert BestOfOneCell(cands, req, r.value, picked);
  }

  // ---------- local search (src/prompt_library.rs:336-408, 769-816)

  ghost predicate Counts(used: seq<nat>, mix: Mix) {
    (forall i :: 0 <= i < |mix| ==> mix[i] < |used|)
    && forall x :: multiset(mix)[x] == if 0 <= x < |used| then used[x] else 0
  }

  lemma CountsPush(used: seq<nat>, mix: Mix, x: nat)
    requires Counts(used, mix) && x < |used|
    ensures Counts(used[x := used[x] + 1], mix + [x])
  {
    assert multiset(mix + [x]) == multiset(mix) + multiset{x};
  }

  lemma {:induction false} FullMultiset(m: multiset<nat>, rows: set<nat>, least: nat)
    requires forall x :: x in rows ==> m[x] >= least
    ensures |m| >= |rows| * least
    decreases rows
  {
    if rows != {} {
      var x :| x in rows;
      FullMultiset(m[x := 0], rows - {x}, least);
      assert (|rows| - 1) * least + least == |rows| * least;
    }
  }

  /** The positions below `n`. */
  ghost function Range(n: nat): (s: set<nat>)
    ensures |s| == n && forall x :: x in s <==> 0 <= x < n
  {
    if n == 0 then {} else Range(n - 1) + {n - 1}
  }

  /** Distinct rows that are not used yet. */
  ghost predicate Unused(unused: seq<nat>, used: seq<nat>) {
    Distinct(unused) && forall i :: 0 <= i < |unused| ==> unused[i] < |used| && used[unused[i]] == 0
  }

  /** Removing a row by swapping the last one into its place keeps the others unused. */
  lemma DrawOne(unused: seq<nat>, used: seq<nat>, pick: nat)
    requires Unused(unused, used) && pick < |unused|
    ensures unused[pick] < |used| && used[unused[pick]] == 0
    ensures var idx := unused[pick];
      Unused(unused[pick := unused[|unused| - 1]][..|unused| - 1], used[idx := used[idx] + 1])
  {
    var rest := unused[pick := unused[|unused| - 1]][..|unused| - 1];
    assert forall i :: 0 <= i < |rest| ==> rest[i] == if i == pick then unused[|unused| - 1] else unused[i];
  }

  lemma NoneUsed(n: nat)
    ensures Counts(seq(n, i => 0), [])
    ensures Unused(seq(n, i requires 0 <= i < n => i), seq(n, i => 0))
  {
  }

  lemma NoneLeft(used: seq<nat>)
    ensures Unused([], used)
  {
  }

  lemma CountsGive(used: seq<nat>, mix: Mix, most: nat)
    requires Counts(used, mix) && forall x :: 0 <= x < |used| ==> used[x] <= most
    ensures (forall i :: 0 <= i < |mix| ==> mix[i] < |used|) && RepeatsWithin(mix, most)
    ensures (forall x :: 0 <= x < |used| ==> used[x] >= most) ==> |mix| >= |used| * most
  {
    if forall x :: 0 <= x < |used| ==> used[x] >= most { FullMultiset(multiset(mix), Range(|used|), most); }
  }

  /** A random start: each row once, then repeats drawn among rows below the limit. The program
      redraws until it hits such a row; here the successful draw is the choice. */
  method SeedMix(cands: seq<Cand>, req: SelectRequest) returns (mix: Mix)
    requires cands != [] && req.count >= 1 && req.maxRepeats >= 1
    ensures IsMix(cands, mix) && RepeatsWithin(mix, req.maxRepeats) && 1 <= |mix| <= req.count
    ensures |mix| == req.count || |mix| >= |cands| * req.maxRepeats
  {
    hide Unused, Counts;
    var n := |cands|;
    mix := [];
    var used: seq<nat> := seq(n, i => 0);
    var unused: seq<nat> := seq(n, i requires 0 <= i < n => i);
    NoneUsed(n);
    while |mix| < req.count
      invariant |mix| <= req.count && |used| == n && Counts(used, mix)
      invariant forall x :: 0 <= x < n ==> used[x] <= req.maxRepeats
      invariant Unused(unused, used)
      decreases req.count - |mix|
    {
      if unused != [] {
        var pick :| 0 <= pick < |unused|;
        var idx := unused[pick];
        DrawOne(unused, used, pick);
        unused := unused[pick := unused[|unused| - 1]][..|unused| - 1];
        CountsPush(used, mix, idx);
        mix := mix + [idx];
        used := used[idx := used[idx] + 1];
        continue;
      }
      if forall x :: 0 <= x < n ==> used[x] >= req.maxRepeats {
        break;
      }
      var idx :| 0 <= idx < n && used[idx] < req.maxRepeats;
      CountsPush(used, mix, idx);
      mix := mix + [idx];
      used := used[idx := used[idx] + 1];
      NoneLeft(used);
    }
    CountsGive(used, mix, req.maxRepeats);
  }

  /** Up to two picks replaced, one pick added, or one removed. */
  ghost predicate Moved(mix: Mix, trial: Mix) {
    || (|trial| == |mix| && exists i, j :: 0 <= i < |mix| && 0 <= j < |mix| && SameBut(mix, trial, i, j))
    || (|trial| == |mix| + 1 && trial[..|mix|] == mix)
    || (|trial| + 1 == |mix| && exists i :: 0 <= i < |mix| && multiset(trial) + multiset{mix[i]} == multiset(mix))
  }

  ghost predicate SameBut(mix: Mix, trial: Mix, i: nat, j: nat) {
    |trial| == |mix| && forall k :: 0 <= k < |mix| && k != i && k != j ==> trial[k] == mix[k]
  }

  /** Moving the last pick into a slot removes what the slot held. */
  lemma SwapRemoved(mix: Mix, slot: nat)
    requires slot < |mix|
    ensures multiset(mix[slot := mix[|mix| - 1]][..|mix| - 1]) + multiset{mix[slot]} == multiset(mix)
  {
    var n := |mix| - 1;
    if slot == n {
      assert mix[slot := mix[n]][..n] == mix[..n];
      assert mix == mix[..n] + [mix[n]];
    } else {
      SlotAndLast(mix, slot);
      SameCounts(mix[..slot], mix[slot + 1..n], mix[slot], mix[n]);
    }
  }

  lemma SlotAndLast(mix: Mix, slot: nat)
    requires slot < |mix| - 1
    ensures var n := |mix| - 1;
      && mix == mix[..slot] + [mix[slot]] + mix[slot + 1..n] + [mix[n]]
      && mix[slot := mix[n]][..n] == mix[..slot] + [mix[n]] + mix[slot + 1..n]
  {
  }

  lemma SameCounts(a: Mix, b: Mix, x: nat, y: nat)
    ensures multiset(a + [y] + b) + multiset{x} == multiset(a + [x] + b + [y])
  {
  }

  method TryMove(mix: Mix, cands: seq<Cand>, req: SelectRequest, nearest: nat) returns (trial: Mix)
    requires IsMix(cands, mix) && MinLen(req) <= |mix| <= MaxLen(req) && nearest < |cands|
    ensures IsMix(cands, trial) && MinLen(req) <= |trial| <= MaxLen(req)
    ensures Moved(mix, trial)
  {
    var n := |cands|;
    trial := mix;
    var move :| 0 <= move < 6;
    var slot :| 0 <= slot < |trial|;
    var row: nat :| 0 <= row < n;
    if move == 0 {
      trial := trial[slot := row];
    } else if move == 1 && |trial| < MaxLen(req) {
      trial := trial + [trial[slot]];
    } else if move == 2 && |trial| < MaxLen(req) {
      trial := trial + [row];
    } else if move == 3 && |trial| > MinLen(req) {
      SwapRemoved(mix, slot);
      trial := trial[slot := trial[|trial| - 1]][..|trial| - 1];
    } else if move == 4 {
      trial := trial[slot := row];
      var slot2 :| 0 <= slot2 < |trial|;
      var row2: nat :| 0 <= row2 < n;
      trial := trial[slot2 := row2];
      assert SameBut(mix, trial, slot, slot2);
    } else {
      trial := trial[slot := nearest];
    }
    assert |trial| == |mix| && move != 4 ==> SameBut(mix, trial, slot, slot);
  }

  function Distance(c: Cand, req: SelectRequest): real {
    Abs(c.isl - req.islTarget) + Abs(c.osl - req.oslTarget)
  }

  method NearestRow(cands: seq<Cand>, req: SelectRequest) returns (nearest: nat)
    requires cands != []
    ensures nearest < |cands|
    ensures forall i :: 0 <= i < |cands| ==> Distance(cands[nearest], req) <= Distance(cands[i], req)
  {
    nearest := 0;
    for i := 1 to |cands|
      invariant nearest < |cands|
      invariant forall j :: 0 <= j < i ==> Distance(cands[nearest], req) <= Distance(cands[j], req)
    {
      if Distance(cands[i], req) < Distance(cands[nearest], req) {
        nearest := i;
      }
    }
  }

  /** A few random moves away from the best mix, skipping those that repeat a row too often. */
  method Perturb(best: Mix, cands: seq<Cand>, req: SelectRequest, nearest: nat) returns (mix: Mix)
    requires WithinLimits(cands, req, best) && nearest < |cands|
    ensures WithinLimits(cands, req, mix)
  {
    mix := best;
    for k := 0 to 4
      invariant WithinLimits(cands, req, mix)
    {
      var trial := TryMove(mix, cands, req, nearest);
      var ok := MultiplicityOk(trial, req.maxRepeats);
      if ok { mix := trial; }
    }
  }

  /** Enough capacity for the shortest permitted mix is enough rows for it. */
  lemma EnoughRows(cands: seq<Cand>, buckets: Buckets, req: SelectRequest)
    requires AreBuckets(cands, buckets) && Total(CapsOf(buckets, req)) >= MinLen(req)
    ensures |cands| * req.maxRepeats >= MinLen(req)
  {
    var v := Fill(CapsOf(buckets, req), MinLen(req));
    CompositionWithinLimits(cands, buckets, req, MinLen(req), v);
    var mix := Compose(buckets, v);
    var rows := Range(|cands|);
    forall x ensures multiset(mix)[x] <= if x in rows then req.maxRepeats else 0 {
      if x in multiset(mix) {
        var i :| 0 <= i < |mix| && mix[i] == x;
      }
    }
    BoundedMultiset(multiset(mix), rows, req.maxRepeats);
  }

  ghost predicate BestSoFar(cands: seq<Cand>, req: SelectRequest, mix: Mix, eval: Evaluation) {
    WithinLimits(cands, req, mix) && eval == EvaluationOf(cands, req, mix)
  }

  predicate Perfect(score: Score) {
    score.excess == 0.0 && score.countDev == 0 && score.extraCopies == 0
  }

  /** A start within tolerances is only given up for one that is no worse. */
  ghost predicate KeepsFeasible(start: Score, best: Score) {
    start.excess == 0.0 ==> best.excess == 0.0 && NoWorse(best, start)
  }

  /** No near miss is strictly better than `start`. */
  ghost predicate NoneBelow(cands: seq<Cand>, req: SelectRequest, start: Score) {
    forall near :: NearMiss(cands, req, near) ==> NoWorse(start, ScoreOf(cands, req, near))
  }

  lemma BetterKeepsFeasible(cands: seq<Cand>, req: SelectRequest, start: Score, trial: Mix, best: Mix)
    requires NoneBelow(cands, req, start) && WithinLimits(cands, req, trial) && WithinLimits(cands, req, best)
    requires KeepsFeasible(start, ScoreOf(cands, req, best))
    requires BetterThan(ScoreOf(cands, req, trial), ScoreOf(cands, req, best))
    ensures KeepsFeasible(start, ScoreOf(cands, req, trial))
  {
    FeasibleExcess(cands, req, trial);
    assert NearMiss(cands, req, trial) ==> NoWorse(start, ScoreOf(cands, req, trial));
  }

  /** The best mix after the proposed moves in order: a permitted one is kept when it scores better. */
  ghost function Climb(cands: seq<Cand>, req: SelectRequest, start: Mix, proposed: seq<Mix>): Mix
    requires WithinLimits(cands, req, start)
    ensures WithinLimits(cands, req, Climb(cands, req, start, proposed))
  {
    if proposed == [] then start
    else
      var best, trial := Climb(cands, req, start, proposed[..|proposed| - 1]), proposed[|proposed| - 1];
      if WithinLimits(cands, req, trial) && BetterThan(ScoreOf(cands, req, trial), ScoreOf(cands, req, best)) then trial
      else best
  }

  lemma ClimbNothing(cands: seq<Cand>, req: SelectRequest, start: Mix)
    requires WithinLimits(cands, req, start)
    ensures Climb(cands, req, start, []) == start
  {
  }

  lemma ClimbNext(cands: seq<Cand>, req: SelectRequest, start: Mix, proposed: seq<Mix>, trial: Mix)
    requires WithinLimits(cands, req, start)
    ensures var best := Climb(cands, req, start, proposed);
      Climb(cands, req, start, proposed + [trial]) ==
        if WithinLimits(cands, req, trial)
           && BetterThan(ScoreOf(cands, req, trial), ScoreOf(cands, req, best)) then trial
        else best
  {
    assert (proposed + [trial])[..|proposed|] == proposed;
  }

  /** No two permitted excess values differ by `TIE` or less. */
  ghost predicate Separated(cands: seq<Cand>, req: SelectRequest) {
    forall a, b :: WithinLimits(cands, req, a) && WithinLimits(cands, req, b) ==>
      var d := ScoreOf(cands, req, a).excess - ScoreOf(cands, req, b).excess;
      d == 0.0 || d > TIE || d < -TIE
  }

  /** Where excess values are well separated, no permitted move that was ever proposed, nor the
      start, is better than the mix the climb ends on. */
  lemma {:induction false} ClimbKeepsBest(cands: seq<Cand>, req: SelectRequest, start: Mix, proposed: seq<Mix>, k: nat)
    requires Separated(cands, req) && WithinLimits(cands, req, start)
    requires k <= |proposed| && (k < |proposed| ==> WithinLimits(cands, req, proposed[k]))
    ensures var seen := if k < |proposed| then proposed[k] else start;
      !BetterThan(ScoreOf(cands, req, seen), ScoreOf(cands, req, Climb(cands, req, start, proposed)))
  {
    hide WithinLimits, ScoreOf;
    if proposed != [] {
      var front := proposed[..|proposed| - 1];
      if k != |front| { ClimbKeepsBest(cands, req, start, front, if k < |front| then k else |front|); }
    }
  }

  /** Climbs from a permitted mix; each proposed move costs one unit of work. */
  method LocalSearch(cands: seq<Cand>, req: SelectRequest, start: Mix, startEval: Evaluation, startWork: nat)
    returns (bestMix: Mix, bestEval: Evaluation, workUsed: nat, ghost proposed: seq<Mix>)
    requires cands != [] && req.count >= 1 && req.maxRepeats >= 1
    requires BestSoFar(cands, req, start, startEval) && startWork <= req.workLimit
    requires |cands| * req.maxRepeats >= MinLen(req)
    ensures BestSoFar(cands, req, bestMix, bestEval) && startWork <= workUsed <= req.workLimit
    ensures NoneBelow(cands, req, startEval.score) ==> KeepsFeasible(startEval.score, bestEval.score)
    ensures workUsed == req.workLimit || Perfect(bestEval.score)
    ensures |proposed| == workUsed - startWork && bestMix == Climb(cands, req, start, proposed)
  {
    hide NoneBelow, EvaluationOf, Climb;
    var nearest := NearestRow(cands, req);
    var mix := start;
    bestMix, bestEval, workUsed, proposed := start, startEval, startWork, [];
    ClimbNothing(cands, req, start);
    var stagnant := 0;
    var perturbRestart := true;
    while workUsed < req.workLimit
      invariant BestSoFar(cands, req, bestMix, bestEval) && startWork <= workUsed <= req.workLimit
      invariant WithinLimits(cands, req, mix)
      invariant NoneBelow(cands, req, startEval.score) ==> KeepsFeasible(startEval.score, bestEval.score)
      invariant |proposed| == workUsed - startWork && bestMix == Climb(cands, req, start, proposed)
      decreases req.workLimit - workUsed
    {
      workUsed := workUsed + 1;
      if stagnant >= Max(256, 8 * |mix|) {
        if perturbRestart {
          mix := Perturb(bestMix, cands, req, nearest);
        } else {
          mix := SeedMix(cands, req);
        }
        perturbRestart := !perturbRestart;
        stagnant := 0;
      }
      stagnant := stagnant + 1;
      var trial := TryMove(mix, cands, req, nearest);
      ClimbNext(cands, req, start, proposed, trial);
      proposed := proposed + [trial];
      var ok := MultiplicityOk(trial, req.maxRepeats);
      if !ok {
        continue;
      }
      var eval := Evaluate(trial, cands, req);
      if eval.None? {
        continue;
      }
      if BetterThan(eval.value.score, bestEval.score) {
        if NoneBelow(cands, req, startEval.score) {
          BetterKeepsFeasible(cands, req, startEval.score, trial, bestMix);
        }
        stagnant := 0;
        mix, bestMix, bestEval := trial, trial, eval.value;
        if Perfect(bestEval.score) {
          break;
        }
      } else if * {
        mix := trial;
      }
    }
  }

  // ---------- the public entry point (src/prompt_library.rs:683-858)

  function Refuse(reason: FailureReason): SelectResult {
    Err(SelectFailure(reason, None, 0, 0, 0, true, []))
  }

  /** When each part of the solver answers: invalid or empty requests are rejected; a cell that
      fits answers first; otherwise the search is exhaustive exactly when the compositions of
      the joint-length buckets fit the work limit. */
  ghost predicate RightPath(
      cands: seq<Cand>, req: SelectRequest, r: SelectResult, mix: Mix, path: Path, buckets: Buckets)
  {
    if req.count == 0 || req.maxRepeats == 0 || cands == [] then path == Rejected && r.Err?
    else if path == Homogeneous then
      && r.Ok? && OneCell(cands, mix) && WithinLimits(cands, req, mix)
      && LeadsOneCell(cands, req, Some(ScoreOf(cands, req, mix)))
    else
      && LeadsOneCell(cands, req, None)
      && AreBuckets(cands, buckets) && CoversAll(cands, buckets)
      && var number := WaysBetween(CapsOf(buckets, req), MinLen(req), SearchMax(buckets, req));
         path == (if number <= req.workLimit then Exact else Local)
         && (path == Exact ==> number == if r.Ok? then r.mix.workUsed else r.failure.workUsed)
  }

  /** What every answer promises. `mix`, `path` and `buckets` only name what the answer came from. */
  ghost predicate Truthful(
      rows: seq<LibraryRow>, req: SelectRequest, r: SelectResult, mix: Mix, path: Path, buckets: Buckets)
  {
    var cands := FilterCandidates(rows, req);
    RightPath(cands, req, r, mix, path, buckets) &&
    match r
    case Ok(s) =>
      && Feasible(cands, req, mix) && Reports(cands, req, s, mix) && s.workUsed <= req.workLimit
      && (path == Exact && (Harmless(cands, req) || NoBand(cands, req)) ==>
            forall other :: Feasible(cands, req, other) ==>
              NoWorse(ScoreOf(cands, req, mix), ScoreOf(cands, req, other)))
      && (path == Exact && NoBand(cands, req) ==> FeasibleFirst(cands, buckets, req))
    case Err(f) =>
      && f.workUsed <= req.workLimit
      && (f.provenEmpty <==> path == Rejected || path == Exact)
      && (f.provenEmpty && req.count >= 1 && req.maxRepeats >= 1 && Harmless(cands, req) ==>
            forall other :: !Feasible(cands, req, other))
      && (path == Exact && NoBand(cands, req) ==> !FeasibleFirst(cands, buckets, req))
      && (f.best.Some? ==> BestSoFar(cands, req, mix, f.best.value) && f.bestRows == RowsOf(cands, mix)
                           && f.best.value.score.excess > 0.0)
  }

  /** Turns the best mix into the public answer. */
  method Answer(cands: seq<Cand>, req: SelectRequest, mix: Mix, eval: Evaluation, workUsed: nat, exact: bool)
    returns (r: SelectResult)
    requires BestSoFar(cands, req, mix, eval) && workUsed <= req.workLimit
    ensures r.Ok? <==> eval.score.excess == 0.0
    ensures r.Ok? ==> Feasible(cands, req, mix) && Reports(cands, req, r.mix, mix) && r.mix.workUsed == workUsed
    ensures r.Err? ==> r.failure == SelectFailure(
              NothingWithinTolerances, Some(eval), |mix|, |cands|, workUsed, exact, RowsOf(cands, mix))
    ensures r.Err? ==> eval.score.excess > 0.0
  {
    FeasibleExcess(cands, req, mix);
    if eval.score.excess == 0.0 {
      r := Ok(SelectedMix(RowsOf(cands, mix), eval.islAchieved, eval.oslAchieved, eval.islGap, eval.oslGap,
                          eval.score.extraCopies, workUsed));
    } else {
      r := Err(SelectFailure(NothingWithinTolerances, Some(eval), |mix|, |cands|, workUsed, exact, RowsOf(cands, mix)));
    }
  }

  /** The exhaustive search's own promises, as the public answer carries them. */
  lemma ExactAnswer(cands: seq<Cand>, buckets: Buckets, req: SelectRequest)
    requires AreBuckets(cands, buckets) && CoversAll(cands, buckets)
    ensures var best := ExactBest(cands, buckets, req);
      && Kept(cands, req, best)
      && (Harmless(cands, req) && (exists other :: Feasible(cands, req, other)) ==>
            best.Some? && best.value.score.excess == 0.0)
      && (best.Some? && best.value.score.excess == 0.0 && (Harmless(cands, req) || NoBand(cands, req)) ==>
            forall other :: Feasible(cands, req, other) ==> NoWorse(best.value.score, ScoreOf(cands, req, other)))
      && (NoBand(cands, req) ==>
            (best.Some? && best.value.score.excess == 0.0 <==> FeasibleFirst(cands, buckets, req)))
  {
    hide AreBuckets, CoversAll, Harmless, NoBand, FeasibleFirst, ExactBest, ScoreOf;
    ExactBestPermitted(cands, buckets, req);
    if NoBand(cands, req) {
      ExactBestFeasibleIff(cands, buckets, req);
    }
    if Harmless(cands, req) {
      forall other | Feasible(cands, req, other)
        ensures var best := ExactBest(cands, buckets, req);
          best.Some? && best.value.score.excess == 0.0 && NoWorse(best.value.score, ScoreOf(cands, req, other))
      {
        ExactBestIsOptimal(cands, buckets, req, other);
      }
    }
  }

  lemma NoRowsNoMix(cands: seq<Cand>, req: SelectRequest, mix: Mix)
    requires cands == []
    ensures !WithinLimits(cands, req, mix)
  {
    assert |mix| > 0 ==> !(mix[0] < |cands|);
  }

  /** The answer is the mix of the rows at `ps`, in the library's own terms. */
  ghost predicate Delivers(rows: seq<LibraryRow>, req: SelectRequest, s: SelectedMix, ps: seq<nat>) {
    && Hits(rows, req, ps, s.islAchieved, s.oslAchieved)
    && s.rows == RowsAt(rows, ps)
    && s.islGap == s.islAchieved - req.islTarget && s.oslGap == s.oslAchieved - req.oslTarget
    && s.extraCopies == Repeats(ps)
  }

  /** A truthful report of a feasible mix delivers its rows. */
  lemma ReportDelivers(
      rows: seq<LibraryRow>, req: SelectRequest, cands: seq<Cand>, at: seq<nat>, s: SelectedMix, mix: Mix)
    requires Placed(rows, req, cands, at) && Feasible(cands, req, mix) && Reports(cands, req, s, mix)
    ensures Delivers(rows, req, s, Through(at, mix))
  {
    hide Hits, ApplyStat, RepeatsWithin;
    PlacedGives(rows, req, cands, at);
    ThroughElements(at, mix);
    FeasibleHits(rows, req, cands, at, mix);
  }

  /** What a truthful answer means for the library. */
  lemma TruthMeans(
      rows: seq<LibraryRow>, req: SelectRequest, r: SelectResult, mix: Mix, path: Path, buckets: Buckets)
    requires Truthful(rows, req, r, mix, path, buckets)
    ensures r.Ok? ==> exists ps :: Delivers(rows, req, r.mix, ps)
    ensures r.Ok? && path == Exact && BestIsClear(rows, req) ==>
              exists ps :: Delivers(rows, req, r.mix, ps) && Least(rows, req, ps)
    ensures r.Err? && r.failure.provenEmpty && req.count >= 1 && req.maxRepeats >= 1
            && Harmless(FilterCandidates(rows, req), req) ==>
              forall ps, isl, osl :: !Hits(rows, req, ps, isl, osl)
  {
    hide RightPath, Harmless, NoBand, FeasibleFirst, BestSoFar, NoWorse, Hits, FilterCandidates, Placed, Least,
      Feasible, Reports, ScoreOf, EvaluationOf;
    var cands := FilterCandidates(rows, req);
    var at := CandidatesPlaced(rows, req);
    if r.Ok? {
      ReportDelivers(rows, req, cands, at, r.mix, mix);
      if path == Exact && BestIsClear(rows, req) { LeastMix(rows, req, cands, at, mix); }
    } else if r.failure.provenEmpty && req.count >= 1 && req.maxRepeats >= 1 && Harmless(cands, req) {
      forall ps, isl, osl ensures !Hits(rows, req, ps, isl, osl) {
        if Hits(rows, req, ps, isl, osl) {
          var other := HitsFeasible(rows, req, cands, at, ps, isl, osl);
        }
      }
    }
  }

  /** A failure shows the rows and statistics of an eligible mix that misses a tolerance. */
  ghost predicate ShowsMiss(rows: seq<LibraryRow>, req: SelectRequest, f: SelectFailure, ps: seq<nat>) {
    && f.best.Some? && Centers(rows, req, ps, f.best.value.islAchieved, f.best.value.oslAchieved)
    && f.bestRows == RowsAt(rows, ps) && !Hits(rows, req, ps, f.best.value.islAchieved, f.best.value.oslAchieved)
  }

  lemma MissMeans(
      rows: seq<LibraryRow>, req: SelectRequest, r: SelectResult, mix: Mix, path: Path, buckets: Buckets)
    requires Truthful(rows, req, r, mix, path, buckets) && r.Err? && r.failure.best.Some?
    ensures exists ps :: ShowsMiss(rows, req, r.failure, ps)
  {
    hide RightPath, Harmless, NoBand, FeasibleFirst, NoWorse, FilterCandidates, Centers;
    var cands := FilterCandidates(rows, req);
    var at := CandidatesPlaced(rows, req);
    PlacedGives(rows, req, cands, at);
    LimitsCenters(rows, req, cands, at, mix);
    FeasibleExcess(cands, req, mix);
    assert ShowsMiss(rows, req, r.failure, Through(at, mix));
  }

  /** When the exhaustive search is sure to end on the best mix. */
  ghost predicate BestIsClear(rows: seq<LibraryRow>, req: SelectRequest) {
    Harmless(FilterCandidates(rows, req), req) || NoBand(FilterCandidates(rows, req), req)
  }

  /** A truthful answer, and the best there is where the exhaustive search is sure to find it. */
  ghost predicate Stands(
      rows: seq<LibraryRow>, req: SelectRequest, r: SelectResult, mix: Mix, path: Path, buckets: Buckets)
  {
    && Truthful(rows, req, r, mix, path, buckets)
    && (r.Ok? && path == Exact && BestIsClear(rows, req) ==>
          exists ps :: Delivers(rows, req, r.mix, ps) && Least(rows, req, ps))
  }

  /** Whatever the random draws: an accepted mix consists of kept library rows whose statistics are
      the reported ones and lie within both tolerances; on the exhaustive path none is better; a
      proof of emptiness rules out every choice of rows. */
  method SelectMix(rows: seq<LibraryRow>, req: SelectRequest) returns (r: SelectResult)
    ensures r.Ok? ==> exists ps :: Delivers(rows, req, r.mix, ps)
    ensures r.Err? && r.failure.provenEmpty && req.count >= 1 && req.maxRepeats >= 1
            && Harmless(FilterCandidates(rows, req), req) ==>
              forall ps, isl, osl :: !Hits(rows, req, ps, isl, osl)
    ensures r.Err? && r.failure.best.Some? ==> exists ps :: ShowsMiss(rows, req, r.failure, ps)
    ensures (if r.Ok? then r.mix.workUsed else r.failure.workUsed) <= req.workLimit
    ensures exists mix, path, buckets :: Stands(rows, req, r, mix, path, buckets)
  {
    ghost var mix, path, buckets;
    r, mix, path, buckets := Solve(rows, req);
    TruthMeans(rows, req, r, mix, path, buckets);
    if r.Err? && r.failure.best.Some? { MissMeans(rows, req, r, mix, path, buckets); }
    TruthWork(rows, req, r, mix, path, buckets);
    assert Stands(rows, req, r, mix, path, buckets);
    hide ShowsMiss, Stands, Truthful, Delivers, Hits, Least, BestIsClear, Harmless;
  }

  lemma TruthWork(
      rows: seq<LibraryRow>, req: SelectRequest, r: SelectResult, mix: Mix, path: Path, buckets: Buckets)
    requires Truthful(rows, req, r, mix, path, buckets)
    ensures (if r.Ok? then r.mix.workUsed else r.failure.workUsed) <= req.workLimit
  {
    hide RightPath, Harmless, NoBand, FeasibleFirst, BestSoFar, NoWorse, Feasible, Reports, ScoreOf;
  }

  method Solve(rows: seq<LibraryRow>, req: SelectRequest)
    returns (r: SelectResult, ghost mix: Mix, ghost path: Path, ghost buckets: Buckets)
    ensures Truthful(rows, req, r, mix, path, buckets)
  {
    hide AreBuckets, Harmless, NoBand, FeasibleFirst, EvaluationOf, RepeatsWithin, CapsOf, WaysBetween, FoldBest,
      Visited, OneCell, LeadsOneCell;
    mix, path, buckets := [], Rejected, [];
    if req.count == 0 {
      return Refuse(CountZero), mix, path, buckets;
    }
    if req.maxRepeats == 0 {
      return Refuse(MaxRepeatsZero), mix, path, buckets;
    }
    var cands := FilterCandidates(rows, req);
    if cands == [] {
      forall other ensures !Feasible(cands, req, other) {
        NoRowsNoMix(cands, req, other);
      }
      return Refuse(NoRowsAfterFilter), mix, path, buckets;
    }
    var homogeneous := TryHomogeneousBucket(cands, req);
    if homogeneous.Some? {
      ghost var picked :| BestOfOneCell(cands, req, homogeneous.value, picked);
      return Ok(homogeneous.value), picked, Homogeneous, buckets;
    }
    var composition, work, exact;
    composition, work, exact, buckets := SearchCompositions(cands, req);
    ExactBestPermitted(cands, buckets, req);
    var start: Mix;
    if composition.Some? {
      start := composition.value;
    } else {
      start := SeedMix(cands, req);
    }
    var eval: Option<Evaluation> := None;
    var ok := MultiplicityOk(start, req.maxRepeats);
    if ok && |start| >= MinLen(req) {
      eval := Evaluate(start, cands, req);
    }
    if exact && eval.None? {
      forall other | WithinLimits(cands, req, other) ensures false {
        CapacityNeeded(cands, buckets, req, other);
      }
      ExactAnswer(cands, buckets, req);
      return Err(SelectFailure(NothingWithinLimits, None, 0, |cands|, work, true, [])), mix, Exact, buckets;
    }
    if exact {
      if composition.None? { CapacityNeeded(cands, buckets, req, start); }
      r := Answer(cands, req, start, eval.value, work, exact);
      mix, path := start, Exact;
      ExactAnswer(cands, buckets, req);
      return;
    }
    EnoughRows(cands, buckets, req);
    if Perfect(eval.value.score) {
      r := Answer(cands, req, start, eval.value, work, exact);
      mix, path := start, Local;
      return;
    }
    var bestMix, bestEval, workUsed;
    ghost var proposed;
    bestMix, bestEval, workUsed, proposed := LocalSearch(cands, req, start, eval.value, work);
    r := Answer(cands, req, bestMix, bestEval, workUsed, exact);
    mix, path := bestMix, Local;
  }

  // ---------- when a proof of emptiness is wrong

  /** On the exhaustive path, a near miss better than everything feasible is reported as a proof
      that nothing fits. */
  lemma HiddenIsReportedEmpty(
      rows: seq<LibraryRow>, req: SelectRequest, r: SelectResult, mix: Mix, path: Path, buckets: Buckets)
    requires Truthful(rows, req, r, mix, path, buckets) && path == Exact
    requires NoBand(FilterCandidates(rows, req), req) && Hidden(FilterCandidates(rows, req), req)
    ensures r.Err? && r.failure.provenEmpty
  {
    hide NoBand, FeasibleFirst, Hidden, AreBuckets, CoversAll;
    HiddenFails(FilterCandidates(rows, req), buckets, req);
  }

  /** Whatever the random draws, the example library is reported as proven empty, although its
      first two rows together meet both tolerances. */
  lemma WrongProofOfEmptiness(r: SelectResult, mix: Mix, path: Path, buckets: Buckets)
    requires Truthful(ExampleRows(), ExampleRequest(), r, mix, path, buckets)
    ensures r.Err? && r.failure.provenEmpty
    ensures Feasible(FilterCandidates(ExampleRows(), ExampleRequest()), ExampleRequest(), [0, 1])
  {
    hide NoBand, Hidden, FeasibleFirst, AreBuckets, CoversAll, WaysBetween, LeadsOneCell, MeetsTolerances;
    var cands, req := ExampleCands(), ExampleRequest();
    ExampleCandsAreRows();
    ExampleHidden();
    ExampleNotOneCell(mix);
    if path != Homogeneous { ExampleNumber(buckets); }
    HiddenIsReportedEmpty(ExampleRows(), req, r, mix, path, buckets);
  }

  lemma ExampleNotOneCell(mix: Mix)
    ensures Feasible(ExampleCands(), ExampleRequest(), mix) ==> !OneCell(ExampleCands(), mix)
  {
    hide MeetsTolerances, NoBand, Hidden;
    ExampleHidden();
    if |mix| == 2 { PairRepeats(mix); }
  }
}
