/** Joint-length buckets and the reduction of row-level mixes to bucket counts.

    A bucket holds the candidates that share one (ISL, OSL) pair. A composition takes a
    number of rows from each bucket, cycling through the bucket so that every row is used
    once before any row is used twice. Every row-level mix is matched by a composition that
    achieves the same values with no more repeats. */
module MixBuckets {
  import opened Numbers
  import opened Sums
  import opened Modulo
  import opened Sequences
  import opened CompositionCount
  import opened MixScore

  type Buckets = seq<seq<nat>>

  function LengthOf(cands: seq<Cand>, x: nat): (real, real)
    requires x < |cands|
  {
    (cands[x].isl, cands[x].osl)
  }

  /** Bucket members are real candidates, listed once, and agree on their joint length. */
  ghost predicate IsBucket(cands: seq<Cand>, bucket: seq<nat>) {
    && bucket != []
    && Distinct(bucket)
    && (forall i :: 0 <= i < |bucket| ==> bucket[i] < |cands|)
    && (forall i :: 0 <= i < |bucket| ==> LengthOf(cands, bucket[i]) == LengthOf(cands, bucket[0]))
  }

  function BucketLength(cands: seq<Cand>, bucket: seq<nat>): (real, real)
    requires bucket != [] && bucket[0] < |cands|
  {
    LengthOf(cands, bucket[0])
  }

  /** Buckets with pairwise different joint lengths; together they need not cover `cands`. */
  ghost predicate AreBuckets(cands: seq<Cand>, buckets: Buckets) {
    && (forall b :: 0 <= b < |buckets| ==> IsBucket(cands, buckets[b]))
    && (forall b, c :: 0 <= b < c < |buckets| ==>
          BucketLength(cands, buckets[b]) != BucketLength(cands, buckets[c]))
  }

  ghost predicate Covers(buckets: Buckets, x: nat) {
    exists b :: 0 <= b < |buckets| && x in buckets[b]
  }

  ghost predicate CoversAll(cands: seq<Cand>, buckets: Buckets) {
    forall x: nat :: x < |cands| ==> Covers(buckets, x)
  }

  lemma BucketsTail(cands: seq<Cand>, buckets: Buckets)
    requires AreBuckets(cands, buckets) && buckets != []
    ensures AreBuckets(cands, buckets[1..])
  {
  }

  // ---------- cycling through one bucket

  function RoundRobin(bucket: seq<nat>, count: nat): Mix
    requires bucket != []
  {
    seq(count, slot requires 0 <= slot < count => bucket[slot % |bucket|])
  }

  lemma RoundRobinWrap(bucket: seq<nat>, count: nat)
    requires bucket != []
    ensures count <= |bucket| ==> RoundRobin(bucket, count) == bucket[..count]
    ensures count >= |bucket| ==> RoundRobin(bucket, count) == bucket + RoundRobin(bucket, count - |bucket|)
  {
    var mix, k := RoundRobin(bucket, count), |bucket|;
    if count >= k {
      var wrapped := bucket + RoundRobin(bucket, count - k);
      forall s | 0 <= s < count ensures mix[s] == wrapped[s] {
        if s < k { ModSmall(s, k); } else { ModShift(s - k, k); }
      }
    } else {
      forall s | 0 <= s < count ensures mix[s] == bucket[..count][s] {
        ModSmall(s, k);
      }
    }
  }

  /** A capacity of `rounds` full passes keeps every multiplicity within `rounds`. */
  lemma {:induction false} RoundRobinRepeats(bucket: seq<nat>, count: nat, rounds: nat, x: nat)
    requires bucket != [] && Distinct(bucket) && count <= |bucket| * rounds
    ensures multiset(RoundRobin(bucket, count))[x] <= rounds
    decreases rounds
  {
    RoundRobinWrap(bucket, count);
    DistinctMultiplicity(bucket);
    assert multiset(bucket)[x] <= 1;
    if count == 0 {
    } else if count <= |bucket| {
      assert rounds > 0;
      assert bucket == bucket[..count] + bucket[count..];
      assert multiset(bucket[..count])[x] <= multiset(bucket)[x];
    } else {
      assert |bucket| * rounds - |bucket| == |bucket| * (rounds - 1);
      RoundRobinRepeats(bucket, count - |bucket|, rounds - 1, x);
    }
  }

  lemma RoundRobinElements(bucket: seq<nat>, count: nat)
    requires bucket != [] && Distinct(bucket)
    ensures Elements(RoundRobin(bucket, count)) == Elements(bucket[..Min(count, |bucket|)])
    ensures |Elements(RoundRobin(bucket, count))| == Min(count, |bucket|)
  {
    var used := bucket[..Min(count, |bucket|)];
    DistinctCardinality(used);
    RoundRobinWrap(bucket, count);
    if count > |bucket| {
      var rest := RoundRobin(bucket, count - |bucket|);
      assert forall x :: x in rest ==> x in bucket;
      assert Elements(bucket + rest) == Elements(bucket);
      assert used == bucket;
    }
  }

  // ---------- composing all buckets

  /** The mix the search builds for one vector of counts (src/prompt_library.rs:626-631). */
  function Compose(buckets: Buckets, counts: seq<nat>): (mix: Mix)
    requires |buckets| == |counts| && forall b :: 0 <= b < |buckets| ==> buckets[b] != []
    ensures |mix| == Total(counts)
  {
    if buckets == [] then []
    else RoundRobin(buckets[0], counts[0]) + Compose(buckets[1..], counts[1..])
  }

  lemma {:induction false} ComposeMembers(buckets: Buckets, counts: seq<nat>, x: nat)
    requires |buckets| == |counts| && forall b :: 0 <= b < |buckets| ==> buckets[b] != []
    requires x in Compose(buckets, counts)
    ensures Covers(buckets, x)
  {
    if x in RoundRobin(buckets[0], counts[0]) {
      assert x in buckets[0];
    } else {
      ComposeMembers(buckets[1..], counts[1..], x);
      var b :| 0 <= b < |buckets[1..]| && x in buckets[1..][b];
      assert x in buckets[b + 1];
    }
  }

  lemma ComposeIsMix(cands: seq<Cand>, buckets: Buckets, counts: seq<nat>)
    requires AreBuckets(cands, buckets) && |buckets| == |counts|
    ensures IsMix(cands, Compose(buckets, counts))
  {
    var mix := Compose(buckets, counts);
    forall i | 0 <= i < |mix| ensures mix[i] < |cands| {
      ComposeMembers(buckets, counts, mix[i]);
      var b :| 0 <= b < |buckets| && mix[i] in buckets[b];
    }
  }

  lemma MemberLength(cands: seq<Cand>, bucket: seq<nat>, x: nat)
    requires IsBucket(cands, bucket)
    ensures x in bucket ==> x < |cands| && LengthOf(cands, x) == BucketLength(cands, bucket)
  {
  }

  /** Members of different buckets are different rows. */
  lemma BucketsDisjoint(cands: seq<Cand>, buckets: Buckets, x: nat)
    requires AreBuckets(cands, buckets) && buckets != [] && x in buckets[0]
    ensures !Covers(buckets[1..], x)
  {
    MemberLength(cands, buckets[0], x);
    forall b | 0 <= b < |buckets[1..]| ensures x !in buckets[1..][b] {
      assert buckets[1..][b] == buckets[b + 1];
      MemberLength(cands, buckets[b + 1], x);
    }
  }

  /** A composition over the later buckets uses no row of the first one. */
  lemma HeadAndRestDisjoint(cands: seq<Cand>, buckets: Buckets, counts: seq<nat>, x: nat)
    requires AreBuckets(cands, buckets) && buckets != [] && |buckets| == |counts|
    ensures x in RoundRobin(buckets[0], counts[0]) ==> x !in Compose(buckets[1..], counts[1..])
  {
    if x in RoundRobin(buckets[0], counts[0]) {
      assert x in buckets[0];
      BucketsDisjoint(cands, buckets, x);
      if x in Compose(buckets[1..], counts[1..]) {
        ComposeMembers(buckets[1..], counts[1..], x);
      }
    }
  }

  lemma {:induction false} ComposeRepeats(cands: seq<Cand>, buckets: Buckets, counts: seq<nat>, maxRepeats: nat, x: nat)
    requires AreBuckets(cands, buckets) && |buckets| == |counts|
    requires forall b :: 0 <= b < |buckets| ==> counts[b] <= |buckets[b]| * maxRepeats
    ensures multiset(Compose(buckets, counts))[x] <= maxRepeats
    decreases |buckets|
  {
    if buckets != [] {
      var head, rest := RoundRobin(buckets[0], counts[0]), Compose(buckets[1..], counts[1..]);
      BucketsTail(cands, buckets);
      RoundRobinRepeats(buckets[0], counts[0], maxRepeats, x);
      ComposeRepeats(cands, buckets[1..], counts[1..], maxRepeats, x);
      HeadAndRestDisjoint(cands, buckets, counts, x);
      assert x !in head ==> x !in multiset(head);
      assert x !in rest ==> x !in multiset(rest);
    }
  }

  /** Rows used at least once when every bucket is cycled. */
  ghost function DistinctRows(buckets: Buckets, counts: seq<nat>): nat
    requires |buckets| == |counts|
  {
    if buckets == [] then 0
    else Min(counts[0], |buckets[0]|) + DistinctRows(buckets[1..], counts[1..])
  }

  lemma {:induction false} ComposeDistinctRows(cands: seq<Cand>, buckets: Buckets, counts: seq<nat>)
    requires AreBuckets(cands, buckets) && |buckets| == |counts|
    ensures |Elements(Compose(buckets, counts))| == DistinctRows(buckets, counts)
    decreases |buckets|
  {
    if buckets == [] {
      assert Elements(Compose(buckets, counts)) == {};
    } else {
      var head, rest := RoundRobin(buckets[0], counts[0]), Compose(buckets[1..], counts[1..]);
      BucketsTail(cands, buckets);
      ComposeDistinctRows(cands, buckets[1..], counts[1..]);
      RoundRobinElements(buckets[0], counts[0]);
      assert Elements(head + rest) == Elements(head) + Elements(rest);
      forall x | x in head ensures x !in rest {
        HeadAndRestDisjoint(cands, buckets, counts, x);
      }
      assert Elements(head) !! Elements(rest);
    }
  }

  // ---------- joint lengths of a composition

  lemma {:induction false} LengthsAppend(cands: seq<Cand>, a: Mix, b: Mix)
    requires IsMix(cands, a) && IsMix(cands, b)
    ensures IsMix(cands, a + b) && Lengths(cands, a + b) == Lengths(cands, a) + Lengths(cands, b)
  {
  }

  lemma {:induction false} ConstantMultiset<T>(s: seq<T>, c: T)
    requires forall i :: 0 <= i < |s| ==> s[i] == c
    ensures multiset(s) == multiset{}[c := |s|]
  {
    if s != [] {
      ConstantMultiset(s[1..], c);
      HeadMultiset(s);
    }
  }

  /** A composition shows each bucket's joint length as often as it draws from the bucket. */
  lemma {:induction false} ComposeLengths(cands: seq<Cand>, buckets: Buckets, counts: seq<nat>, key: (real, real))
    requires AreBuckets(cands, buckets) && |buckets| == |counts|
    requires IsMix(cands, Compose(buckets, counts))
    ensures forall b :: 0 <= b < |buckets| && BucketLength(cands, buckets[b]) == key ==>
              multiset(Lengths(cands, Compose(buckets, counts)))[key] == counts[b]
    ensures (forall b :: 0 <= b < |buckets| ==> BucketLength(cands, buckets[b]) != key) ==>
              multiset(Lengths(cands, Compose(buckets, counts)))[key] == 0
    decreases |buckets|
  {
    if buckets != [] {
      var head, rest := RoundRobin(buckets[0], counts[0]), Compose(buckets[1..], counts[1..]);
      BucketsTail(cands, buckets);
      ComposeIsMix(cands, buckets[1..], counts[1..]);
      ComposeLengths(cands, buckets[1..], counts[1..], key);
      LengthsAppend(cands, head, rest);
      ConstantMultiset(Lengths(cands, head), BucketLength(cands, buckets[0]));
      var shown := multiset(Lengths(cands, rest))[key];
      assert multiset(Lengths(cands, head + rest))[key] == multiset(Lengths(cands, head))[key] + shown;
      forall b | 0 <= b < |buckets| && BucketLength(cands, buckets[b]) == key
        ensures multiset(Lengths(cands, head + rest))[key] == counts[b]
      {
        if b == 0 {
          forall c | 0 <= c < |buckets[1..]| ensures BucketLength(cands, buckets[1..][c]) != key {
            assert buckets[1..][c] == buckets[c + 1];
          }
        } else {
          assert buckets[1..][b - 1] == buckets[b] && counts[1..][b - 1] == counts[b];
        }
      }
      if forall b :: 0 <= b < |buckets| ==> BucketLength(cands, buckets[b]) != key {
        forall c | 0 <= c < |buckets[1..]| ensures BucketLength(cands, buckets[1..][c]) != key {
          assert buckets[1..][c] == buckets[c + 1];
        }
      }
    }
  }

  // ---------- from a row-level mix to its bucket counts

  /** How often `mix` draws from each bucket. */
  ghost function BucketCounts(cands: seq<Cand>, buckets: Buckets, mix: Mix): (counts: seq<nat>)
    requires AreBuckets(cands, buckets) && IsMix(cands, mix)
    ensures |counts| == |buckets|
  {
    seq(|buckets|, b requires 0 <= b < |buckets| =>
      multiset(Lengths(cands, mix))[BucketLength(cands, buckets[b])])
  }

  lemma {:induction false} TotalUpdate(v: seq<nat>, i: nat)
    requires i < |v|
    ensures Total(v[i := v[i] + 1]) == Total(v) + 1
  {
    if i > 0 {
      TotalUpdate(v[1..], i - 1);
      assert v[i := v[i] + 1][1..] == v[1..][i - 1 := v[1..][i - 1] + 1];
    } else {
      assert v[0 := v[0] + 1][1..] == v[1..];
    }
  }

  lemma {:induction false} TotalZero(v: seq<nat>)
    requires forall i :: 0 <= i < |v| ==> v[i] == 0
    ensures Total(v) == 0
  {
    if v != [] { TotalZero(v[1..]); }
  }

  lemma CoveringBucket(cands: seq<Cand>, buckets: Buckets, x: nat) returns (b: nat)
    requires AreBuckets(cands, buckets) && CoversAll(cands, buckets) && x < |cands|
    ensures b < |buckets| && x in buckets[b] && BucketLength(cands, buckets[b]) == LengthOf(cands, x)
  {
    assert Covers(buckets, x);
    b :| 0 <= b < |buckets| && x in buckets[b];
    var i :| 0 <= i < |buckets[b]| && buckets[b][i] == x;
    assert LengthOf(cands, buckets[b][i]) == LengthOf(cands, buckets[b][0]);
  }

  /** Every pick is counted in exactly one bucket. */
  lemma {:induction false} BucketCountsTotal(cands: seq<Cand>, buckets: Buckets, mix: Mix)
    requires AreBuckets(cands, buckets) && CoversAll(cands, buckets) && IsMix(cands, mix)
    ensures Total(BucketCounts(cands, buckets, mix)) == |mix|
  {
    var counts := BucketCounts(cands, buckets, mix);
    if mix == [] {
      TotalZero(counts);
    } else {
      var rest := mix[1..];
      BucketCountsTotal(cands, buckets, rest);
      var before := BucketCounts(cands, buckets, rest);
      var at := CoveringBucket(cands, buckets, mix[0]);
      HeadMultiset(Lengths(cands, mix));
      assert Lengths(cands, mix)[1..] == Lengths(cands, rest);
      forall b | 0 <= b < |buckets| ensures counts[b] == before[at := before[at] + 1][b] {
        if b < at {
          assert BucketLength(cands, buckets[b]) != BucketLength(cands, buckets[at]);
        } else if at < b {
          assert BucketLength(cands, buckets[at]) != BucketLength(cands, buckets[b]);
        }
      }
      assert counts == before[at := before[at] + 1];
      TotalUpdate(before, at);
    }
  }

  /** Cycling the bucket counts of a mix achieves exactly its joint lengths. */
  lemma ComposeMatches(cands: seq<Cand>, buckets: Buckets, mix: Mix)
    requires AreBuckets(cands, buckets) && CoversAll(cands, buckets) && IsMix(cands, mix)
    ensures IsMix(cands, Compose(buckets, BucketCounts(cands, buckets, mix)))
    ensures Permutation(Lengths(cands, Compose(buckets, BucketCounts(cands, buckets, mix))), Lengths(cands, mix))
  {
    var counts := BucketCounts(cands, buckets, mix);
    var composed := Compose(buckets, counts);
    ComposeIsMix(cands, buckets, counts);
    var a, b := multiset(Lengths(cands, composed)), multiset(Lengths(cands, mix));
    forall key ensures a[key] == b[key] {
      ComposeLengths(cands, buckets, counts, key);
      if k :| 0 <= k < |buckets| && BucketLength(cands, buckets[k]) == key {
        assert counts[k] == b[key];
      } else {
        forall i | 0 <= i < |mix| ensures Lengths(cands, mix)[i] != key {
          var k := CoveringBucket(cands, buckets, mix[i]);
        }
        assert key !in b;
      }
    }
    assert a == b;
  }

  // ---------- capacity and repeats of a row-level mix

  /** The picks of `mix` that fall in `rows`. */
  ghost function Picked(mix: Mix, rows: set<nat>): multiset<nat> {
    if mix == [] then multiset{}
    else (if mix[0] in rows then multiset{mix[0]} else multiset{}) + Picked(mix[1..], rows)
  }

  lemma {:induction false} PickedMultiplicity(mix: Mix, rows: set<nat>, x: nat)
    ensures Picked(mix, rows)[x] == if x in rows then multiset(mix)[x] else 0
  {
    if mix != [] {
      PickedMultiplicity(mix[1..], rows, x);
      HeadMultiset(mix);
    }
  }

  lemma InBucket(cands: seq<Cand>, buckets: Buckets, b: nat, x: nat)
    requires AreBuckets(cands, buckets) && CoversAll(cands, buckets) && b < |buckets| && x < |cands|
    ensures x in buckets[b] <==> LengthOf(cands, x) == BucketLength(cands, buckets[b])
  {
    if x in buckets[b] {
      var i :| 0 <= i < |buckets[b]| && buckets[b][i] == x;
      assert LengthOf(cands, buckets[b][i]) == LengthOf(cands, buckets[b][0]);
    } else {
      var c := CoveringBucket(cands, buckets, x);
      assert c != b;
      assert c < b ==> BucketLength(cands, buckets[c]) != BucketLength(cands, buckets[b]);
      assert b < c ==> BucketLength(cands, buckets[b]) != BucketLength(cands, buckets[c]);
    }
  }

  lemma {:induction false} PickedCount(cands: seq<Cand>, buckets: Buckets, b: nat, mix: Mix)
    requires AreBuckets(cands, buckets) && CoversAll(cands, buckets) && IsMix(cands, mix) && b < |buckets|
    ensures |Picked(mix, Elements(buckets[b]))| == BucketCounts(cands, buckets, mix)[b]
  {
    if mix != [] {
      PickedCount(cands, buckets, b, mix[1..]);
      InBucket(cands, buckets, b, mix[0]);
      HeadMultiset(Lengths(cands, mix));
      assert Lengths(cands, mix)[1..] == Lengths(cands, mix[1..]);
    }
  }

  lemma {:induction false} BoundedMultiset(m: multiset<nat>, rows: set<nat>, most: nat)
    requires forall x :: m[x] <= (if x in rows then most else 0)
    ensures |m| <= |rows| * most
    decreases rows
  {
    if rows == {} {
      assert m == multiset{};
    } else {
      var x :| x in rows;
      BoundedMultiset(m[x := 0], rows - {x}, most);
      assert (|rows| - 1) * most + most == |rows| * most;
    }
  }

  lemma {:induction false} SupportAtMost(m: multiset<nat>, rows: set<nat>)
    requires forall x :: x in rows ==> x in m
    ensures |rows| <= |m|
    decreases rows
  {
    if rows != {} {
      var x :| x in rows;
      SupportAtMost(m[x := 0], rows - {x});
    }
  }

  /** No mix draws more from a bucket than its rows times the repeat limit. */
  lemma BucketCountsCapped(cands: seq<Cand>, buckets: Buckets, mix: Mix, maxRepeats: nat, b: nat)
    requires AreBuckets(cands, buckets) && CoversAll(cands, buckets) && IsMix(cands, mix) && b < |buckets|
    requires RepeatsWithin(mix, maxRepeats)
    ensures BucketCounts(cands, buckets, mix)[b] <= |buckets[b]| * maxRepeats
  {
    var rows := Elements(buckets[b]);
    PickedCount(cands, buckets, b, mix);
    forall x ensures Picked(mix, rows)[x] <= if x in rows then maxRepeats else 0 {
      PickedMultiplicity(mix, rows, x);
    }
    BoundedMultiset(Picked(mix, rows), rows, maxRepeats);
    DistinctCardinality(buckets[b]);
  }

  lemma PickedDistinct(cands: seq<Cand>, buckets: Buckets, mix: Mix, b: nat)
    requires AreBuckets(cands, buckets) && CoversAll(cands, buckets) && IsMix(cands, mix) && b < |buckets|
    ensures |Elements(mix) * Elements(buckets[b])| <=
              Min(BucketCounts(cands, buckets, mix)[b], |buckets[b]|)
  {
    var used := Elements(mix) * Elements(buckets[b]);
    forall x | x in used ensures x in Picked(mix, Elements(buckets[b])) {
      PickedMultiplicity(mix, Elements(buckets[b]), x);
      assert x in multiset(mix);
    }
    SupportAtMost(Picked(mix, Elements(buckets[b])), used);
    PickedCount(cands, buckets, b, mix);
    DistinctCardinality(buckets[b]);
    SubsetAtMost(used, Elements(buckets[b]));
  }

  lemma SubsetAtMost(a: set<nat>, b: set<nat>)
    requires a <= b
    ensures |a| <= |b|
  {
    assert b == a + (b - a);
  }

  lemma CoveredLater(buckets: Buckets, x: nat)
    requires buckets != [] && Covers(buckets, x) && x !in buckets[0]
    ensures Covers(buckets[1..], x)
  {
    var b :| 0 <= b < |buckets| && x in buckets[b];
    assert buckets[1..][b - 1] == buckets[b];
  }

  lemma {:induction false} DistinctRowsBound(buckets: Buckets, counts: seq<nat>, used: set<nat>)
    requires |buckets| == |counts|
    requires forall x :: x in used ==> Covers(buckets, x)
    requires forall b :: 0 <= b < |buckets| ==> |used * Elements(buckets[b])| <= Min(counts[b], |buckets[b]|)
    ensures |used| <= DistinctRows(buckets, counts)
    decreases |buckets|
  {
    if buckets == [] {
      assert forall x :: x !in used by { assert forall x :: x in used ==> Covers(buckets, x); }
      assert used == {};
    } else {
      var here := Elements(buckets[0]);
      var later := used - here;
      forall x | x in later ensures Covers(buckets[1..], x) {
        CoveredLater(buckets, x);
      }
      forall b | 0 <= b < |buckets[1..]|
        ensures |later * Elements(buckets[1..][b])| <= Min(counts[1..][b], |buckets[1..][b]|)
      {
        assert buckets[1..][b] == buckets[b + 1] && counts[1..][b] == counts[b + 1];
        SubsetAtMost(later * Elements(buckets[b + 1]), used * Elements(buckets[b + 1]));
      }
      DistinctRowsBound(buckets[1..], counts[1..], later);
      assert used == (used * here) + later;
      assert |used| == |used * here| + |later|;
    }
  }

  /** Cycling uses at least as many different rows, so it repeats no more. */
  lemma ComposeRepeatsLeast(cands: seq<Cand>, buckets: Buckets, mix: Mix)
    requires AreBuckets(cands, buckets) && CoversAll(cands, buckets) && IsMix(cands, mix)
    ensures ExtraCopies(Compose(buckets, BucketCounts(cands, buckets, mix))) <= ExtraCopies(mix)
  {
    var counts := BucketCounts(cands, buckets, mix);
    BucketCountsTotal(cands, buckets, mix);
    ComposeDistinctRows(cands, buckets, counts);
    forall b | 0 <= b < |buckets| ensures |Elements(mix) * Elements(buckets[b])| <= Min(counts[b], |buckets[b]|) {
      PickedDistinct(cands, buckets, mix, b);
    }
    forall x | x in Elements(mix) ensures Covers(buckets, x) {
      var i :| 0 <= i < |mix| && mix[i] == x;
      assert mix[i] < |cands|;
    }
    DistinctRowsBound(buckets, counts, Elements(mix));
  }

  // ---------- the caps of the search (src/prompt_library.rs:566-575)

  function CapsOf(buckets: Buckets, req: SelectRequest): (caps: seq<nat>)
    ensures |caps| == |buckets|
  {
    seq(|buckets|, b requires 0 <= b < |buckets| => Min(|buckets[b]| * req.maxRepeats, MaxLen(req)))
  }

  /** Every vector within the caps, of a permitted length, composes to a permitted mix. */
  lemma CompositionWithinLimits(cands: seq<Cand>, buckets: Buckets, req: SelectRequest, n: nat, v: seq<nat>)
    requires AreBuckets(cands, buckets) && MinLen(req) <= n <= MaxLen(req)
    requires IsComposition(CapsOf(buckets, req), n, v)
    ensures WithinLimits(cands, req, Compose(buckets, v))
  {
    ComposeIsMix(cands, buckets, v);
    forall x ensures multiset(Compose(buckets, v))[x] <= req.maxRepeats {
      ComposeRepeats(cands, buckets, v, req.maxRepeats, x);
    }
  }

  /** The bucket-to-row reduction: clipping the caps and the length loses no permitted mix. */
  lemma MixHasComposition(cands: seq<Cand>, buckets: Buckets, req: SelectRequest, mix: Mix) returns (v: seq<nat>)
    requires AreBuckets(cands, buckets) && CoversAll(cands, buckets) && WithinLimits(cands, req, mix)
    ensures IsComposition(CapsOf(buckets, req), |mix|, v)
    ensures WithinLimits(cands, req, Compose(buckets, v))
    ensures ScoreOf(cands, req, Compose(buckets, v)).excess == ScoreOf(cands, req, mix).excess
    ensures ScoreOf(cands, req, Compose(buckets, v)).countDev == ScoreOf(cands, req, mix).countDev
    ensures ScoreOf(cands, req, Compose(buckets, v)).extraCopies <= ScoreOf(cands, req, mix).extraCopies
  {
    v := BucketCounts(cands, buckets, mix);
    BucketCountsTotal(cands, buckets, mix);
    forall b | 0 <= b < |v| ensures v[b] <= CapsOf(buckets, req)[b] {
      BucketCountsCapped(cands, buckets, mix, req.maxRepeats, b);
      EntryAtMostTotal(v, b);
    }
    CompositionWithinLimits(cands, buckets, req, |mix|, v);
    ComposeMatches(cands, buckets, mix);
    SameLengthsSameExcess(cands, req, Compose(buckets, v), mix);
    ComposeRepeatsLeast(cands, buckets, mix);
  }

  lemma {:induction false} EntryAtMostTotal(v: seq<nat>, b: nat)
    requires b < |v|
    ensures v[b] <= Total(v)
  {
    if b > 0 { EntryAtMostTotal(v[1..], b - 1); }
  }
}
