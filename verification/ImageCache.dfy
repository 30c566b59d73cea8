/** The bounded image cache (src/vlm.rs:29-98, 191): a map and a recency queue. */
module ImageCache {
  import opened Sequences

  // ---------- recency

  function Remove(s: seq<string>, k: string): seq<string> {
    if s == [] then [] else (if s[0] == k then [] else [s[0]]) + Remove(s[1..], k)
  }

  /** `k` becomes the most recent key. */
  function Move(s: seq<string>, k: string): seq<string> { Remove(s, k) + [k] }

  /** Touched keys without repetition, least recent first. */
  function Recency(touches: seq<string>): seq<string> {
    if touches == [] then [] else Move(Recency(touches[..|touches| - 1]), touches[|touches| - 1])
  }

  /** The `c` most recent ones. */
  function Newest(s: seq<string>, c: nat): seq<string> {
    if |s| <= c then s else s[|s| - c..]
  }

  lemma {:induction false} RemoveAppend(a: seq<string>, b: seq<string>, k: string)
    ensures Remove(a + b, k) == Remove(a, k) + Remove(b, k)
  {
    if a == [] {
      assert a + b == b;
    } else {
      assert (a + b)[1..] == a[1..] + b;
      RemoveAppend(a[1..], b, k);
    }
  }

  lemma {:induction false} RemoveAbsent(s: seq<string>, k: string)
    requires k !in s
    ensures Remove(s, k) == s
  {
    if s != [] {
      RemoveAbsent(s[1..], k);
      assert s == [s[0]] + s[1..];
    }
  }

  lemma {:induction false} RemoveMembers(s: seq<string>, k: string, x: string)
    ensures x in Remove(s, k) <==> x in s && x != k
  {
    if s != [] {
      RemoveMembers(s[1..], k, x);
      assert s == [s[0]] + s[1..];
    }
  }

  lemma {:induction false} RemoveDistinct(s: seq<string>, k: string)
    requires Distinct(s)
    ensures Distinct(Remove(s, k))
  {
    if s != [] {
      var t := s[1..];
      assert forall i, j :: 0 <= i < j < |t| ==> t[i] == s[i + 1] && t[j] == s[j + 1];
      RemoveDistinct(t, k);
      RemoveMembers(t, k, s[0]);
    }
  }

  lemma {:induction false} MoveDistinct(s: seq<string>, k: string)
    requires Distinct(s)
    ensures Distinct(Move(s, k))
  {
    RemoveDistinct(s, k);
    RemoveMembers(s, k, k);
  }

  lemma {:induction false} RecencyDistinct(touches: seq<string>)
    ensures Distinct(Recency(touches))
  {
    if touches != [] {
      RecencyDistinct(touches[..|touches| - 1]);
      MoveDistinct(Recency(touches[..|touches| - 1]), touches[|touches| - 1]);
    }
  }

  /** `x` stands somewhere before `y`. */
  ghost predicate Precedes(s: seq<string>, x: string, y: string) {
    exists a, b :: 0 <= a < b < |s| && s[a] == x && s[b] == y
  }

  lemma PrecedesCons(h: string, s: seq<string>, x: string, y: string)
    ensures Precedes([h] + s, x, y) <==> (h == x && y in s) || Precedes(s, x, y)
  {
    if Precedes(s, x, y) { StillPrecedes(h, s, x, y); }
    if h == x && y in s { HeadPrecedes(s, x, y); }
    if Precedes([h] + s, x, y) { PrecededBefore(h, s, x, y); }
  }

  lemma StillPrecedes(h: string, s: seq<string>, x: string, y: string)
    requires Precedes(s, x, y)
    ensures Precedes([h] + s, x, y)
  {
    var t := [h] + s;
    var a, b :| 0 <= a < b < |s| && s[a] == x && s[b] == y;
    assert t[a + 1] == x && t[b + 1] == y;
  }

  lemma HeadPrecedes(s: seq<string>, x: string, y: string)
    requires y in s
    ensures Precedes([x] + s, x, y)
  {
    var t := [x] + s;
    var b :| 0 <= b < |s| && s[b] == y;
    assert t[0] == x && t[b + 1] == y;
  }

  lemma PrecededBefore(h: string, s: seq<string>, x: string, y: string)
    requires Precedes([h] + s, x, y)
    ensures (h == x && y in s) || Precedes(s, x, y)
  {
    var t := [h] + s;
    var a, b :| 0 <= a < b < |t| && t[a] == x && t[b] == y;
    assert s[b - 1] == y;
    if a > 0 { assert 0 <= a - 1 < b - 1 < |s| && s[a - 1] == x; }
  }

  lemma {:induction false} RemovePrecedes(s: seq<string>, k: string, x: string, y: string)
    requires x != k && y != k
    ensures Precedes(Remove(s, k), x, y) <==> Precedes(s, x, y)
  {
    hide Precedes;
    if s != [] {
      var rest := Remove(s[1..], k);
      RemovePrecedes(s[1..], k, x, y);
      RemoveMembers(s[1..], k, y);
      assert s == [s[0]] + s[1..];
      PrecedesCons(s[0], s[1..], x, y);
      PrecedesCons(s[0], rest, x, y);
      assert [] + rest == rest;
    }
  }

  lemma PrecedesSnoc(s: seq<string>, k: string, x: string, y: string)
    ensures Precedes(s + [k], x, y) <==> (k == y && x in s) || Precedes(s, x, y)
  {
    var t := s + [k];
    assert t[|s|] == k && forall i :: 0 <= i < |s| ==> t[i] == s[i];
    if k == y && x in s {
      var a :| 0 <= a < |s| && s[a] == x;
      assert t[a] == x && t[|s|] == y;
    }
    if Precedes(s, x, y) {
      var a, b :| 0 <= a < b < |s| && s[a] == x && s[b] == y;
      assert t[a] == x && t[b] == y;
    }
  }

  /** `y` was touched after the last touch of `x`. */
  ghost predicate TouchedAfter(touches: seq<string>, x: string, y: string) {
    exists j :: 0 <= j < |touches| && touches[j] == y && x !in touches[j..]
  }

  lemma TouchedAfterSnoc(t: seq<string>, k: string, x: string, y: string)
    requires x != y
    ensures TouchedAfter(t + [k], x, y) <==> k != x && (k == y || TouchedAfter(t, x, y))
  {
    var more := t + [k];
    assert more[|t|] == k && more[|t|..] == [k];
    if k == y { assert more[|t|] == y && x !in more[|t|..]; }
    if k != x && TouchedAfter(t, x, y) {
      var j :| 0 <= j < |t| && t[j] == y && x !in t[j..];
      assert more[j] == y && more[j..] == t[j..] + [k];
    }
    if TouchedAfter(more, x, y) {
      var j :| 0 <= j < |more| && more[j] == y && x !in more[j..];
      assert more[j..][|t| - j] == k;
      assert j < |t| ==> t[j] == y && more[j..] == t[j..] + [k];
    }
  }

  lemma {:induction false} RecencyMembers(touches: seq<string>, x: string)
    ensures x in Recency(touches) <==> x in touches
  {
    if touches != [] {
      var front, k := touches[..|touches| - 1], touches[|touches| - 1];
      RecencyMembers(front, x);
      RemoveMembers(Recency(front), k, x);
      assert touches == front + [k];
    }
  }

  /** The recency list holds every touched key, in the order of the last touches. */
  lemma {:induction false} RecencyOrder(touches: seq<string>, x: string, y: string)
    requires x != y && x in touches && y in touches
    ensures Precedes(Recency(touches), x, y) <==> TouchedAfter(touches, x, y)
  {
    hide Precedes, TouchedAfter, Remove;
    var front, k := touches[..|touches| - 1], touches[|touches| - 1];
    var s := Recency(front);
    assert touches == front + [k];
    TouchedAfterSnoc(front, k, x, y);
    PrecedesSnoc(Remove(s, k), k, x, y);
    RecencyMembers(front, x);
    RemoveMembers(s, k, x);
    if k == x {
      NotPreceding(Remove(s, k), x, y);
    } else if k != y {
      RemovePrecedes(s, k, x, y);
      RecencyOrder(front, x, y);
    }
  }

  lemma NotPreceding(s: seq<string>, x: string, y: string)
    requires x !in s
    ensures !Precedes(s, x, y)
  {
  }

  /** Removing the one occurrence at `pos` is removing the key. */
  lemma {:induction false} RemoveAt(s: seq<string>, pos: nat)
    requires Distinct(s) && pos < |s|
    ensures s[..pos] + s[pos + 1..] == Remove(s, s[pos])
    ensures |Remove(s, s[pos])| == |s| - 1
  {
    hide Remove;
    var k := s[pos];
    assert s == s[..pos] + ([k] + s[pos + 1..]);
    RemoveAppend(s[..pos], [k] + s[pos + 1..], k);
    RemoveAppend([k], s[pos + 1..], k);
    RemoveSingle(k);
    RemoveAbsent(s[..pos], k);
    RemoveAbsent(s[pos + 1..], k);
  }

  lemma RemoveSingle(k: string)
    ensures Remove([k], k) == []
  {
    assert [k][1..] == [];
  }

  /** How a bounded queue follows the unbounded recency list. */
  function Touch(order: seq<string>, c: nat, k: string): seq<string> {
    if k in order then Move(order, k)
    else if |order| < c then order + [k]
    else if order == [] then [k]
    else order[1..] + [k]
  }

  lemma {:induction false} TouchHit(p: seq<string>, q: seq<string>, c: nat, k: string)
    requires Distinct(p + q) && k in q && (|q| == c || (p == [] && |q| <= c))
    ensures Move(q, k) == Newest(Move(p + q, k), c)
  {
    hide Remove, Newest;
    var pos :| 0 <= pos < |q| && q[pos] == k;
    SuffixDistinct(p + q, |p|, pos);
    assert (p + q)[|p|..] == q && (p + q)[..|p|] == p && (p + q)[|p| + pos] == k;
    RemoveAppend(p, q, k);
    RemoveAt(q, pos);
    RemoveAbsent(p, k);
    assert Move(p + q, k) == p + Move(q, k);
    NewestOf(p, Move(q, k), c);
  }

  lemma {:induction false} TouchMiss(p: seq<string>, q: seq<string>, c: nat, k: string)
    requires k !in q && c >= 1 && (|q| == c || (p == [] && |q| < c))
    ensures Touch(q, c, k) == Newest(Move(p + q, k), c)
  {
    hide Remove, Newest;
    RemoveAppend(p, q, k);
    RemoveAbsent(q, k);
    assert Move(p + q, k) == Remove(p, k) + (q + [k]);
    if |q| < c { RemoveAbsent(p, k); }
    NewestOf(Remove(p, k), q + [k], c);
    if q != [] { assert (q + [k])[1..] == q[1..] + [k]; }
  }

  /** Touching commutes with keeping only the newest keys. */
  lemma {:induction false} TouchFollows(s: seq<string>, c: nat, k: string)
    requires Distinct(s) && c >= 1
    ensures Touch(Newest(s, c), c, k) == Newest(Move(s, k), c)
  {
    hide Move, Remove;
    var q := Newest(s, c);
    var p := s[..|s| - |q|];
    assert s == p + q;
    if k in q { TouchHit(p, q, c, k); } else { TouchMiss(p, q, c, k); }
  }

  lemma NewestOf(p: seq<string>, m: seq<string>, c: nat)
    requires |m| == c || |m| == c + 1 || (p == [] && |m| <= c)
    ensures |m| <= c ==> Newest(p + m, c) == m
    ensures |m| == c + 1 ==> Newest(p + m, c) == m[1..]
  {
    assert p == [] ==> p + m == m;
  }

  lemma SuffixDistinct(s: seq<string>, cut: nat, pos: nat)
    requires Distinct(s) && cut + pos < |s|
    ensures Distinct(s[cut..]) && s[cut + pos] !in s[..cut]
  {
  }

  // ---------- the cache

  datatype State<V> = State(images: map<string, V>, order: seq<string>)

  ghost predicate Consistent<V>(st: State<V>, capacity: nat) {
    capacity >= 1 && Distinct(st.order) && Elements(st.order) == st.images.Keys && |st.order| <= capacity
  }

  function AfterGet<V>(st: State<V>, k: string): State<V> {
    if k in st.images then State(st.images, Move(st.order, k)) else st
  }

  function AfterPut<V>(st: State<V>, capacity: nat, k: string, v: V): State<V> {
    var evicts := k !in st.images && |st.images| >= capacity && st.order != [];
    var kept := if evicts then st.images - {st.order[0]} else st.images;
    State(kept[k := v], Touch(st.order, capacity, k))
  }

  lemma {:induction false} KeysCount<V>(st: State<V>, capacity: nat)
    requires Consistent(st, capacity)
    ensures |st.images| == |st.order|
  {
    DistinctCardinality(st.order);
  }

  lemma {:induction false} GetKeeps<V>(st: State<V>, capacity: nat, k: string)
    requires Consistent(st, capacity)
    ensures Consistent(AfterGet(st, k), capacity)
  {
    if k in st.images {
      var pos :| 0 <= pos < |st.order| && st.order[pos] == k;
      RemoveAt(st.order, pos);
      MoveDistinct(st.order, k);
      forall x ensures x in Move(st.order, k) <==> x in st.order { RemoveMembers(st.order, k, x); }
    }
  }

  lemma {:induction false} PutKeeps<V>(st: State<V>, capacity: nat, k: string, v: V)
    requires Consistent(st, capacity)
    ensures Consistent(AfterPut(st, capacity, k, v), capacity)
  {
    KeysCount(st, capacity);
    if k in st.images {
      GetKeeps(st, capacity, k);
      assert k in st.order;
    } else if |st.order| >= capacity {
      AppendKeeps(State(st.images - {st.order[0]}, st.order[1..]), capacity, k, v) by { TailConsistent(st, capacity); }
    } else {
      AppendKeeps(st, capacity, k, v);
    }
  }

  lemma TailConsistent<V>(st: State<V>, capacity: nat)
    requires Consistent(st, capacity) && st.order != []
    ensures Consistent(State(st.images - {st.order[0]}, st.order[1..]), capacity)
  {
    assert forall x :: x in st.order[1..] <==> x in st.order && x != st.order[0];
  }

  lemma AppendKeeps<V>(st: State<V>, capacity: nat, k: string, v: V)
    requires Consistent(st, capacity) && k !in st.images && |st.order| < capacity
    ensures Consistent(State(st.images[k := v], st.order + [k]), capacity)
  {
    assert k !in st.order;
  }

  class Cache<V> {
    var images: map<string, V>
    var order: seq<string>
    const capacity: nat

    ghost predicate Valid()
      reads this
    {
      Consistent(Contents(), capacity)
    }

    ghost function Contents(): State<V>
      reads this
    {
      State(images, order)
    }

    constructor (capacity: nat)
      requires capacity >= 1
      ensures Valid() && Contents() == State(map[], []) && this.capacity == capacity
    {
      images, order := map[], [];
      this.capacity := capacity;
      new;
      assert Elements(order) == {};
    }

    method Get(key: string) returns (r: Option<V>)
      requires Valid()
      modifies this
      ensures Valid() && Contents() == AfterGet(old(Contents()), key)
      ensures r == if key in old(images) then Some(old(images)[key]) else None
    {
      GetKeeps(Contents(), capacity, key);
      if key !in images {
        return None;
      }
      var pos := 0;
      while order[pos] != key
        invariant 0 <= pos < |order| && key !in order[..pos] && key in order
        decreases |order| - pos
      {
        assert order[..pos + 1] == order[..pos] + [order[pos]];
        assert key in order[pos + 1..] by { assert order == order[..pos + 1] + order[pos + 1..]; }
        pos := pos + 1;
      }
      RemoveAt(order, pos);
      order := order[..pos] + order[pos + 1..] + [key];
      return Some(images[key]);
    }

    method Put(key: string, value: V)
      requires Valid()
      modifies this
      ensures Valid() && Contents() == AfterPut(old(Contents()), capacity, key, value)
    {
      PutKeeps(Contents(), capacity, key, value);
      KeysCount(Contents(), capacity);
      if key in images {
        order := Remove(order, key);
      } else if |images| >= capacity {
        if order != [] {
          images := images - {order[0]};
          order := order[1..];
        }
      }
      order := order + [key];
      images := images[key := value];
    }

    /** A hit touches the key; a miss loads and puts it; a failed load changes nothing. */
    method GetOrLoad(key: string, loaded: Option<V>) returns (r: Option<V>)
      requires Valid()
      modifies this
      ensures Valid()
      ensures key in old(images) ==> r == Some(old(images)[key]) && Contents() == AfterGet(old(Contents()), key)
      ensures key !in old(images) && loaded.Some? ==>
                r == loaded && Contents() == AfterPut(old(Contents()), capacity, key, loaded.value)
      ensures key !in old(images) && loaded.None? ==> r == None && Contents() == old(Contents())
    {
      r := Get(key);
      if r.Some? {
        return;
      }
      if loaded.Some? {
        Put(key, loaded.value);
        r := loaded;
      }
    }
  }

  /** No cache for a capacity of zero. */
  method NewCache<V>(capacity: nat) returns (cache: Cache?<V>)
    ensures cache == null <==> capacity == 0
    ensures cache != null ==>
      fresh(cache) && cache.Valid() && cache.Contents() == State(map[], []) && cache.capacity == capacity
  {
    if capacity == 0 {
      return null;
    }
    cache := new Cache(capacity);
  }

  // ---------- every run of gets and puts

  datatype Op<V> = GetOp(key: string) | PutOp(key: string, value: V)

  function Apply<V>(st: State<V>, capacity: nat, op: Op<V>): State<V> {
    match op
    case GetOp(k) => AfterGet(st, k)
    case PutOp(k, v) => AfterPut(st, capacity, k, v)
  }

  function RunOps<V>(capacity: nat, ops: seq<Op<V>>): State<V> {
    if ops == [] then State(map[], []) else Apply(RunOps(capacity, ops[..|ops| - 1]), capacity, ops[|ops| - 1])
  }

  /** Keys touched so far: every put, and every get that hit. */
  function Touches<V>(capacity: nat, ops: seq<Op<V>>): seq<string> {
    if ops == [] then []
    else
      var before, op := ops[..|ops| - 1], ops[|ops| - 1];
      Touches(capacity, before)
      + if op.PutOp? || op.key in RunOps(capacity, before).images then [op.key] else []
  }

  function LastPut<V>(ops: seq<Op<V>>, k: string): Option<V> {
    if ops == [] then None
    else
      var op := ops[|ops| - 1];
      if op.PutOp? && op.key == k then Some(op.value) else LastPut(ops[..|ops| - 1], k)
  }

  /** After any run the cache holds exactly the most recently touched keys, in recency order,
      with their last-put values. */
  lemma {:induction false} CacheIsRecency<V>(capacity: nat, ops: seq<Op<V>>)
    requires capacity >= 1
    ensures Follows(RunOps(capacity, ops), capacity, Touches(capacity, ops), ops)
  {
    hide Follows, Apply;
    if ops == [] {
      NothingFollows<V>(capacity);
    } else {
      var before, op := ops[..|ops| - 1], ops[|ops| - 1];
      CacheIsRecency(capacity, before);
      var st, touched := RunOps(capacity, before), Touches(capacity, before);
      OpKeeps(st, capacity, touched, before, op);
      assert before + [op] == ops;
    }
  }

  lemma NothingFollows<V>(capacity: nat)
    requires capacity >= 1
    ensures Follows(RunOps<V>(capacity, []), capacity, Touches<V>(capacity, []), [])
  {
    assert Elements<string>([]) == {};
  }

  /** `st` holds the newest keys of `touched`, with the last values `ops` put. */
  ghost predicate Follows<V>(st: State<V>, capacity: nat, touched: seq<string>, ops: seq<Op<V>>) {
    && Consistent(st, capacity)
    && st.order == Newest(Recency(touched), capacity)
    && forall k :: k in st.images ==> LastPut(ops, k) == Some(st.images[k])
  }

  lemma OpKeeps<V>(st: State<V>, capacity: nat, touched: seq<string>, before: seq<Op<V>>, op: Op<V>)
    requires Follows(st, capacity, touched, before)
    ensures var touch := if op.PutOp? || op.key in st.images then [op.key] else [];
      Follows(Apply(st, capacity, op), capacity, touched + touch, before + [op])
  {
    hide Recency, Newest, Consistent, LastPut, Touch, Move;
    match op {
      case GetOp(k) =>
        GetKeeps(st, capacity, k);
        GetFollows(st, capacity, touched, k);
        LastPutAfterGet(before, k);
      case PutOp(k, v) =>
        PutKeeps(st, capacity, k, v);
        PutFollows(st, capacity, touched, k, v);
        LastPutAfterPut(before, k, v, st.images, AfterPut(st, capacity, k, v).images);
    }
  }

  /** One more touch of the recency list, cut to the newest keys. */
  lemma TouchRecency(touched: seq<string>, capacity: nat, k: string)
    requires capacity >= 1
    ensures Touch(Newest(Recency(touched), capacity), capacity, k) == Newest(Recency(touched + [k]), capacity)
  {
    RecencyDistinct(touched);
    TouchFollows(Recency(touched), capacity, k);
    assert (touched + [k])[..|touched|] == touched;
    assert Recency(touched + [k]) == Move(Recency(touched), k);
  }

  lemma GetFollows<V>(st: State<V>, capacity: nat, touched: seq<string>, k: string)
    requires Consistent(st, capacity) && st.order == Newest(Recency(touched), capacity)
    ensures AfterGet(st, k).order == Newest(Recency(touched + if k in st.images then [k] else []), capacity)
  {
    hide Recency, Newest;
    if k in st.images {
      TouchRecency(touched, capacity, k);
      assert k in Elements(st.order);
    } else {
      assert touched + [] == touched;
    }
  }

  lemma PutFollows<V>(st: State<V>, capacity: nat, touched: seq<string>, k: string, v: V)
    requires Consistent(st, capacity) && st.order == Newest(Recency(touched), capacity)
    ensures AfterPut(st, capacity, k, v).order == Newest(Recency(touched + [k]), capacity)
  {
    hide Recency, Newest;
    TouchRecency(touched, capacity, k);
  }

  lemma LastPutAfterGet<V>(before: seq<Op<V>>, k: string)
    ensures forall x :: LastPut(before + [GetOp(k)], x) == LastPut(before, x)
  {
    assert (before + [GetOp(k)])[..|before|] == before;
  }

  lemma LastPutAfterPut<V>(before: seq<Op<V>>, k: string, v: V, was: map<string, V>, now: map<string, V>)
    requires forall x :: x in was ==> LastPut(before, x) == Some(was[x])
    requires k in now && now[k] == v && forall x :: x in now && x != k ==> x in was && now[x] == was[x]
    ensures forall x :: x in now ==> LastPut(before + [PutOp(k, v)], x) == Some(now[x])
  {
    assert (before + [PutOp(k, v)])[..|before|] == before;
  }

  // ---------- a larger cache never misses more

  function Access<V>(st: State<V>, capacity: nat, load: string -> V, k: string): State<V> {
    if k in st.images then AfterGet(st, k) else AfterPut(st, capacity, k, load(k))
  }

  function RunAccesses<V>(capacity: nat, load: string -> V, keys: seq<string>): State<V> {
    if keys == [] then State(map[], [])
    else Access(RunAccesses(capacity, load, keys[..|keys| - 1]), capacity, load, keys[|keys| - 1])
  }

  function Misses<V>(capacity: nat, load: string -> V, keys: seq<string>): nat {
    if keys == [] then 0
    else
      Misses(capacity, load, keys[..|keys| - 1])
      + if keys[|keys| - 1] in RunAccesses(capacity, load, keys[..|keys| - 1]).images then 0 else 1
  }

  lemma {:induction false} AccessesAreRecency<V>(capacity: nat, load: string -> V, keys: seq<string>)
    requires capacity >= 1
    ensures var st := RunAccesses(capacity, load, keys);
      Consistent(st, capacity) && st.order == Newest(Recency(keys), capacity)
  {
    if keys == [] {
      assert Elements<string>([]) == {};
    } else {
      var before, k := keys[..|keys| - 1], keys[|keys| - 1];
      AccessesAreRecency(capacity, load, before);
      var st := RunAccesses(capacity, load, before);
      RecencyDistinct(before);
      TouchFollows(Recency(before), capacity, k);
      GetKeeps(st, capacity, k);
      PutKeeps(st, capacity, k, load(k));
    }
  }

  /** The inclusion property of recency queues. */
  lemma {:induction false} SmallerContained<V>(capacity: nat, load: string -> V, keys: seq<string>)
    requires capacity >= 1
    ensures RunAccesses(capacity, load, keys).images.Keys <= RunAccesses(capacity + 1, load, keys).images.Keys
  {
    hide Recency, RunAccesses, Newest, Elements, Consistent;
    CachedKeys(capacity, load, keys);
    CachedKeys(capacity + 1, load, keys);
    NewestNested(Recency(keys), capacity);
  }

  lemma CachedKeys<V>(capacity: nat, load: string -> V, keys: seq<string>)
    requires capacity >= 1
    ensures RunAccesses(capacity, load, keys).images.Keys == Elements(Newest(Recency(keys), capacity))
  {
    hide Recency, RunAccesses, Newest, Elements;
    AccessesAreRecency(capacity, load, keys);
  }

  lemma NewestNested(s: seq<string>, c: nat)
    ensures Elements(Newest(s, c)) <= Elements(Newest(s, c + 1))
  {
    forall k | k in Newest(s, c) ensures k in Newest(s, c + 1) { NewestGrows(s, c, k); }
  }

  lemma NewestGrows(s: seq<string>, c: nat, k: string)
    requires k in Newest(s, c)
    ensures k in Newest(s, c + 1)
  {
    var p, q := Newest(s, c), Newest(s, c + 1);
    var i :| 0 <= i < |p| && p[i] == k;
    assert q[i + |q| - |p|] == k;
  }

  lemma {:induction false} MissesShrink<V>(capacity: nat, load: string -> V, keys: seq<string>)
    requires capacity >= 1
    ensures Misses(capacity + 1, load, keys) <= Misses(capacity, load, keys)
  {
    if keys != [] {
      MissesShrink(capacity, load, keys[..|keys| - 1]);
      SmallerContained(capacity, load, keys[..|keys| - 1]);
    }
  }

  /** For any two capacities, not just neighbours. */
  lemma {:induction false} MissesMonotone<V>(small: nat, large: nat, load: string -> V, keys: seq<string>)
    requires 1 <= small <= large
    ensures Misses(large, load, keys) <= Misses(small, load, keys)
    decreases large - small
  {
    hide Misses;
    if small < large {
      MissesShrink(small, load, keys);
      MissesMonotone(small + 1, large, load, keys);
    }
  }
}
