/** Weighted endpoint lists, endpoint selection and leases (src/endpoints.rs:73-183, 342-384).
    The atomic counter behind round robin wraps at `wrap`, the number of values of a machine word;
    clocks are parameters. */
module Endpoints {
  import opened Sequences
  import opened Modulo

  datatype Endpoint = Endpoint(url: string, key: string, name: string)
  datatype Config = Config(url: string, key: string, name: Option<string>, weight: Option<nat>)
  datatype LoadError = NoEndpoints | EmptyUrl | BadUrl(url: string) | EmptyKey
  datatype Loaded = Loaded(list: seq<Endpoint>, weights: seq<(string, nat)>) | Refused(error: LoadError)

  /** String routines outside this model. */
  datatype Rules = Rules(trim: string -> string, validUrl: string -> bool, hostname: string -> string)

  // ---------- weight expansion

  function Weight(c: Config): nat {
    var w := if c.weight.Some? then c.weight.value else 1;
    if w >= 1 then w else 1
  }

  function EntryOf(c: Config, r: Rules): Endpoint {
    var url := r.trim(c.url);
    Endpoint(url, r.trim(c.key), if c.name.Some? && c.name.value != "" then c.name.value else r.hostname(url))
  }

  function Complaint(c: Config, r: Rules): Option<LoadError> {
    var url := r.trim(c.url);
    if url == "" then Some(EmptyUrl)
    else if !r.validUrl(url) then Some(BadUrl(url))
    else if r.trim(c.key) == "" then Some(EmptyKey)
    else None
  }

  function Repeat(e: Endpoint, n: nat): (r: seq<Endpoint>) { seq(n, _ => e) }

  /** Each entry as often as its weight, in file order. */
  function Expanded(configs: seq<Config>, r: Rules): seq<Endpoint> {
    if configs == [] then []
    else
      var n := |configs| - 1;
      Expanded(configs[..n], r) + Repeat(EntryOf(configs[n], r), Weight(configs[n]))
  }

  function Named(c: Config, r: Rules): (string, nat) { (EntryOf(c, r).name, Weight(c)) }

  lemma RepeatNext(before: seq<Endpoint>, e: Endpoint, n: nat)
    ensures before + Repeat(e, n) + [e] == before + Repeat(e, n + 1)
    ensures before + Repeat(e, 0) == before
  {
  }

  /** Entry `i` is the first one refused, and `error` says why. */
  ghost predicate FirstComplaint(configs: seq<Config>, r: Rules, i: nat, error: LoadError) {
    i < |configs| && Complaint(configs[i], r) == Some(error) && NoComplaint(configs, r, i)
  }

  ghost predicate NoComplaint(configs: seq<Config>, r: Rules, n: nat) {
    n <= |configs| && forall j :: 0 <= j < n ==> Complaint(configs[j], r).None?
  }

  method LoadEndpoints(configs: seq<Config>, r: Rules) returns (loaded: Loaded)
    ensures configs == [] ==> loaded == Refused(NoEndpoints)
    ensures loaded.Loaded? ==>
      && NoComplaint(configs, r, |configs|)
      && loaded.list == Expanded(configs, r)
      && |loaded.weights| == |configs|
      && forall i :: 0 <= i < |configs| ==> loaded.weights[i] == Named(configs[i], r)
    ensures loaded.Refused? && configs != [] ==>
      exists i :: 0 <= i < |configs| && FirstComplaint(configs, r, i, loaded.error)
  {
    if configs == [] {
      return Refused(NoEndpoints);
    }
    assert configs[..0] == [] && Expanded([], r) == [];
    hide Expanded, Repeat;
    var list: seq<Endpoint>, weights: seq<(string, nat)> := [], [];
    for i := 0 to |configs|
      invariant NoComplaint(configs, r, i)
      invariant list == Expanded(configs[..i], r)
      invariant |weights| == i && forall j :: 0 <= j < i ==> weights[j] == Named(configs[j], r)
    {
      var c := configs[i];
      var url, key := r.trim(c.url), r.trim(c.key);
      if url == "" {
        assert FirstComplaint(configs, r, i, EmptyUrl);
        return Refused(EmptyUrl);
      }
      if !r.validUrl(url) {
        assert FirstComplaint(configs, r, i, BadUrl(url));
        return Refused(BadUrl(url));
      }
      if key == "" {
        assert FirstComplaint(configs, r, i, EmptyKey);
        return Refused(EmptyKey);
      }
      assert NoComplaint(configs, r, i + 1);
      var weight := Weight(c);
      var name := if c.name.Some? && c.name.value != "" then c.name.value else r.hostname(url);
      var entry := Endpoint(url, key, name);
      list := PushCopies(list, entry, weight);
      ExpandedNext(configs, r, i);
      weights := weights + [(name, weight)];
    }
    assert configs[..|configs|] == configs;
    return Loaded(list, weights);
  }

  method PushCopies(list: seq<Endpoint>, entry: Endpoint, weight: nat) returns (longer: seq<Endpoint>)
    ensures longer == list + Repeat(entry, weight)
  {
    hide Repeat;
    longer := list;
    RepeatNext(list, entry, 0);
    for copy := 0 to weight
      invariant longer == list + Repeat(entry, copy)
    {
      RepeatNext(list, entry, copy);
      longer := longer + [entry];
    }
  }

  lemma ExpandedNext(configs: seq<Config>, r: Rules, i: nat)
    requires i < |configs|
    ensures Expanded(configs[..i + 1], r)
         == Expanded(configs[..i], r) + Repeat(EntryOf(configs[i], r), Weight(configs[i]))
  {
    assert configs[..i + 1][..i] == configs[..i];
  }

  /** `e` is listed for entry `c`: trimmed URL and key, and its own name or the host's. */
  ghost predicate ListedFor(e: Endpoint, c: Config, r: Rules) {
    && e.url == r.trim(c.url) && e.key == r.trim(c.key) && e.url != "" && r.validUrl(e.url) && e.key != ""
    && (if c.name == None || c.name == Some("") then e.name == r.hostname(e.url) else c.name == Some(e.name))
  }

  /** Of an accepted file, `k` copies of the list's entries come from each config entry, in order:
      its weight, at least one. */
  lemma {:induction false} ExpandedLists(configs: seq<Config>, r: Rules, i: nat) returns (at: nat, k: nat)
    requires NoComplaint(configs, r, |configs|) && i < |configs|
    ensures k >= 1 && (k == 1 || configs[i].weight == Some(k))
    ensures configs[i].weight.Some? ==> configs[i].weight.value <= k
    ensures at == |Expanded(configs[..i], r)| && at + k <= |Expanded(configs, r)|
    ensures at + k == |Expanded(configs[..i + 1], r)|
    ensures forall j :: at <= j < at + k ==> ListedFor(Expanded(configs, r)[j], configs[i], r)
  {
    hide Complaint, EntryOf, Weight, ListedFor;
    var n := |configs| - 1;
    var front := Expanded(configs[..n], r);
    assert NoComplaint(configs[..n], r, n);
    if i == n {
      EntryListed(configs[n], r);
      at, k := |front|, Weight(configs[n]);
      assert configs[..i + 1] == configs;
      assert Expanded(configs, r) == front + Repeat(EntryOf(configs[n], r), k);
    } else {
      at, k := ExpandedLists(configs[..n], r, i);
      assert configs[..n][..i] == configs[..i] && configs[..n][..i + 1] == configs[..i + 1];
      assert configs[..n][i] == configs[i];
      FrontKept(front, Repeat(EntryOf(configs[n], r), Weight(configs[n])));
    }
  }

  lemma FrontKept(front: seq<Endpoint>, more: seq<Endpoint>)
    ensures forall j :: 0 <= j < |front| ==> (front + more)[j] == front[j]
  {
  }

  lemma EntryListed(c: Config, r: Rules)
    requires Complaint(c, r).None?
    ensures ListedFor(EntryOf(c, r), c, r)
    ensures Weight(c) >= 1 && (Weight(c) == 1 || c.weight == Some(Weight(c)))
    ensures c.weight.Some? ==> c.weight.value <= Weight(c)
  {
  }

  /** Total weight the file gives an endpoint. */
  function TotalWeight(configs: seq<Config>, r: Rules, e: Endpoint): nat {
    if configs == [] then 0
    else
      var n := |configs| - 1;
      TotalWeight(configs[..n], r, e) + (if EntryOf(configs[n], r) == e then Weight(configs[n]) else 0)
  }

  lemma {:induction false} RepeatCount(e: Endpoint, n: nat, x: Endpoint)
    ensures multiset(Repeat(e, n))[x] == if x == e then n else 0
  {
    if n > 0 {
      RepeatCount(e, n - 1, x);
      assert Repeat(e, n) == Repeat(e, n - 1) + [e];
    } else {
      assert Repeat(e, 0) == [];
    }
  }

  /** The expanded list holds every endpoint as often as its weights in the file say. */
  lemma {:induction false} ExpandedCount(configs: seq<Config>, r: Rules, e: Endpoint)
    ensures multiset(Expanded(configs, r))[e] == TotalWeight(configs, r, e)
  {
    if configs != [] {
      var n := |configs| - 1;
      ExpandedCount(configs[..n], r, e);
      RepeatCount(EntryOf(configs[n], r), Weight(configs[n]), e);
    }
  }

  /** No weight expands to nothing, and every name in the list is one the selector has a counter for. */
  lemma {:induction false} ExpandedNames(configs: seq<Config>, r: Rules)
    ensures |Expanded(configs, r)| >= |configs|
    ensures forall k :: 0 <= k < |Expanded(configs, r)| ==>
      exists i :: 0 <= i < |configs| && Named(configs[i], r).0 == Expanded(configs, r)[k].name
  {
    if configs != [] {
      var n := |configs| - 1;
      ExpandedNames(configs[..n], r);
      var front, back := Expanded(configs[..n], r), Repeat(EntryOf(configs[n], r), Weight(configs[n]));
      forall k | 0 <= k < |Expanded(configs, r)|
        ensures exists i :: 0 <= i < |configs| && Named(configs[i], r).0 == Expanded(configs, r)[k].name
      {
        if k < |front| {
          var i :| 0 <= i < n && Named(configs[..n][i], r).0 == front[k].name;
          assert Named(configs[i], r).0 == Expanded(configs, r)[k].name;
        } else {
          assert back[k - |front|] == EntryOf(configs[n], r);
          assert Named(configs[n], r).0 == Expanded(configs, r)[k].name;
        }
      }
    }
  }

  // ---------- round robin

  /** Entry picked when the counter, wrapped, has been bumped `x` times from zero. */
  function Pick(list: seq<Endpoint>, wrap: nat, x: nat): Endpoint
    requires list != [] && wrap > 0
  {
    list[x % wrap % |list|]
  }

  /** How often `e` is picked in `n` consecutive selections from counter `start`. */
  function Picks(list: seq<Endpoint>, wrap: nat, start: nat, n: nat, e: Endpoint): nat
    requires list != [] && wrap > 0
  {
    if n == 0 then 0
    else Picks(list, wrap, start, n - 1, e) + (if Pick(list, wrap, start + n - 1) == e then 1 else 0)
  }

  /** Each endpoint gets its exact share of `k` full turns from counter `start`. */
  ghost predicate FairFrom(list: seq<Endpoint>, wrap: nat, start: nat, k: nat)
    requires list != [] && wrap > 0
  {
    forall e :: Picks(list, wrap, start, k * |list|, e) == k * multiset(list)[e]
  }

  /** Rotating the list by the number of counter values changes nothing. */
  ghost predicate Rotates(list: seq<Endpoint>, wrap: nat)
    requires list != []
  {
    forall j :: 0 <= j < |list| ==> SameAfter(list, wrap, j)
  }

  ghost predicate SameAfter(list: seq<Endpoint>, wrap: nat, j: nat)
    requires list != [] && j < |list|
  {
    list[(j + wrap) % |list|] == list[j]
  }

  lemma {:induction false} PicksSplit(list: seq<Endpoint>, wrap: nat, start: nat, m: nat, n: nat, e: Endpoint)
    requires list != [] && wrap > 0
    ensures Picks(list, wrap, start, m + n, e) == Picks(list, wrap, start, m, e) + Picks(list, wrap, start + m, n, e)
  {
    hide Pick;
    if n > 0 {
      PicksSplit(list, wrap, start, m, n - 1, e);
      assert start + (m + n) - 1 == (start + m) + n - 1;
    }
  }

  /** One turn of an unwrapped counter from zero reads the list once. */
  lemma {:induction false} FirstTurn(list: seq<Endpoint>, wrap: nat, n: nat, e: Endpoint)
    requires list != [] && n <= |list| <= wrap
    ensures Picks(list, wrap, 0, n, e) == multiset(list[..n])[e]
  {
    if n > 0 {
      FirstTurn(list, wrap, n - 1, e);
      ModSmall(n - 1, wrap);
      ModSmall(n - 1, |list|);
      assert list[..n] == list[..n - 1] + [list[n - 1]];
    }
  }

  /** Sliding a full turn by one: what leaves comes back. */
  lemma SlideTurn(list: seq<Endpoint>, wrap: nat, x: nat, e: Endpoint)
    requires list != [] && wrap > 0 && Pick(list, wrap, x + |list|) == Pick(list, wrap, x)
    ensures Picks(list, wrap, x + 1, |list|, e) == Picks(list, wrap, x, |list|, e)
  {
    hide Pick;
    PicksSplit(list, wrap, x, 1, |list|, e);
    PicksSplit(list, wrap, x, |list|, 1, e);
    assert Picks(list, wrap, x, 0, e) == 0 && Picks(list, wrap, x + |list|, 0, e) == 0;
  }

  ghost predicate Repeats(list: seq<Endpoint>, wrap: nat, x: nat)
    requires list != [] && wrap > 0
  {
    Pick(list, wrap, x + |list|) == Pick(list, wrap, x)
  }

  /** Below `limit`, picks have the period of the list. */
  ghost predicate Periodic(list: seq<Endpoint>, wrap: nat, limit: nat)
    requires list != [] && wrap > 0
  {
    forall x: nat :: x + |list| < limit ==> Repeats(list, wrap, x)
  }

  /** While picks are periodic, every turn is exact. */
  lemma {:induction false} OneTurn(list: seq<Endpoint>, wrap: nat, start: nat, e: Endpoint)
    requires list != [] && |list| <= wrap && Periodic(list, wrap, start + |list|)
    ensures Picks(list, wrap, start, |list|, e) == multiset(list)[e]
  {
    hide Pick, Picks;
    if start == 0 {
      FirstTurn(list, wrap, |list|, e);
      assert list[..|list|] == list;
    } else {
      OneTurn(list, wrap, start - 1, e);
      assert Repeats(list, wrap, start - 1);
      SlideTurn(list, wrap, start - 1, e);
    }
  }

  /** `k` turns, `n` selections in all. */
  lemma {:induction false} Turns(list: seq<Endpoint>, wrap: nat, start: nat, k: nat, n: nat, e: Endpoint)
    requires list != [] && |list| <= wrap && n == k * |list| && Periodic(list, wrap, start + n)
    ensures Picks(list, wrap, start, n, e) == k * multiset(list)[e]
  {
    hide Pick;
    var w := |list|;
    if k > 0 {
      var m := n - w;
      assert m == (k - 1) * w;
      MulMonotone(w, 0, k - 1);
      Turns(list, wrap, start, k - 1, m, e);
      PicksSplit(list, wrap, start, m, w, e);
      OneTurn(list, wrap, start + m, e);
      OneMore(k, multiset(list)[e]);
    }
  }

  lemma OneMore(k: nat, c: nat)
    requires k > 0
    ensures k * c == (k - 1) * c + c
  {
  }

  lemma PeriodicIsFair(list: seq<Endpoint>, wrap: nat, start: nat, k: nat)
    requires list != [] && |list| <= wrap && Periodic(list, wrap, start + k * |list|)
    ensures FairFrom(list, wrap, start, k)
  {
    forall e ensures Picks(list, wrap, start, k * |list|, e) == k * multiset(list)[e] {
      Turns(list, wrap, start, k, k * |list|, e);
    }
  }

  /** Without a wrap in the window, any list is served in exact proportion, from any counter. */
  lemma RoundRobinFair(list: seq<Endpoint>, wrap: nat, start: nat, k: nat)
    requires list != [] && |list| <= wrap && start + k * |list| <= wrap
    ensures FairFrom(list, wrap, start, k)
  {
    var limit := start + k * |list|;
    forall x: nat | x + |list| < limit ensures Repeats(list, wrap, x) {
      ModSmall(x, wrap);
      ModSmall(x + |list|, wrap);
      ModShift(x, |list|);
    }
    PeriodicIsFair(list, wrap, start, k);
  }

  lemma ModAdd(y: nat, b: nat, w: nat)
    requires w > 0
    ensures (y + b) % w == (y % w + b) % w
  {
    var q, j := y / w, y % w;
    var d := (j + b) / w;
    ModBounds(j + b, w);
    assert w * (q + d) == w * q + w * d;
    ModUnique(y + b, w, q + d, (j + b) % w);
  }

  /** With rotation symmetry the wrap cannot be seen. */
  lemma {:induction false} WrapUnseen(list: seq<Endpoint>, wrap: nat, x: nat)
    requires list != [] && wrap > 0 && Rotates(list, wrap)
    ensures Pick(list, wrap, x) == list[x % |list|]
  {
    if x < wrap {
      ModSmall(x, wrap);
    } else {
      var y := x - wrap;
      WrapUnseen(list, wrap, y);
      ModShift(y, wrap);
      ModAdd(y, wrap, |list|);
      ModBounds(y, |list|);
      assert SameAfter(list, wrap, y % |list|);
    }
  }

  /** Fair from every counter, across the wrap too, exactly when the list looks the same after
      rotation by the number of counter values: in particular when its length divides that number. */
  lemma RoundRobinFairIff(list: seq<Endpoint>, wrap: nat)
    requires list != [] && |list| <= wrap
    ensures (forall start: nat, k: nat :: FairFrom(list, wrap, start, k)) <==> Rotates(list, wrap)
    ensures wrap % |list| == 0 ==> Rotates(list, wrap)
  {
    if Rotates(list, wrap) {
      forall start: nat, k: nat ensures FairFrom(list, wrap, start, k) { RotatesIsFair(list, wrap, start, k); }
    }
    if forall start: nat, k: nat :: FairFrom(list, wrap, start, k) {
      forall j | 0 <= j < |list| ensures SameAfter(list, wrap, j) { FairRotates(list, wrap, j); }
    }
    if wrap % |list| == 0 {
      forall j | 0 <= j < |list| ensures SameAfter(list, wrap, j) {
        ModUnique(j + wrap, |list|, wrap / |list|, j);
      }
    }
  }

  lemma RotatesRepeats(list: seq<Endpoint>, wrap: nat, x: nat)
    requires list != [] && |list| <= wrap && Rotates(list, wrap)
    ensures Repeats(list, wrap, x)
  {
    hide Rotates, Pick;
    WrapUnseen(list, wrap, x);
    WrapUnseen(list, wrap, x + |list|);
    ModShift(x, |list|);
  }

  lemma RotatesIsFair(list: seq<Endpoint>, wrap: nat, start: nat, k: nat)
    requires list != [] && |list| <= wrap && Rotates(list, wrap)
    ensures FairFrom(list, wrap, start, k)
  {
    hide Rotates, Repeats;
    forall x: nat ensures Repeats(list, wrap, x) { RotatesRepeats(list, wrap, x); }
    PeriodicIsFair(list, wrap, start, k);
  }

  /** Two overlapping fair turns differ only in their ends, so the ends agree; across the wrap
      that is one step of the rotation. */
  lemma FairRotates(list: seq<Endpoint>, wrap: nat, j: nat)
    requires list != [] && |list| <= wrap && j < |list|
    requires forall start: nat, k: nat :: FairFrom(list, wrap, start, k)
    ensures list[(j + wrap) % |list|] == list[j]
  {
    hide Pick;
    var w := |list|;
    var x := wrap - w + j;
    var e := Pick(list, wrap, x);
    assert FairFrom(list, wrap, x, 1) && FairFrom(list, wrap, x + 1, 1);
    assert 1 * w == w;
    assert Picks(list, wrap, x, w, e) == Picks(list, wrap, x + 1, w, e);
    PicksSplit(list, wrap, x, 1, w, e);
    PicksSplit(list, wrap, x, w, 1, e);
    assert Picks(list, wrap, x, 0, e) == 0 && Picks(list, wrap, x + w, 0, e) == 0;
    assert Pick(list, wrap, x + w) == e;
    PickNearWrap(list, wrap, j);
  }

  lemma PickNearWrap(list: seq<Endpoint>, wrap: nat, j: nat)
    requires list != [] && |list| <= wrap && j < |list|
    ensures Pick(list, wrap, wrap + j) == list[j]
    ensures Pick(list, wrap, wrap - |list| + j) == list[(j + wrap) % |list|]
  {
    var w := |list|;
    ModSmall(j, wrap);
    ModShift(j, wrap);
    ModSmall(j, w);
    ModSmall(wrap - w + j, wrap);
    ModShift(wrap - w + j, w);
  }

  /** Counter values of a 64-bit word. */
  const WORD: nat := 0x1_0000_0000_0000_0000

  /** Three endpoints on a 64-bit counter: the turn from the last counter value serves the first
      endpoint twice and the last never. */
  lemma WrapUnfair(a: Endpoint, b: Endpoint, c: Endpoint)
    requires a != b && a != c && b != c
    ensures Picks([a, b, c], WORD, WORD - 1, 3, a) == 2 && Picks([a, b, c], WORD, WORD - 1, 3, c) == 0
  {
    var list, x := [a, b, c], WORD - 1;
    assert Pick(list, WORD, x) == a && Pick(list, WORD, x + 1) == a && Pick(list, WORD, x + 2) == b;
    assert Picks(list, WORD, x, 0, a) == 0 && Picks(list, WORD, x, 1, a) == 1 && Picks(list, WORD, x, 2, a) == 2;
    assert Picks(list, WORD, x, 0, c) == 0 && Picks(list, WORD, x, 1, c) == 0 && Picks(list, WORD, x, 2, c) == 0;
  }

  /** Weights in the file are shares of the traffic. */
  lemma WeightsAreShares(configs: seq<Config>, r: Rules, wrap: nat, start: nat, k: nat, e: Endpoint)
    requires configs != []
    requires |Expanded(configs, r)| <= wrap && start + k * |Expanded(configs, r)| <= wrap
    ensures Expanded(configs, r) != []
    ensures Picks(Expanded(configs, r), wrap, start, k * |Expanded(configs, r)|, e) == k * TotalWeight(configs, r, e)
  {
    ExpandedNames(configs, r);
    RoundRobinFair(Expanded(configs, r), wrap, start, k);
    ExpandedCount(configs, r, e);
  }

  // ---------- the selector

  function NamesIn(weights: seq<(string, nat)>): set<string> { set i | 0 <= i < |weights| :: weights[i].0 }

  datatype Strategy = RoundRobin | LeastInflight

  /** Whether the first key sorts strictly before the second: healthy first, then fewer in flight. */
  predicate Before(e1: bool, n1: nat, e2: bool, n2: nat) { (!e1 && e2) || (e1 == e2 && n1 < n2) }

  class EndpointSelector {
    var next: nat
    var inflight: map<string, nat>
    var ejectedUntil: map<string, Option<nat>>
    const backoff: nat
    const wrap: nat

    ghost predicate Valid()
      reads this
    {
      next < wrap && inflight.Keys == ejectedUntil.Keys
    }

    constructor (names: seq<(string, nat)>, backoff: nat, wrap: nat)
      requires wrap > 0
      ensures Valid() && next == 0 && this.backoff == backoff && this.wrap == wrap
      ensures inflight == map x | x in NamesIn(names) :: 0
      ensures forall x :: x in ejectedUntil ==> ejectedUntil[x].None?
      ensures forall x, t: nat :: !Ejected(x, t)
    {
      next := 0;
      inflight := map x | x in NamesIn(names) :: 0;
      ejectedUntil := map x | x in NamesIn(names) :: None;
      this.backoff, this.wrap := backoff, wrap;
    }

    function Ejected(name: string, now: nat): bool
      reads this
    {
      name in ejectedUntil && ejectedUntil[name].Some? && now < ejectedUntil[name].value
    }

    method NoteConnectFailure(name: string, now: nat)
      requires Valid()
      modifies this`ejectedUntil
      ensures Valid()
      ensures ejectedUntil ==
        if name in old(ejectedUntil) then old(ejectedUntil)[name := Some(now + backoff)] else old(ejectedUntil)
      ensures forall x, t: nat :: Ejected(x, t) <==>
        if x == name && x in ejectedUntil then t < now + backoff else old(Ejected(x, t))
    {
      if name in ejectedUntil {
        ejectedUntil := ejectedUntil[name := Some(now + backoff)];
      }
    }

    /** First entry with the least key; `clock(i)` is the time at which entry `i` was looked at. */
    method LeastLoaded(choices: seq<Endpoint>, clock: nat -> nat) returns (index: nat)
      requires choices != [] && forall i :: 0 <= i < |choices| ==> choices[i].name in inflight
      ensures index < |choices|
      ensures forall i :: 0 <= i < |choices| ==>
        !Before(Ejected(choices[i].name, clock(i)), inflight[choices[i].name],
                Ejected(choices[index].name, clock(index)), inflight[choices[index].name])
      ensures forall i :: 0 <= i < index ==>
        Before(Ejected(choices[index].name, clock(index)), inflight[choices[index].name],
               Ejected(choices[i].name, clock(i)), inflight[choices[i].name])
    {
      index := 0;
      for i := 1 to |choices|
        invariant index < i
        invariant forall j :: 0 <= j < i ==>
          !Before(Ejected(choices[j].name, clock(j)), inflight[choices[j].name],
                  Ejected(choices[index].name, clock(index)), inflight[choices[index].name])
        invariant forall j :: 0 <= j < index ==>
          Before(Ejected(choices[index].name, clock(index)), inflight[choices[index].name],
                 Ejected(choices[j].name, clock(j)), inflight[choices[j].name])
      {
        if Before(Ejected(choices[i].name, clock(i)), inflight[choices[i].name],
                  Ejected(choices[index].name, clock(index)), inflight[choices[index].name]) {
          index := i;
        }
      }
    }

    /** Returns the chosen entry; the caller holds a lease on its name until `DropLease`. */
    method Select(choices: seq<Endpoint>, strategy: Strategy, clock: nat -> nat) returns (index: nat)
      requires Valid()
      requires choices != [] && forall i :: 0 <= i < |choices| ==> choices[i].name in inflight
      modifies this`next, this`inflight
      ensures Valid() && index < |choices|
      ensures inflight == old(inflight)[choices[index].name := old(inflight)[choices[index].name] + 1]
      ensures strategy.RoundRobin? ==>
        choices[index] == Pick(choices, wrap, old(next)) && next == (old(next) + 1) % wrap
      ensures strategy.RoundRobin? ==> index == old(next) % |choices|
      ensures strategy.LeastInflight? ==> next == old(next)
      ensures strategy.LeastInflight? && Ejected(choices[index].name, clock(index)) ==>
        forall i :: 0 <= i < |choices| ==> Ejected(choices[i].name, clock(i))
      ensures strategy.LeastInflight? ==>
        forall i :: 0 <= i < |choices| ==>
          (Ejected(choices[i].name, clock(i)) == Ejected(choices[index].name, clock(index)) ==>
             && old(inflight)[choices[index].name] <= old(inflight)[choices[i].name]
             && (i < index ==> old(inflight)[choices[index].name] < old(inflight)[choices[i].name]))
    {
      match strategy {
      case RoundRobin =>
        ModSmall(next, wrap);
        ModBounds(next, |choices|);
        ModBounds(next + 1, wrap);
        index := next % |choices|;
        next := (next + 1) % wrap;
      case LeastInflight =>
        index := LeastLoaded(choices, clock);
      }
      var name := choices[index].name;
      inflight := inflight[name := inflight[name] + 1];
    }

    method DropLease(name: string)
      requires Valid() && name in inflight && inflight[name] > 0
      modifies this`inflight
      ensures Valid()
      ensures inflight == old(inflight)[name := old(inflight)[name] - 1]
    {
      inflight := inflight[name := inflight[name] - 1];
    }
  }

  lemma CounterNext(x: nat, wrap: nat)
    requires wrap > 0
    ensures (x % wrap + 1) % wrap == (x + 1) % wrap
    ensures x % wrap % wrap == x % wrap
  {
    ModAdd(x, 1, wrap);
    ModBounds(x, wrap);
    ModSmall(x % wrap, wrap);
  }

  /** The picked entries are those `Picks` counts from counter `start` on. */
  ghost predicate Counted(picked: seq<Endpoint>, list: seq<Endpoint>, wrap: nat, start: nat)
    requires list != [] && wrap > 0
  {
    forall e :: multiset(picked)[e] == Picks(list, wrap, start, |picked|, e)
  }

  lemma NothingCounted(list: seq<Endpoint>, wrap: nat, start: nat)
    requires list != [] && wrap > 0
    ensures Counted([], list, wrap, start)
  {
  }

  lemma CountedNext(picked: seq<Endpoint>, list: seq<Endpoint>, wrap: nat, start: nat, e: Endpoint)
    requires list != [] && wrap > 0 && Counted(picked, list, wrap, start) && e == Pick(list, wrap, start + |picked|)
    ensures Counted(picked + [e], list, wrap, start)
  {
    hide Pick;
    forall x ensures multiset(picked + [e])[x] == Picks(list, wrap, start, |picked| + 1, x) {
      assert multiset(picked)[x] == Picks(list, wrap, start, |picked|, x);
    }
  }

  /** Any number of round-robin selections from the selector's own counter: `Picks` counts them. */
  method SelectInTurn(
      s: EndpointSelector, choices: seq<Endpoint>, n: nat, clock: nat -> nat)
    returns (picked: seq<Endpoint>)
    requires s.Valid() && choices != [] && forall i :: 0 <= i < |choices| ==> choices[i].name in s.inflight
    modifies s
    ensures s.Valid() && |picked| == n && s.next == (old(s.next) + n) % s.wrap
    ensures Counted(picked, choices, s.wrap, old(s.next))
  {
    picked := [];
    var start := s.next;
    ModSmall(start, s.wrap);
    NothingCounted(choices, s.wrap, start);
    hide Pick, Counted, Picks;
    for t := 0 to n
      invariant s.Valid() && |picked| == t && s.next == (start + t) % s.wrap
      invariant forall i :: 0 <= i < |choices| ==> choices[i].name in s.inflight
      invariant Counted(picked, choices, s.wrap, start)
    {
      CounterNext(start + t, s.wrap);
      SamePick(choices, s.wrap, start + t);
      var index := s.Select(choices, RoundRobin, clock);
      CountedNext(picked, choices, s.wrap, start, choices[index]);
      picked := picked + [choices[index]];
    }
  }

  lemma SamePick(list: seq<Endpoint>, wrap: nat, x: nat)
    requires list != [] && wrap > 0
    ensures Pick(list, wrap, x % wrap) == Pick(list, wrap, x)
  {
    CounterNext(x, wrap);
  }

  // ---------- leases over whole runs

  datatype Ledger = Ledger(counters: map<string, nat>, leases: seq<string>)

  /** `Lease` takes any endpoint the selector may have chosen, from readings however old. */
  datatype Event = Lease(name: string) | Drop(k: nat) | ConnectFailure(name: string)

  /** A drop decrements its counter; a counter already at zero would wrap, shown as `None`. */
  function Happen(l: Ledger, e: Event): Option<Ledger> {
    match e
    case Lease(name) =>
      if name in l.counters then Some(Ledger(l.counters[name := l.counters[name] + 1], l.leases + [name])) else Some(l)
    case Drop(k) =>
      if k >= |l.leases| then Some(l)
      else
        var name := l.leases[k];
        if name in l.counters && l.counters[name] > 0 then
          Some(Ledger(l.counters[name := l.counters[name] - 1], l.leases[..k] + l.leases[k + 1..]))
        else None
    case ConnectFailure(_) => Some(l)
  }

  function HappenAll(l: Ledger, events: seq<Event>): Option<Ledger> {
    if events == [] then Some(l)
    else
      match HappenAll(l, events[..|events| - 1])
      case Some(m) => Happen(m, events[|events| - 1])
      case None => None
  }

  /** Every counter equals the live leases on its name. */
  ghost predicate CountsLeases(l: Ledger) {
    && (forall x :: x in l.counters ==> l.counters[x] == multiset(l.leases)[x])
    && (forall i :: 0 <= i < |l.leases| ==> l.leases[i] in l.counters)
  }

  lemma HappenKeeps(l: Ledger, e: Event)
    requires CountsLeases(l)
    ensures Happen(l, e).Some? && CountsLeases(Happen(l, e).value)
    ensures Happen(l, e).value.counters.Keys == l.counters.Keys
  {
    hide CountsLeases;
    if e.Lease? && e.name in l.counters {
      LeaseKeeps(l, e.name);
    } else if e.Drop? && e.k < |l.leases| {
      DropKeeps(l, e.k);
    }
  }

  lemma LeaseKeeps(l: Ledger, name: string)
    requires CountsLeases(l) && name in l.counters
    ensures CountsLeases(Ledger(l.counters[name := l.counters[name] + 1], l.leases + [name]))
  {
  }

  lemma DropKeeps(l: Ledger, k: nat)
    requires CountsLeases(l) && k < |l.leases|
    ensures l.leases[k] in l.counters && l.counters[l.leases[k]] > 0
    ensures var name := l.leases[k];
      CountsLeases(Ledger(l.counters[name := l.counters[name] - 1], l.leases[..k] + l.leases[k + 1..]))
  {
    var name, rest := l.leases[k], l.leases[..k] + l.leases[k + 1..];
    assert name in l.counters;
    RestCounted(l, k);
    hide CountsLeases;
    RemoveMultiset(l.leases, k);
    DropCounts(l, name, rest);
  }

  lemma RestCounted(l: Ledger, k: nat)
    requires CountsLeases(l) && k < |l.leases|
    ensures var rest := l.leases[..k] + l.leases[k + 1..];
      forall i :: 0 <= i < |rest| ==> rest[i] in l.counters
  {
    var rest := l.leases[..k] + l.leases[k + 1..];
    forall i | 0 <= i < |rest| ensures rest[i] in l.counters {
      assert rest[i] == if i < k then l.leases[i] else l.leases[i + 1];
    }
  }

  lemma DropCounts(l: Ledger, name: string, rest: seq<string>)
    requires CountsLeases(l) && name in l.counters && multiset(l.leases) == multiset(rest) + multiset{name}
    requires forall i :: 0 <= i < |rest| ==> rest[i] in l.counters
    ensures l.counters[name] > 0 && CountsLeases(Ledger(l.counters[name := l.counters[name] - 1], rest))
  {
    assert l.counters[name] == multiset(l.leases)[name];
  }

  /** In every run of selections, drops and connect failures no counter underflows and each equals
      its live leases. */
  lemma {:induction false} CountersAreLeases(start: Ledger, events: seq<Event>)
    requires start.leases == [] && forall x :: x in start.counters ==> start.counters[x] == 0
    ensures HappenAll(start, events).Some?
    ensures CountsLeases(HappenAll(start, events).value)
    ensures HappenAll(start, events).value.counters.Keys == start.counters.Keys
  {
    if events != [] {
      CountersAreLeases(start, events[..|events| - 1]);
      HappenKeeps(HappenAll(start, events[..|events| - 1]).value, events[|events| - 1]);
    }
  }

  /** What callers do with a selector: select, drop the `k`-th live lease, or note a failure. */
  datatype Use = Choose(strategy: Strategy, clock: nat -> nat) | Release(k: nat) | Fail(name: string, now: nat)

  lemma HappenNext(start: Ledger, events: seq<Event>, e: Event)
    requires HappenAll(start, events).Some?
    ensures HappenAll(start, events + [e]) == Happen(HappenAll(start, events).value, e)
  {
    assert (events + [e])[..|events|] == events;
  }

  method UseOnce(s: EndpointSelector, choices: seq<Endpoint>, u: Use, leases: seq<string>)
    returns (left: seq<string>, ghost event: Event)
    requires s.Valid() && choices != [] && forall i :: 0 <= i < |choices| ==> choices[i].name in s.inflight
    requires CountsLeases(Ledger(s.inflight, leases))
    modifies s
    ensures s.Valid() && s.inflight.Keys == old(s.inflight.Keys)
    ensures Happen(Ledger(old(s.inflight), leases), event) == Some(Ledger(s.inflight, left))
  {
    hide CountsLeases;
    left := leases;
    match u {
      case Choose(strategy, clock) =>
        var index := s.Select(choices, strategy, clock);
        left := leases + [choices[index].name];
        event := Lease(choices[index].name);
      case Release(k) =>
        event := Drop(k);
        if k < |leases| {
          DropKeeps(Ledger(s.inflight, leases), k);
          s.DropLease(leases[k]);
          left := leases[..k] + leases[k + 1..];
        }
      case Fail(name, now) =>
        s.NoteConnectFailure(name, now);
        event := ConnectFailure(name);
    }
  }

  /** Any run of uses on a fresh selector is such a run of events, so its own counters are its live
      leases and no drop finds a counter at zero. */
  method UseSelector(s: EndpointSelector, choices: seq<Endpoint>, uses: seq<Use>)
    returns (leases: seq<string>, ghost events: seq<Event>)
    requires s.Valid() && choices != [] && forall i :: 0 <= i < |choices| ==> choices[i].name in s.inflight
    requires forall x :: x in s.inflight ==> s.inflight[x] == 0
    modifies s
    ensures s.Valid() && |events| == |uses|
    ensures CountsLeases(Ledger(s.inflight, leases))
    ensures HappenAll(Ledger(old(s.inflight), []), events) == Some(Ledger(s.inflight, leases))
  {
    leases, events := [], [];
    ghost var start := Ledger(s.inflight, []);
    NothingHappened(start);
    CountersAreLeases(start, []);
    hide CountsLeases, HappenAll, Happen;
    for n := 0 to |uses|
      invariant s.Valid() && |events| == n && s.inflight.Keys == start.counters.Keys
      invariant CountsLeases(Ledger(s.inflight, leases))
      invariant HappenAll(start, events) == Some(Ledger(s.inflight, leases))
    {
      ghost var before := Ledger(s.inflight, leases);
      ghost var event;
      leases, event := UseOnce(s, choices, uses[n], leases);
      HappenKeeps(before, event);
      HappenNext(start, events, event);
      events := events + [event];
    }
  }

  lemma NothingHappened(l: Ledger)
    ensures HappenAll(l, []) == Some(l)
  {
  }

  // ---------- serial least-inflight

  /** Entries have counters, and no two of them differ by more than one. */
  ghost predicate WithinOne(counters: map<string, nat>, choices: seq<Endpoint>) {
    && (forall i :: 0 <= i < |choices| ==> choices[i].name in counters)
    && forall i, j :: 0 <= i < |choices| && 0 <= j < |choices| ==>
      counters[choices[i].name] <= counters[choices[j].name] + 1
  }

  /** Picking an entry with the fewest in flight keeps them within one. */
  lemma FewestKeeps(counters: map<string, nat>, choices: seq<Endpoint>, index: nat)
    requires WithinOne(counters, choices) && index < |choices|
    requires forall i :: 0 <= i < |choices| ==> counters[choices[index].name] <= counters[choices[i].name]
    ensures WithinOne(counters[choices[index].name := counters[choices[index].name] + 1], choices)
  {
  }

  /** Counters after some picks on top of `start`. */
  ghost predicate Grown(start: map<string, nat>, counters: map<string, nat>, picks: seq<string>) {
    counters.Keys == start.Keys && forall x :: x in counters ==> counters[x] == start[x] + multiset(picks)[x]
  }

  lemma GrownNext(start: map<string, nat>, counters: map<string, nat>, picks: seq<string>, name: string)
    requires Grown(start, counters, picks) && name in counters
    ensures Grown(start, counters[name := counters[name] + 1], picks + [name])
  {
  }

  /** Least-inflight, any number of selections one after another with nothing ejected and nothing
      dropped: the endpoints stay within one of each other, whatever their weights, and every
      selection is counted. */
  method SelectSerially(
      s: EndpointSelector, choices: seq<Endpoint>, n: nat, clock: nat -> nat)
    returns (picks: seq<string>)
    requires s.Valid() && choices != [] && WithinOne(s.inflight, choices)
    requires forall x :: x in s.ejectedUntil ==> s.ejectedUntil[x].None?
    modifies s
    ensures |picks| == n
    ensures WithinOne(s.inflight, choices)
    ensures Grown(old(s.inflight), s.inflight, picks)
  {
    picks := [];
    for k := 0 to n
      invariant s.Valid() && |picks| == k
      invariant forall x :: x in s.ejectedUntil ==> s.ejectedUntil[x].None?
      invariant WithinOne(s.inflight, choices)
      invariant Grown(old(s.inflight), s.inflight, picks)
    {
      ghost var before := s.inflight;
      var index := s.Select(choices, LeastInflight, clock);
      var name := choices[index].name;
      FewestKeeps(before, choices, index);
      GrownNext(old(s.inflight), before, picks, name);
      picks := picks + [name];
    }
  }
}
