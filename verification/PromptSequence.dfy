/** Recording the effective prompt order and replaying it against another pool
    (src/prompt_sequence.rs:18-174), and how the LLM client combines the two
    (src/bin/metrum-ai-bench-cli-llm.rs:807-828, 925-935). Fingerprints are a parameter. */
module PromptSequence {
  import opened Numbers
  import opened Sequences
  import opened Modulo

  datatype Entry = Entry(slot: nat, index: nat, fingerprint: string, bytes: nat, cohort: nat)

  /** A hash and a byte length for prompt text. */
  datatype Measure = Measure(fingerprint: string -> string, bytes: string -> nat)

  datatype ReplayError =
    | NoMatch(slot: nat, fingerprint: string)
    | PoolEmpty
    | OutOfRange(slot: nat, index: nat, size: nat)

  datatype Resolution = Resolved(order: seq<nat>) | Rejected(error: ReplayError)

  /** What one slot of a prescribed sequence comes to. */
  datatype Pick = Takes(index: nat) | Fails(error: ReplayError)

  // ---------- recording

  /** Pool index of a slot; none where the code would divide by zero. */
  function SlotIndex(slot: nat, size: nat, prescribed: Option<seq<nat>>): Option<nat> {
    match prescribed
    case Some(order) => if order == [] then None else Some(order[slot % |order|])
    case None => if size == 0 then None else Some(slot % size)
  }

  /** Prompt a slot's row is written from; none where writing the row panics. */
  function LoggedPrompt(prompts: seq<string>, prescribed: Option<seq<nat>>, slot: nat): Option<string> {
    match SlotIndex(slot, |prompts|, prescribed)
    case Some(index) => if index < |prompts| then Some(prompts[index]) else None
    case None => None
  }

  lemma LoggedFromPool(prompts: seq<string>, prescribed: Option<seq<nat>>, slot: nat)
    ensures LoggedPrompt(prompts, prescribed, slot).Some? ==> LoggedPrompt(prompts, prescribed, slot).value in prompts
  {
  }

  /** What the row of a slot has to say about the prompt it came from. */
  ghost predicate Describes(row: Entry, slot: nat, prompt: string, m: Measure, width: nat) {
    && row.slot == slot
    && row.fingerprint == m.fingerprint(prompt)
    && row.bytes == m.bytes(prompt)
    && width > 0 && row.cohort == slot / width
  }

  /** `aborted` is a panic in the middle of the log: the rows before it are already in the file. */
  method WriteSequenceLog(
      prompts: seq<string>, requests: nat, concurrency: nat, prescribed: Option<seq<nat>>, m: Measure)
    returns (rows: seq<Entry>, aborted: bool)
    ensures |rows| <= requests
    ensures forall s :: 0 <= s < |rows| ==>
      var prompt := LoggedPrompt(prompts, prescribed, s);
      && prompt.Some?
      && Describes(rows[s], s, prompt.value, m, if concurrency >= 1 then concurrency else 1)
      && SlotIndex(s, |prompts|, prescribed) == Some(rows[s].index)
    ensures aborted <==> |rows| < requests
    ensures aborted ==> LoggedPrompt(prompts, prescribed, |rows|).None?
  {
    rows, aborted := [], false;
    var width := if concurrency >= 1 then concurrency else 1;
    for slot := 0 to requests
      invariant |rows| == slot
      invariant forall s :: 0 <= s < |rows| ==>
        var prompt := LoggedPrompt(prompts, prescribed, s);
        && prompt.Some?
        && Describes(rows[s], s, prompt.value, m, width)
        && SlotIndex(s, |prompts|, prescribed) == Some(rows[s].index)
    {
      var index := SlotIndex(slot, |prompts|, prescribed);
      if index.None? || index.value >= |prompts| {
        aborted := true;
        return;
      }
      var prompt := prompts[index.value];
      rows := rows + [Entry(slot, index.value, m.fingerprint(prompt), m.bytes(prompt), slot / width)];
    }
  }

  // ---------- resolving

  /** Ascending pool indices whose prompt has fingerprint `f`. */
  function Copies(prompts: seq<string>, fp: string -> string, f: string): seq<nat> {
    if prompts == [] then []
    else
      var n := |prompts| - 1;
      Copies(prompts[..n], fp, f) + (if fp(prompts[n]) == f then [n] else [])
  }

  /** `c` is the ascending list of all indices whose prompt has fingerprint `f`. */
  ghost predicate Lists(c: seq<nat>, prompts: seq<string>, fp: string -> string, f: string) {
    && (forall k :: 0 <= k < |c| ==> c[k] < |prompts|)
    && (forall k :: 0 <= k < |c| && c[k] < |prompts| ==> fp(prompts[c[k]]) == f)
    && (forall i :: 0 <= i < |prompts| && fp(prompts[i]) == f ==> i in c)
    && (forall k, l :: 0 <= k < l < |c| ==> c[k] < c[l])
  }

  lemma {:induction false} CopiesAreAll(prompts: seq<string>, fp: string -> string, f: string)
    ensures Lists(Copies(prompts, fp, f), prompts, fp, f)
  {
    if prompts != [] {
      var n := |prompts| - 1;
      var b := Copies(prompts[..n], fp, f);
      CopiesAreAll(prompts[..n], fp, f);
      ListsSnoc(b, prompts, fp, f);
    }
  }

  lemma ListsSnoc(b: seq<nat>, prompts: seq<string>, fp: string -> string, f: string)
    requires prompts != [] && Lists(b, prompts[..|prompts| - 1], fp, f)
    ensures Lists(b + (if fp(prompts[|prompts| - 1]) == f then [|prompts| - 1] else []), prompts, fp, f)
  {
    var n := |prompts| - 1;
    var c := b + if fp(prompts[n]) == f then [n] else [];
    assert forall k :: 0 <= k < |b| ==> c[k] == b[k] < n;
    assert forall i :: 0 <= i < n ==> prompts[..n][i] == prompts[i];
    forall i | 0 <= i < |prompts| && fp(prompts[i]) == f ensures i in c {
      if i < n {
        assert i in b;
      } else {
        assert c[|b|] == n;
      }
    }
  }

  /** How many of the first `slot` entries carry fingerprint `f`. */
  function Seen(entries: seq<Entry>, slot: nat, f: string): nat
    requires slot <= |entries|
  {
    if slot == 0 then 0 else Seen(entries, slot - 1, f) + (if entries[slot - 1].fingerprint == f then 1 else 0)
  }

  /** What one slot resolves to. A matched slot takes the next copy in turn; an entry without a
      fingerprint falls back to its own index, whose range error is always reported for slot 0. */
  function ResolveSlot(entries: seq<Entry>, prompts: seq<string>, fp: string -> string, slot: nat): Pick
    requires slot < |entries|
  {
    var e := entries[slot];
    var copies := Copies(prompts, fp, e.fingerprint);
    if copies != [] then Takes(copies[Seen(entries, slot, e.fingerprint) % |copies|])
    else if e.fingerprint != "" then Fails(NoMatch(slot, e.fingerprint))
    else if prompts == [] then Fails(PoolEmpty)
    else if e.index >= |prompts| then Fails(OutOfRange(0, e.index, |prompts|))
    else Takes(e.index)
  }

  /** Every slot resolves, to the index `order` has for it. */
  ghost predicate Resolves(entries: seq<Entry>, prompts: seq<string>, fp: string -> string, order: seq<nat>) {
    && |order| == |entries|
    && forall s :: 0 <= s < |order| ==> ResolveSlot(entries, prompts, fp, s) == Takes(order[s])
  }

  /** Slot `s` is the first that does not resolve, and `r` says why. */
  ghost predicate FailsFirst(entries: seq<Entry>, prompts: seq<string>, fp: string -> string, s: nat, r: ReplayError) {
    && s < |entries|
    && ResolveSlot(entries, prompts, fp, s) == Fails(r)
    && forall t :: 0 <= t < s ==> ResolveSlot(entries, prompts, fp, t).Takes?
  }

  /** A range error names the slot it is about exactly when that is the first slot; a missing
      fingerprint always does. */
  lemma ReportedSlot(entries: seq<Entry>, prompts: seq<string>, fp: string -> string, s: nat, error: ReplayError)
    requires FailsFirst(entries, prompts, fp, s, error)
    ensures error.OutOfRange? ==> (error.slot == s <==> s == 0)
    ensures error.NoMatch? ==> error.slot == s && error.fingerprint == entries[s].fingerprint
    ensures error.OutOfRange? ==> error.index == entries[s].index >= |prompts| == error.size
  {
  }

  /** Two entries without fingerprints against one prompt: the second fails, slot 0 is blamed. */
  lemma RangeErrorBlamesSlotZero(prompt: string, fp: string -> string)
    requires fp(prompt) != ""
    ensures FailsFirst([Entry(0, 0, "", 0, 0), Entry(1, 7, "", 0, 0)], [prompt], fp, 1, OutOfRange(0, 7, 1))
  {
    var entries := [Entry(0, 0, "", 0, 0), Entry(1, 7, "", 0, 0)];
    assert [prompt][..0] == [];
    assert Copies([prompt], fp, "") == [];
    assert ResolveSlot(entries, [prompt], fp, 0) == Takes(0);
    assert ResolveSlot(entries, [prompt], fp, 1) == Fails(OutOfRange(0, 7, 1));
  }

  /** What a slot comes to, said of the pool: its own copies first, then, without a fingerprint, its
      own index if the pool has it. */
  lemma PickMeans(entries: seq<Entry>, prompts: seq<string>, fp: string -> string, s: nat)
    requires s < |entries|
    ensures Means(entries[s], s, prompts, fp, ResolveSlot(entries, prompts, fp, s))
  {
    hide Copies, Seen;
    var f := entries[s].fingerprint;
    var c := Copies(prompts, fp, f);
    CopiesAreAll(prompts, fp, f);
    KnownIff(c, prompts, fp, f);
    if c != [] { ModBounds(Seen(entries, s, f), |c|); }
  }

  ghost predicate Known(prompts: seq<string>, fp: string -> string, f: string) {
    exists i :: 0 <= i < |prompts| && fp(prompts[i]) == f
  }

  lemma KnownIff(c: seq<nat>, prompts: seq<string>, fp: string -> string, f: string)
    requires Lists(c, prompts, fp, f)
    ensures c != [] <==> Known(prompts, fp, f)
  {
    if c != [] { assert c[0] < |prompts| && fp(prompts[c[0]]) == f; }
  }

  ghost predicate Means(e: Entry, s: nat, prompts: seq<string>, fp: string -> string, p: Pick) {
    var known := Known(prompts, fp, e.fingerprint);
    match p
    case Takes(i) =>
      && i < |prompts|
      && if known then fp(prompts[i]) == e.fingerprint else e.fingerprint == "" && i == e.index
    case Fails(NoMatch(k, g)) => !known && e.fingerprint != "" && k == s && g == e.fingerprint
    case Fails(PoolEmpty) => e.fingerprint == "" && prompts == []
    case Fails(OutOfRange(_, i, n)) => !known && e.fingerprint == "" && i == e.index >= n == |prompts| > 0
  }

  method ValidatePrescribedSequence(order: seq<nat>, size: nat) returns (r: Option<ReplayError>)
    ensures r.None? <==> size > 0 && forall s :: 0 <= s < |order| ==> order[s] < size
    ensures size == 0 ==> r == Some(PoolEmpty)
    ensures r.Some? && size > 0 ==>
      exists s :: 0 <= s < |order| && r == Some(OutOfRange(s, order[s], size)) && order[s] >= size
        && forall t :: 0 <= t < s ==> order[t] < size
  {
    if size == 0 {
      return Some(PoolEmpty);
    }
    for slot := 0 to |order|
      invariant forall t :: 0 <= t < slot ==> order[t] < size
    {
      if order[slot] >= size {
        return Some(OutOfRange(slot, order[slot], size));
      }
    }
    return None;
  }

  /** The table holds, under each fingerprint, its copies in the pool. */
  ghost predicate Indexes(table: map<string, seq<nat>>, prompts: seq<string>, fp: string -> string) {
    forall f :: Copies(prompts, fp, f) == if f in table then table[f] else []
  }

  /** No entry of the table is empty. */
  ghost predicate NoneEmpty(table: map<string, seq<nat>>) { forall f :: f in table ==> table[f] != [] }

  method IndexPool(prompts: seq<string>, fp: string -> string) returns (table: map<string, seq<nat>>)
    ensures Indexes(table, prompts, fp) && NoneEmpty(table)
  {
    hide Indexes;
    table := map[];
    NothingIndexed(fp);
    for index := 0 to |prompts|
      invariant Indexes(table, prompts[..index], fp) && NoneEmpty(table)
    {
      var f := fp(prompts[index]);
      assert prompts[..index + 1][..index] == prompts[..index];
      IndexOne(table, prompts[..index + 1], fp);
      table := table[f := (if f in table then table[f] else []) + [index]];
    }
    assert prompts[..|prompts|] == prompts;
  }

  lemma NothingIndexed(fp: string -> string)
    ensures Indexes(map[], [], fp)
  {
  }

  lemma IndexOne(table: map<string, seq<nat>>, prompts: seq<string>, fp: string -> string)
    requires prompts != [] && Indexes(table, prompts[..|prompts| - 1], fp)
    ensures var n := |prompts| - 1;
      var f := fp(prompts[n]);
      Indexes(table[f := (if f in table then table[f] else []) + [n]], prompts, fp)
  {
    var n := |prompts| - 1;
    var f := fp(prompts[n]);
    var next := table[f := (if f in table then table[f] else []) + [n]];
    forall g ensures Copies(prompts, fp, g) == if g in next then next[g] else [] {
      assert Copies(prompts[..n], fp, g) == if g in table then table[g] else [];
    }
  }

  /** For every fingerprint of the pool, how often it has come up so far. */
  ghost predicate Tallies(used: map<string, nat>, known: set<string>, entries: seq<Entry>, slot: nat)
    requires slot <= |entries|
  {
    forall f :: f in known ==> Seen(entries, slot, f) == if f in used then used[f] else 0
  }

  lemma NothingTallied(known: set<string>, entries: seq<Entry>)
    ensures Tallies(map[], known, entries, 0)
  {
  }

  lemma TallyNext(used: map<string, nat>, known: set<string>, entries: seq<Entry>, slot: nat)
    requires slot < |entries| && Tallies(used, known, entries, slot)
    ensures var f := entries[slot].fingerprint;
      var next := if f in known then used[f := Seen(entries, slot, f) + 1] else used;
      Tallies(next, known, entries, slot + 1)
  {
  }

  method ResolvePrescribedOrder(entries: seq<Entry>, prompts: seq<string>, fp: string -> string) returns (r: Resolution)
    ensures r.Resolved? ==> Resolves(entries, prompts, fp, r.order)
    ensures r.Rejected? ==> exists s :: 0 <= s < |entries| && FailsFirst(entries, prompts, fp, s, r.error)
  {
    hide Copies, Seen;
    var table := IndexPool(prompts, fp);
    var used: map<string, nat> := map[];
    var order: seq<nat> := [];
    NothingTallied(table.Keys, entries);
    for slot := 0 to |entries|
      invariant |order| == slot
      invariant forall s :: 0 <= s < slot ==> ResolveSlot(entries, prompts, fp, s) == Takes(order[s])
      invariant Tallies(used, table.Keys, entries, slot)
    {
      var e := entries[slot];
      TallyNext(used, table.Keys, entries, slot);
      var index;
      if e.fingerprint in table {
        var candidates := table[e.fingerprint];
        var seen := if e.fingerprint in used then used[e.fingerprint] else 0;
        index := candidates[seen % |candidates|];
        used := used[e.fingerprint := seen + 1];
      } else if e.fingerprint != "" {
        r := Rejected(NoMatch(slot, e.fingerprint));
        assert FailsFirst(entries, prompts, fp, slot, r.error);
        return;
      } else {
        var bad := ValidatePrescribedSequence([e.index], |prompts|);
        if bad.Some? {
          assert bad.value.OutOfRange? ==> bad.value == OutOfRange(0, e.index, |prompts|);
          r := Rejected(bad.value);
          assert FailsFirst(entries, prompts, fp, slot, r.error);
          return;
        }
        assert [e.index][0] < |prompts|;
        index := e.index;
      }
      order := order + [index];
    }
    return Resolved(order);
  }

  // ---------- applying

  ghost predicate InRange(order: seq<nat>, size: nat) { forall i :: 0 <= i < |order| ==> order[i] < size }

  function Applied(prompts: seq<string>, order: seq<nat>): (r: seq<string>)
    requires InRange(order, |prompts|)
    ensures |r| == |order| && forall i :: 0 <= i < |order| ==> r[i] == prompts[order[i]]
  {
    seq(|order|, i requires 0 <= i < |order| => prompts[order[i]])
  }

  class PromptPool {
    var prompts: seq<string>

    constructor (prompts: seq<string>)
      ensures this.prompts == prompts
    {
      this.prompts := prompts;
    }

    method ApplyPrescribedSequence(order: seq<nat>)
      requires InRange(order, |prompts|)
      modifies this
      ensures prompts == Applied(old(prompts), order)
    {
      var original := prompts;
      prompts := [];
      for i := 0 to |order|
        invariant original == old(prompts)
        invariant |prompts| == i
        invariant forall j :: 0 <= j < i ==> prompts[j] == original[order[j]]
      {
        prompts := prompts + [original[order[i]]];
      }
    }

    /** The prompt the run sends in slot `seq`. */
    function Sent(slot: nat): string
      requires prompts != []
      reads this
    {
      prompts[slot % |prompts|]
    }
  }

  lemma SlotInRange(entries: seq<Entry>, prompts: seq<string>, fp: string -> string, s: nat, i: nat)
    requires s < |entries| && ResolveSlot(entries, prompts, fp, s) == Takes(i)
    ensures i < |prompts|
  {
    var f := entries[s].fingerprint;
    var c := Copies(prompts, fp, f);
    CopiesAreAll(prompts, fp, f);
    if c != [] {
      ModBounds(Seen(entries, s, f), |c|);
      assert i == c[Seen(entries, s, f) % |c|];
    }
  }

  lemma ResolvedInRange(entries: seq<Entry>, prompts: seq<string>, fp: string -> string, order: seq<nat>)
    requires Resolves(entries, prompts, fp, order)
    ensures InRange(order, |prompts|)
  {
    forall s | 0 <= s < |order| ensures order[s] < |prompts| {
      SlotInRange(entries, prompts, fp, s, order[s]);
    }
  }

  // ---------- record, then replay

  /** No fingerprint is empty, and different prompts among `texts` have different fingerprints. */
  ghost predicate Separates(fp: string -> string, texts: set<string>) {
    && (forall a :: a in texts ==> fp(a) != "")
    && (forall a, b :: a in texts && b in texts && fp(a) == fp(b) ==> a == b)
  }

  ghost function Texts(a: seq<string>, b: seq<string>): set<string> { (set x | x in a) + (set x | x in b) }

  /** The rows carry the fingerprints of the prompts that were sent. */
  ghost predicate Records(rows: seq<Entry>, sent: seq<string>, fp: string -> string) {
    |rows| == |sent| && forall s :: 0 <= s < |rows| ==> rows[s].fingerprint == fp(sent[s])
  }

  /** A slot replays exactly when the pool has its prompt, and then as that prompt. */
  lemma SlotReplays(rows: seq<Entry>, sent: seq<string>, pool: seq<string>, fp: string -> string, s: nat)
    requires Records(rows, sent, fp) && Separates(fp, Texts(sent, pool)) && s < |rows|
    ensures ResolveSlot(rows, pool, fp, s).Takes? <==> sent[s] in pool
    ensures sent[s] in pool ==>
      exists i :: 0 <= i < |pool| && ResolveSlot(rows, pool, fp, s) == Takes(i) && pool[i] == sent[s]
  {
    var f := fp(sent[s]);
    assert rows[s].fingerprint == f && sent[s] in Texts(sent, pool);
    var c := Copies(pool, fp, f);
    CopiesAreAll(pool, fp, f);
    if c != [] {
      var i := c[Seen(rows, s, f) % |c|];
      assert i in c && pool[i] in Texts(sent, pool);
      assert ResolveSlot(rows, pool, fp, s) == Takes(i);
    }
    assert c == [] ==> sent[s] !in pool;
  }

  /** Record then replay: against any pool at all, the recorded rows resolve exactly when the pool
      contains every recorded prompt; and once applied, slot `s` sends the recorded prompt
      `s mod N`, in runs of any length. */
  lemma RecordThenReplay(rows: seq<Entry>, sent: seq<string>, pool: seq<string>, fp: string -> string)
    requires Records(rows, sent, fp) && Separates(fp, Texts(sent, pool))
    ensures (exists order :: Resolves(rows, pool, fp, order)) <==> (forall s :: 0 <= s < |sent| ==> sent[s] in pool)
    ensures forall order :: Resolves(rows, pool, fp, order) ==>
      && InRange(order, |pool|)
      && Applied(pool, order) == sent
      && forall s: nat :: |sent| > 0 ==> Applied(pool, order)[s % |order|] == sent[s % |sent|]
  {
    forall s | 0 <= s < |rows|
      ensures ResolveSlot(rows, pool, fp, s).Takes? <==> sent[s] in pool
      ensures sent[s] in pool ==>
        exists i :: 0 <= i < |pool| && ResolveSlot(rows, pool, fp, s) == Takes(i) && pool[i] == sent[s]
    {
      SlotReplays(rows, sent, pool, fp, s);
    }
    if forall s :: 0 <= s < |sent| ==> sent[s] in pool {
      var order := seq(|rows|, s requires 0 <= s < |rows| => ResolveSlot(rows, pool, fp, s).index);
      assert Resolves(rows, pool, fp, order);
    }
    forall order | Resolves(rows, pool, fp, order)
      ensures InRange(order, |pool|) && Applied(pool, order) == sent
    {
      ResolvedInRange(rows, pool, fp, order);
      forall s | 0 <= s < |order| ensures pool[order[s]] == sent[s] {
        assert ResolveSlot(rows, pool, fp, s) == Takes(order[s]);
      }
    }
  }

  /** The whole trip, on the code itself: log a run, resolve the log against another pool and apply
      it. The replaying pool sends, slot by slot, what the recorded run sent. */
  method RecordAndReplay(prompts: seq<string>, requests: nat, concurrency: nat, prescribed: Option<seq<nat>>,
                         m: Measure, pool: PromptPool)
    returns (sent: seq<string>, outcome: Option<Resolution>)
    requires Separates(m.fingerprint, Texts(prompts, pool.prompts))
    modifies pool
    ensures outcome.None? <==> exists s :: 0 <= s < requests && LoggedPrompt(prompts, prescribed, s).None?
    ensures outcome.Some? ==>
      && |sent| == requests
      && forall s :: 0 <= s < requests ==> LoggedPrompt(prompts, prescribed, s) == Some(sent[s])
    ensures outcome.Some? ==>
      (outcome.value.Resolved? <==> forall s :: 0 <= s < requests ==> sent[s] in old(pool.prompts))
    ensures outcome.Some? && outcome.value.Resolved? ==>
      && |pool.prompts| == requests
      && forall s: nat :: requests > 0 ==> pool.Sent(s) == sent[s % requests]
  {
    hide LoggedPrompt, SlotIndex, ResolveSlot, Resolves;
    var rows, aborted := WriteSequenceLog(prompts, requests, concurrency, prescribed, m);
    if aborted {
      return [], None;
    }
    sent := seq(requests, s requires 0 <= s < requests && LoggedPrompt(prompts, prescribed, s).Some?
                            => LoggedPrompt(prompts, prescribed, s).value);
    forall s | 0 <= s < requests ensures sent[s] in prompts {
      LoggedFromPool(prompts, prescribed, s);
    }
    assert Texts(sent, pool.prompts) <= Texts(prompts, pool.prompts);
    assert Records(rows, sent, m.fingerprint);
    RecordThenReplay(rows, sent, pool.prompts, m.fingerprint);
    var r := ResolvePrescribedOrder(rows, pool.prompts, m.fingerprint);
    if r.Resolved? {
      pool.ApplyPrescribedSequence(r.order);
    } else {
      ghost var s :| 0 <= s < |rows| && FailsFirst(rows, pool.prompts, m.fingerprint, s, r.error);
      SlotReplays(rows, sent, pool.prompts, m.fingerprint, s);
    }
    outcome := Some(r);
  }

  // ---------- duplicate copies take turns

  /** Slots among the first `upto` that carry `f` and resolve to copy `i`. */
  function Uses(entries: seq<Entry>, prompts: seq<string>, fp: string -> string, f: string, i: nat, upto: nat): nat
    requires upto <= |entries|
  {
    if upto == 0 then 0
    else
      var hit := entries[upto - 1].fingerprint == f && ResolveSlot(entries, prompts, fp, upto - 1) == Takes(i);
      Uses(entries, prompts, fp, f, i, upto - 1) + (if hit then 1 else 0)
  }

  /** Of `n` turns around `c` copies, those that fall to copy `k`. */
  function Turns(n: nat, c: nat, k: nat): nat
    requires c > 0
  {
    n / c + (if k < n % c then 1 else 0)
  }

  lemma NextTurn(n: nat, c: nat, k: nat)
    requires k < c
    ensures Turns(n + 1, c, k) == Turns(n, c, k) + (if n % c == k then 1 else 0)
  {
    DivModSucc(n, c);
  }

  /** A slot of fingerprint `f` takes copy `k` exactly when it is its turn. */
  lemma TurnDecides(entries: seq<Entry>, prompts: seq<string>, fp: string -> string, slot: nat, k: nat)
    requires slot < |entries| && k < |Copies(prompts, fp, entries[slot].fingerprint)|
    ensures var f := entries[slot].fingerprint;
      var c := Copies(prompts, fp, f);
      ResolveSlot(entries, prompts, fp, slot) == Takes(c[k]) <==> Seen(entries, slot, f) % |c| == k
  {
    var f := entries[slot].fingerprint;
    var c := Copies(prompts, fp, f);
    var t := Seen(entries, slot, f) % |c|;
    CopiesAreAll(prompts, fp, f);
    assert t < k ==> c[t] < c[k];
    assert k < t ==> c[k] < c[t];
  }

  /** Copy `k` is used once per full turn, plus once if the last turn got that far. */
  lemma {:induction false} UsesExactly(
      entries: seq<Entry>, prompts: seq<string>, fp: string -> string, f: string, k: nat, upto: nat)
    requires upto <= |entries| && k < |Copies(prompts, fp, f)|
    ensures var c := Copies(prompts, fp, f);
      Uses(entries, prompts, fp, f, c[k], upto) == Turns(Seen(entries, upto, f), |c|, k)
  {
    hide Copies, ResolveSlot, Turns;
    var c := Copies(prompts, fp, f);
    if upto == 0 {
      NoTurns(|c|, k);
    } else {
      UsesExactly(entries, prompts, fp, f, k, upto - 1);
      if entries[upto - 1].fingerprint == f {
        NextTurn(Seen(entries, upto - 1, f), |c|, k);
        TurnDecides(entries, prompts, fp, upto - 1, k);
      }
    }
  }

  lemma NoTurns(c: nat, k: nat)
    requires c > 0
    ensures Turns(0, c, k) == 0
  {
    ModSmall(0, c);
  }

  lemma DivModSucc(n: nat, k: nat)
    requires k > 0
    ensures n % k + 1 < k ==> (n + 1) / k == n / k && (n + 1) % k == n % k + 1
    ensures n % k + 1 == k ==> (n + 1) / k == n / k + 1 && (n + 1) % k == 0
  {
    var q, m := n / k, n % k;
    if m + 1 < k {
      ModUnique(n + 1, k, q, m + 1);
    } else {
      assert k * (q + 1) == k * q + k;
      ModUnique(n + 1, k, q + 1, 0);
    }
  }

  /** Any two copies of one prompt are used equally often, to within one. */
  lemma CopiesUsedEvenly(entries: seq<Entry>, prompts: seq<string>, fp: string -> string, f: string, i: nat, j: nat)
    requires i in Copies(prompts, fp, f) && j in Copies(prompts, fp, f)
    ensures -1 <= Uses(entries, prompts, fp, f, i, |entries|) - Uses(entries, prompts, fp, f, j, |entries|) <= 1
  {
    var c := Copies(prompts, fp, f);
    var k: nat :| k < |c| && c[k] == i;
    var l: nat :| l < |c| && c[l] == j;
    UsesExactly(entries, prompts, fp, f, k, |entries|);
    UsesExactly(entries, prompts, fp, f, l, |entries|);
  }

  // ---------- the log of a replayed run

  /** The client logs a replay from the reordered pool and the order again. The log is true when
      every row is written and describes the prompt the run sends. */
  ghost predicate ReplayLogTrue(prompts: seq<string>, order: seq<nat>, requests: nat)
    requires InRange(order, |prompts|) && order != []
  {
    var pool := Applied(prompts, order);
    forall s :: 0 <= s < requests ==> LoggedPrompt(pool, Some(order), s) == Some(pool[s % |pool|])
  }

  /** The order leads from each slot in use to a slot of the order that holds the same prompt. */
  ghost predicate Settles(prompts: seq<string>, order: seq<nat>, slots: nat)
    requires InRange(order, |prompts|) && slots <= |order|
  {
    forall t :: 0 <= t < slots ==> order[t] < |order| && prompts[order[order[t]]] == prompts[order[t]]
  }

  /** The log of a replayed run is true exactly when the order settles on the slots the run uses. */
  lemma ReplayLogTrueIff(prompts: seq<string>, order: seq<nat>, requests: nat)
    requires InRange(order, |prompts|) && order != []
    ensures ReplayLogTrue(prompts, order, requests) <==> Settles(prompts, order, Min(requests, |order|))
  {
    var pool := Applied(prompts, order);
    var n := |order|;
    if ReplayLogTrue(prompts, order, requests) {
      forall t | 0 <= t < Min(requests, n)
        ensures order[t] < n && prompts[order[order[t]]] == prompts[order[t]]
      {
        ModSmall(t, n);
        assert LoggedPrompt(pool, Some(order), t) == Some(pool[t % n]);
      }
    }
    if Settles(prompts, order, Min(requests, n)) {
      forall s | 0 <= s < requests ensures LoggedPrompt(pool, Some(order), s) == Some(pool[s % |pool|]) {
        ModBounds(s, n);
        assert s % n < Min(requests, n);
      }
    }
  }

  /** For a reshuffle of a pool without duplicates, logged over a full turn, the log is true only
      of the order that changes nothing. */
  lemma ReshuffleLogTrueIff(prompts: seq<string>, order: seq<nat>, requests: nat)
    requires InRange(order, |prompts|) && order != [] && |order| == |prompts| <= requests
    requires Distinct(prompts) && Distinct(order)
    ensures ReplayLogTrue(prompts, order, requests) <==> forall t :: 0 <= t < |order| ==> order[t] == t
  {
    ReplayLogTrueIff(prompts, order, requests);
    var n := |order|;
    if Settles(prompts, order, n) {
      forall t | 0 <= t < n ensures order[t] == t {
        assert prompts[order[order[t]]] == prompts[order[t]];
        assert order[order[t]] == order[t];
      }
    }
  }

  /** Two prompts swapped: every row names the wrong prompt. One prompt picked from the end of the
      pool: the first row panics. */
  lemma ReplayLogWrong()
    ensures ResolvesTo(["a", "b"], ["b", "a"], [1, 0])
    ensures !ReplayLogTrue(["a", "b"], [1, 0], 1)
    ensures LoggedPrompt(Applied(["a", "b"], [1, 0]), Some([1, 0]), 0) == Some("a")
         && Applied(["a", "b"], [1, 0])[0] == "b"
    ensures ResolvesTo(["a", "b"], ["b"], [1])
    ensures LoggedPrompt(Applied(["a", "b"], [1]), Some([1]), 0).None?
  {
    hide ReplayLogTrue, Copies;
    OneCopy("b", 1);
    OneCopy("a", 0);
    FirstLogged(["a", "b"], [1, 0]);
    FirstLogged(["a", "b"], [1]);
    ReplayLogTrueIff(["a", "b"], [1, 0], 1);
    assert "a"[0] != "b"[0];
    assert !Settles(["a", "b"], [1, 0], 1) by {
      assert [1, 0][0] == 1 && [1, 0][1] == 0;
    }
  }

  lemma FirstLogged(prompts: seq<string>, order: seq<nat>)
    requires InRange(order, |prompts|) && order != []
    ensures LoggedPrompt(Applied(prompts, order), Some(order), 0)
         == if order[0] < |order| then Some(prompts[order[order[0]]]) else None
  {
    ModSmall(0, |order|);
  }

  /** A recording of `sent`, fingerprinted by the text itself, resolves against `pool` to `order`. */
  ghost predicate ResolvesTo(pool: seq<string>, sent: seq<string>, order: seq<nat>) {
    && |order| == |sent| && InRange(order, |pool|)
    && forall s :: 0 <= s < |sent| ==> Copies(pool, x => x, sent[s]) == [order[s]]
  }

  lemma OneCopy(p: string, i: nat)
    requires (p == "a" && i == 0) || (p == "b" && i == 1)
    ensures Copies(["a", "b"], x => x, p) == [i]
  {
    assert ["a", "b"][..1] == ["a"] && ["a"][..0] == [];
    assert "a"[0] != "b"[0];
    assert Copies([], x => x, p) == [];
    assert Copies(["a"], x => x, p) == if p == "a" then [0] else [];
  }

  /** Logging the original pool with the order, before it is applied, is always true as well. */
  lemma LogFromOriginalPool(prompts: seq<string>, order: seq<nat>, slot: nat)
    requires InRange(order, |prompts|) && order != []
    ensures var pool := Applied(prompts, order);
      LoggedPrompt(prompts, Some(order), slot) == Some(pool[slot % |pool|])
  {
    ModBounds(slot, |order|);
  }

  /** Logging the reordered pool without the order is always true. */
  lemma ReplayLogWithoutOrder(prompts: seq<string>, order: seq<nat>, slot: nat)
    requires InRange(order, |prompts|) && order != []
    ensures var pool := Applied(prompts, order);
      LoggedPrompt(pool, None, slot) == Some(pool[slot % |pool|])
  {
    ModBounds(slot, |order|);
  }
}
