/** Strings with holes: the text around the holes woven with what fills them. */
module Template {
  import opened Sequences

  /** `parts[0] + fills[0] + parts[1] + ... + parts[k]`. */
  function Weave(parts: seq<string>, fills: seq<string>): string
    requires |parts| == |fills| + 1
  {
    if fills == [] then parts[0] else parts[0] + fills[0] + Weave(parts[1..], fills[1..])
  }

  /** `parts[0] + fills[0] + ... + parts[k-1] + fills[k-1]`. */
  function Closed(parts: seq<string>, fills: seq<string>): string
    requires |parts| == |fills|
  {
    if fills == [] then "" else parts[0] + fills[0] + Closed(parts[1..], fills[1..])
  }

  function Prefixed(a: string, parts: seq<string>): seq<string>
    requires parts != []
  {
    parts[0 := a + parts[0]]
  }

  function Suffixed(parts: seq<string>, b: string): seq<string>
    requires parts != []
  {
    parts[|parts| - 1 := parts[|parts| - 1] + b]
  }

  lemma {:induction false} WeavePrefixed(a: string, parts: seq<string>, fills: seq<string>)
    requires |parts| == |fills| + 1
    ensures Weave(Prefixed(a, parts), fills) == a + Weave(parts, fills)
  {
    if fills != [] {
      assert Prefixed(a, parts)[1..] == parts[1..];
      var rest := Weave(parts[1..], fills[1..]);
      assert (a + parts[0]) + fills[0] + rest == a + (parts[0] + fills[0] + rest);
    }
  }

  lemma {:induction false} WeaveSuffixed(parts: seq<string>, fills: seq<string>, b: string)
    requires |parts| == |fills| + 1
    ensures Weave(Suffixed(parts, b), fills) == Weave(parts, fills) + b
  {
    if fills != [] {
      WeaveSuffixed(parts[1..], fills[1..], b);
      assert Suffixed(parts, b)[1..] == Suffixed(parts[1..], b);
      var rest := Weave(parts[1..], fills[1..]);
      assert parts[0] + fills[0] + (rest + b) == parts[0] + fills[0] + rest + b;
    }
  }

  /** Everything before hole `i`, then the rest. */
  lemma {:induction false} WeaveCut(parts: seq<string>, fills: seq<string>, i: nat)
    requires |parts| == |fills| + 1 && i <= |fills|
    ensures Weave(parts, fills) == Closed(parts[..i], fills[..i]) + Weave(parts[i..], fills[i..])
  {
    if i == 0 {
      assert parts[0..] == parts && fills[0..] == fills && parts[..0] == [] && fills[..0] == [];
    } else {
      WeaveCut(parts[1..], fills[1..], i - 1);
      SlicesShift(parts, i);
      SlicesShift(fills, i);
      var before, after := Closed(parts[1..][..i - 1], fills[1..][..i - 1]), Weave(parts[i..], fills[i..]);
      assert parts[0] + fills[0] + (before + after) == parts[0] + fills[0] + before + after;
    }
  }

  lemma SlicesShift(s: seq<string>, i: nat)
    requires 0 < i <= |s|
    ensures s[..i][1..] == s[1..][..i - 1] && s[1..][i - 1..] == s[i..] && s[..i][0] == s[0]
  {
  }

  lemma {:induction false} ClosedSnoc(parts: seq<string>, fills: seq<string>, i: nat)
    requires |parts| >= |fills| && i < |fills|
    ensures Closed(parts[..i + 1], fills[..i + 1]) == Closed(parts[..i], fills[..i]) + parts[i] + fills[i]
  {
    if i == 0 {
      assert parts[..1] == [parts[0]] && fills[..1] == [fills[0]] && parts[..0] == [] && fills[..0] == [];
      assert parts[..1][1..] == [] && fills[..1][1..] == [];
    } else {
      ClosedSnoc(parts[1..], fills[1..], i - 1);
      SlicesShift(parts, i);
      SlicesShift(fills, i);
      SlicesShift(parts, i + 1);
      SlicesShift(fills, i + 1);
      var before := Closed(parts[1..][..i - 1], fills[1..][..i - 1]);
      assert parts[0] + fills[0] + (before + parts[i] + fills[i]) == parts[0] + fills[0] + before + parts[i] + fills[i];
    }
  }

  // ---------- looking a token up

  ghost predicate IsHit(s: string, token: string, at: nat) {
    at + |token| <= |s| && s[at..at + |token|] == token
  }

  ghost predicate UniqueHit(s: string, token: string, at: nat) {
    IsHit(s, token, at) && forall p :: IsHit(s, token, p) ==> p == at
  }

  /** The only place where `token` occurs, if there is exactly one. */
  method FindUnique(s: string, token: string) returns (r: Option<nat>)
    ensures r.Some? ==> UniqueHit(s, token, r.value)
    ensures r.None? ==> forall p :: !UniqueHit(s, token, p)
  {
    r := None;
    var at := 0;
    while at + |token| <= |s|
      invariant forall p :: 0 <= p < at && IsHit(s, token, p) ==> r == Some(p)
      invariant r.Some? ==> r.value < at && IsHit(s, token, r.value)
      decreases |s| - at
    {
      if s[at..at + |token|] == token {
        if r.Some? {
          assert IsHit(s, token, r.value) && IsHit(s, token, at);
          return None;
        }
        r := Some(at);
      }
      at := at + 1;
    }
  }

  /** Where hole `i` sits in the woven text. */
  ghost function HoleAt(parts: seq<string>, fills: seq<string>, i: nat): nat
    requires |parts| == |fills| + 1 && i < |fills|
  {
    |Closed(parts[..i], fills[..i])| + |parts[i]|
  }

  lemma HoleIsHit(parts: seq<string>, fills: seq<string>, i: nat)
    requires |parts| == |fills| + 1 && i < |fills|
    ensures IsHit(Weave(parts, fills), fills[i], HoleAt(parts, fills, i))
    ensures i + 1 < |fills| ==> HoleAt(parts, fills, i) + |fills[i]| <= HoleAt(parts, fills, i + 1)
  {
    WeaveCut(parts, fills, i + 1);
    ClosedSnoc(parts, fills, i);
    var s, at := Weave(parts, fills), HoleAt(parts, fills, i);
    var before, rest := Closed(parts[..i], fills[..i]) + parts[i], Weave(parts[i + 1..], fills[i + 1..]);
    assert s == before + fills[i] + rest;
    assert s[at..at + |fills[i]|] == fills[i];
  }

  // ---------- splicing

  /** Every token occurs exactly once, at increasing places. */
  ghost predicate Placed(s: string, tokens: seq<string>, spans: seq<nat>) {
    && |spans| == |tokens|
    && (forall i :: 0 <= i < |tokens| ==> UniqueHit(s, tokens[i], spans[i]))
    && (forall i :: 0 <= i < |spans| - 1 ==> spans[i] < spans[i + 1])
  }

  ghost predicate Placeable(s: string, tokens: seq<string>) {
    exists spans :: Placed(s, tokens, spans)
  }

  method FindSpans(s: string, tokens: seq<string>) returns (r: Option<seq<nat>>)
    ensures r.Some? ==> Placed(s, tokens, r.value)
    ensures r.None? ==> !Placeable(s, tokens)
  {
    var spans: seq<nat> := [];
    for i := 0 to |tokens|
      invariant |spans| == i && forall j :: 0 <= j < i ==> UniqueHit(s, tokens[j], spans[j])
    {
      var at := FindUnique(s, tokens[i]);
      if at.None? {
        forall other ensures !Placed(s, tokens, other) {
          if |other| == |tokens| { assert !UniqueHit(s, tokens[i], other[i]); }
        }
        return None;
      }
      spans := spans + [at.value];
    }
    if forall i :: 0 <= i < |spans| - 1 ==> spans[i] < spans[i + 1] {
      return Some(spans);
    }
    forall other ensures !Placed(s, tokens, other) {
      if |other| == |tokens| && forall i :: 0 <= i < |tokens| ==> UniqueHit(s, tokens[i], other[i]) {
        forall i | 0 <= i < |tokens| ensures other[i] == spans[i] {
          assert UniqueHit(s, tokens[i], spans[i]);
        }
        assert other == spans;
      }
    }
    return None;
  }

  ghost predicate NonOverlapping(s: string, tokens: seq<string>, spans: seq<nat>) {
    |spans| == |tokens|
    && (forall i :: 0 <= i < |spans| ==> spans[i] + |tokens[i]| <= |s|)
    && (forall i :: 0 <= i < |spans| - 1 ==> spans[i] + |tokens[i]| <= spans[i + 1])
  }

  /** `s` with each token replaced by its fill, copying from left to right. */
  function Splice(s: string, tokens: seq<string>, spans: seq<nat>, fills: seq<string>, i: nat, copied: nat): string
    requires i <= |tokens| == |spans| == |fills| && copied <= |s|
    decreases |tokens| - i
  {
    if i == |tokens| then s[copied..]
    else if copied <= spans[i] && spans[i] + |tokens[i]| <= |s| then
      s[copied..spans[i]] + fills[i] + Splice(s, tokens, spans, fills, i + 1, spans[i] + |tokens[i]|)
    else ""
  }

  /** Splicing at the real holes gives the text woven with the new fills. */
  lemma {:induction false} SpliceIsWeave(
      parts: seq<string>, tokens: seq<string>, spans: seq<nat>, fills: seq<string>, i: nat)
    requires |parts| == |tokens| + 1 && |spans| == |tokens| == |fills| && i <= |tokens|
    requires forall j :: 0 <= j < |tokens| ==> spans[j] == HoleAt(parts, tokens, j)
    ensures |Closed(parts[..i], tokens[..i])| <= |Weave(parts, tokens)|
    ensures Splice(Weave(parts, tokens), tokens, spans, fills, i, |Closed(parts[..i], tokens[..i])|)
         == Weave(parts[i..], fills[i..])
    decreases |tokens| - i
  {
    hide Weave, Closed;
    var s := Weave(parts, tokens);
    var before := Closed(parts[..i], tokens[..i]);
    WeaveCut(parts, tokens, i);
    if i < |tokens| {
      SpliceIsWeave(parts, tokens, spans, fills, i + 1);
      ClosedSnoc(parts, tokens, i);
      WeaveCut(parts, tokens, i + 1);
      var rest := Weave(parts[i + 1..], tokens[i + 1..]);
      assert s == before + parts[i] + tokens[i] + rest;
      assert s[|before|..spans[i]] == parts[i];
      WeaveCons(parts, fills, i);
    } else {
      WeaveEnd(parts, tokens);
      WeaveEnd(parts, fills);
      assert s[|before|..] == Weave(parts[i..], tokens[i..]);
    }
  }

  lemma WeaveCons(parts: seq<string>, fills: seq<string>, i: nat)
    requires |parts| == |fills| + 1 && i < |fills|
    ensures Weave(parts[i..], fills[i..]) == parts[i] + fills[i] + Weave(parts[i + 1..], fills[i + 1..])
  {
    assert parts[i..][1..] == parts[i + 1..] && fills[i..][1..] == fills[i + 1..];
  }

  lemma WeaveEnd(parts: seq<string>, fills: seq<string>)
    requires |parts| == |fills| + 1
    ensures Weave(parts[|fills|..], fills[|fills|..]) == parts[|fills|]
  {
  }

  lemma SpliceStep(
      out: string, s: string, tokens: seq<string>, spans: seq<nat>, fills: seq<string>, i: nat, copied: nat)
    requires i < |tokens| == |spans| == |fills| && copied <= spans[i] && spans[i] + |tokens[i]| <= |s|
    ensures out + Splice(s, tokens, spans, fills, i, copied)
         == (out + s[copied..spans[i]] + fills[i]) + Splice(s, tokens, spans, fills, i + 1, spans[i] + |tokens[i]|)
  {
    var rest := Splice(s, tokens, spans, fills, i + 1, spans[i] + |tokens[i]|);
    assert out + (s[copied..spans[i]] + fills[i] + rest) == (out + s[copied..spans[i]] + fills[i]) + rest;
  }

  lemma SpliceEnd(s: string, tokens: seq<string>, spans: seq<nat>, fills: seq<string>, copied: nat)
    requires |tokens| == |spans| == |fills| && copied <= |s|
    ensures Splice(s, tokens, spans, fills, |tokens|, copied) == s[copied..]
  {
  }

  ghost function CountOf(s: string, c: char): nat { multiset(s)[c] }

  lemma CountAppend(a: string, b: string, c: char)
    ensures CountOf(a + b, c) == CountOf(a, c) + CountOf(b, c)
  {
  }

  lemma CountIn(s: string, c: char)
    ensures c in s <==> CountOf(s, c) > 0
  {
    assert c in s <==> c in multiset(s);
  }

  ghost predicate AllHit(s: string, tokens: seq<string>, spans: seq<nat>) {
    |spans| == |tokens| && forall j :: 0 <= j < |tokens| ==> IsHit(s, tokens[j], spans[j])
  }

  /** If every token holds a character that no fill holds, each replacement loses one of them. */
  lemma {:induction false} SpliceLoses(
      s: string, tokens: seq<string>, spans: seq<nat>, fills: seq<string>, c: char, i: nat, copied: nat)
    requires i <= |tokens| == |spans| == |fills| && copied <= |s|
    requires NonOverlapping(s, tokens, spans) && AllHit(s, tokens, spans)
    requires i < |tokens| ==> copied <= spans[i]
    requires forall j :: 0 <= j < |tokens| ==> c in tokens[j]
    requires forall j :: 0 <= j < |fills| ==> c !in fills[j]
    ensures CountOf(Splice(s, tokens, spans, fills, i, copied), c) + (|tokens| - i) <= CountOf(s[copied..], c)
    decreases |tokens| - i
  {
    hide CountOf, AllHit;
    if i < |tokens| {
      assert c in tokens[i] && c !in fills[i];
      var end := spans[i] + |tokens[i]|;
      SpliceLoses(s, tokens, spans, fills, c, i + 1, end);
      LoseOne(s, tokens, spans, c, i, copied);
      var before, rest := s[copied..spans[i]], Splice(s, tokens, spans, fills, i + 1, end);
      CountAppend(before + fills[i], rest, c);
      CountAppend(before, fills[i], c);
      CountIn(fills[i], c);
    }
  }

  lemma LoseOne(s: string, tokens: seq<string>, spans: seq<nat>, c: char, i: nat, copied: nat)
    requires AllHit(s, tokens, spans) && i < |tokens| && copied <= spans[i] && c in tokens[i]
    ensures spans[i] + |tokens[i]| <= |s|
    ensures CountOf(s[copied..], c) >= CountOf(s[copied..spans[i]], c) + 1 + CountOf(s[spans[i] + |tokens[i]|..], c)
  {
    hide CountOf;
    var at := spans[i];
    assert IsHit(s, tokens[i], at);
    var before, rest := s[copied..at], s[at + |tokens[i]|..];
    assert s[copied..] == before + (tokens[i] + rest);
    CountAppend(before, tokens[i] + rest, c);
    CountAppend(tokens[i], rest, c);
    CountIn(tokens[i], c);
  }

  /** The copying loop. Tokens that overlap make a slice with its end before its start, which
      aborts the program; that is `None` here. */
  method SpliceAll(s: string, tokens: seq<string>, spans: seq<nat>, fills: seq<string>) returns (r: Option<string>)
    requires |fills| == |tokens| == |spans| && forall i :: 0 <= i < |spans| ==> spans[i] + |tokens[i]| <= |s|
    ensures r.Some? <==> NonOverlapping(s, tokens, spans)
    ensures r.Some? ==> r.value == Splice(s, tokens, spans, fills, 0, 0)
  {
    hide Splice;
    var out := "";
    var copied: nat := 0;
    assert out + Splice(s, tokens, spans, fills, 0, 0) == Splice(s, tokens, spans, fills, 0, 0);
    for i := 0 to |tokens|
      invariant copied == if i == 0 then 0 else spans[i - 1] + |tokens[i - 1]|
      invariant copied <= |s| && forall j :: 0 <= j < i - 1 ==> spans[j] + |tokens[j]| <= spans[j + 1]
      invariant out + Splice(s, tokens, spans, fills, i, copied) == Splice(s, tokens, spans, fills, 0, 0)
    {
      if copied > spans[i] {
        return None;
      }
      SpliceStep(out, s, tokens, spans, fills, i, copied);
      out := out + s[copied..spans[i]] + fills[i];
      copied := spans[i] + |tokens[i]|;
    }
    SpliceEnd(s, tokens, spans, fills, copied);
    return Some(out + s[copied..]);
  }
}
