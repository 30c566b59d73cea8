/** Transcript accuracy (src/asr.rs:98-150): the rolling-row edit distance is the least number
    of single-item insertions, deletions and substitutions. */
module Asr {
  import opened Sequences

  // ---------- what an edit is

  ghost predicate Inserts<T>(x: seq<T>, y: seq<T>) {
    exists i :: 0 <= i < |y| && x == y[..i] + y[i + 1..]
  }

  ghost predicate Substitutes<T>(x: seq<T>, y: seq<T>) {
    |x| == |y| && exists i :: 0 <= i < |x| && x[..i] == y[..i] && x[i + 1..] == y[i + 1..]
  }

  /** `y` is `x` after inserting, deleting or substituting one item. */
  ghost predicate OneEdit<T>(x: seq<T>, y: seq<T>) {
    Inserts(x, y) || Inserts(y, x) || Substitutes(x, y)
  }

  /** A script: a chain of sequences, each one edit after the previous one. */
  ghost predicate IsScript<T>(a: seq<T>, b: seq<T>, steps: seq<seq<T>>) {
    steps != [] && steps[0] == a && steps[|steps| - 1] == b
    && forall i :: 0 <= i < |steps| - 1 ==> OneEdit(steps[i], steps[i + 1])
  }

  ghost function Cost<T>(steps: seq<seq<T>>): int { |steps| - 1 }

  // ---------- the recurrence

  function Min3(x: nat, y: nat, z: nat): nat {
    var m := if x <= y then x else y;
    if m <= z then m else z
  }

  function Init<T>(s: seq<T>): seq<T> requires s != [] { s[..|s| - 1] }
  function Last<T>(s: seq<T>): T requires s != [] { s[|s| - 1] }

  function Distance<T(==)>(a: seq<T>, b: seq<T>): nat
    decreases |a| + |b|
  {
    if a == [] then |b|
    else if b == [] then |a|
    else Min3(Distance(Init(a), b) + 1, Distance(a, Init(b)) + 1,
              Distance(Init(a), Init(b)) + (if Last(a) == Last(b) then 0 else 1))
  }

  lemma {:induction false} DistanceStep<T>(a: seq<T>, b: seq<T>)
    requires a != [] && b != []
    ensures Distance(a, b) == Min3(Distance(Init(a), b) + 1, Distance(a, Init(b)) + 1,
                                   Distance(Init(a), Init(b)) + (if Last(a) == Last(b) then 0 else 1))
  {
  }

  lemma DistanceEdges<T>(a: seq<T>)
    ensures Distance(a, []) == |a| && Distance([], a) == |a|
  {
  }

  lemma {:induction false} DistanceSymmetric<T>(a: seq<T>, b: seq<T>)
    ensures Distance(a, b) == Distance(b, a)
    decreases |a| + |b|
  {
    if a != [] && b != [] {
      DistanceSymmetric(Init(a), b);
      DistanceSymmetric(a, Init(b));
      DistanceSymmetric(Init(a), Init(b));
    }
  }

  lemma {:induction false} DistanceSelf<T>(a: seq<T>)
    ensures Distance(a, a) == 0
    decreases |a|
  {
    if a != [] { DistanceSelf(Init(a)); }
  }

  lemma {:induction false} ZeroMeansEqual<T>(a: seq<T>, b: seq<T>)
    requires Distance(a, b) == 0
    ensures a == b
    decreases |a|
  {
    if a != [] && b != [] {
      ZeroMeansEqual(Init(a), Init(b));
      assert a == Init(a) + [Last(a)] && b == Init(b) + [Last(b)];
    }
  }

  lemma DistanceZero<T>(a: seq<T>, b: seq<T>)
    ensures Distance(a, b) == 0 <==> a == b
  {
    DistanceSelf(a);
    if Distance(a, b) == 0 { ZeroMeansEqual(a, b); }
  }

  lemma {:induction false} DistanceBounds<T>(a: seq<T>, b: seq<T>)
    ensures |a| - |b| <= Distance(a, b) && |b| - |a| <= Distance(a, b)
    ensures Distance(a, b) <= |a| || Distance(a, b) <= |b|
    decreases |a| + |b|
  {
    if a != [] && b != [] {
      DistanceBounds(Init(a), b);
      DistanceBounds(a, Init(b));
      DistanceBounds(Init(a), Init(b));
    }
  }

  // ---------- one edit changes the distance by at most one

  lemma SplitLast<T>(x: seq<T>, e: seq<T>, y: seq<T>)
    requires y != []
    ensures x + e + y != [] && Init(x + e + y) == x + e + Init(y) && Last(x + e + y) == Last(y)
  {
  }

  /** Changing the middle part of `b` changes the distance by at most one, if it does so
      when nothing follows the middle part. */
  lemma {:induction false} DropLast<T>(a: seq<T>, x: seq<T>, e: T)
    ensures Distance(a, x) <= Distance(a, x + [e]) + 1
    ensures Distance(a, x + [e]) <= Distance(a, x) + 1
    decreases |a|
  {
    var b := x + [e];
    assert Init(b) == x;
    if a != [] {
      DropLast(Init(a), x, e);
      assert Distance(a, x) <= Distance(Init(a), x) + 1 by { DropFirstArgument(a, x); }
    }
  }

  lemma DropFirstArgument<T>(a: seq<T>, x: seq<T>)
    requires a != []
    ensures Distance(a, x) <= Distance(Init(a), x) + 1
  {
  }

  lemma {:induction false} InsertLipschitz<T>(a: seq<T>, x: seq<T>, e: T, y: seq<T>)
    ensures Distance(a, x + [e] + y) <= Distance(a, x + y) + 1
    ensures Distance(a, x + y) <= Distance(a, x + [e] + y) + 1
    decreases |a| + |y|
  {
    if y == [] {
      assert x + [e] + y == x + [e] && x + y == x;
      DropLast(a, x, e);
    } else if a != [] {
      SplitLast(x, [e], y);
      SplitLast(x, [], y);
      assert x + [] + y == x + y && x + [] + Init(y) == x + Init(y);
      InsertLipschitz(Init(a), x, e, y);
      InsertLipschitz(a, x, e, Init(y));
      InsertLipschitz(Init(a), x, e, Init(y));
    }
  }

  lemma ReplaceLast<T>(a: seq<T>, x: seq<T>, e: T, f: T)
    ensures Distance(a, x + [f]) <= Distance(a, x + [e]) + 1
    decreases |a|
  {
    assert Init(x + [e]) == x && Init(x + [f]) == x;
    if a != [] { ReplaceLast(Init(a), x, e, f); }
  }

  lemma {:induction false} ReplaceLipschitz<T>(a: seq<T>, x: seq<T>, e: T, f: T, y: seq<T>)
    ensures Distance(a, x + [f] + y) <= Distance(a, x + [e] + y) + 1
    decreases |a| + |y|
  {
    if y == [] {
      assert x + [e] + y == x + [e] && x + [f] + y == x + [f];
      ReplaceLast(a, x, e, f);
    } else if a != [] {
      SplitLast(x, [e], y);
      SplitLast(x, [f], y);
      ReplaceLipschitz(Init(a), x, e, f, y);
      ReplaceLipschitz(a, x, e, f, Init(y));
      ReplaceLipschitz(Init(a), x, e, f, Init(y));
    }
  }

  lemma EditLipschitz<T>(a: seq<T>, x: seq<T>, y: seq<T>)
    requires OneEdit(x, y)
    ensures Distance(a, y) <= Distance(a, x) + 1
  {
    hide Distance;
    if Inserts(x, y) {
      var i :| 0 <= i < |y| && x == y[..i] + y[i + 1..];
      SplitAt(y, i);
      InsertLipschitz(a, y[..i], y[i], y[i + 1..]);
    } else if Inserts(y, x) {
      var i :| 0 <= i < |x| && y == x[..i] + x[i + 1..];
      SplitAt(x, i);
      InsertLipschitz(a, x[..i], x[i], x[i + 1..]);
    } else {
      var i :| 0 <= i < |x| && x[..i] == y[..i] && x[i + 1..] == y[i + 1..];
      SplitAt(x, i);
      SplitAt(y, i);
      ReplaceLipschitz(a, x[..i], x[i], y[i], x[i + 1..]);
    }
  }

  lemma SplitAt<T>(s: seq<T>, i: nat)
    requires i < |s|
    ensures s == s[..i] + [s[i]] + s[i + 1..]
  {
  }

  // ---------- the distance is the least cost of a script

  /** No script is cheaper. */
  lemma {:induction false} DistanceLeast<T>(a: seq<T>, b: seq<T>, steps: seq<seq<T>>)
    requires IsScript(a, b, steps)
    ensures Distance(a, b) <= Cost(steps)
    decreases |steps|
  {
    if |steps| == 1 {
      DistanceSelf(a);
    } else {
      var shorter := Init(steps);
      DistanceLeast(a, Last(shorter), shorter);
      assert OneEdit(steps[|steps| - 2], steps[|steps| - 1]);
      EditLipschitz(a, Last(shorter), b);
    }
  }

  lemma AppendKeepsScript<T>(a: seq<T>, b: seq<T>, steps: seq<seq<T>>, next: seq<T>)
    requires IsScript(a, b, steps) && OneEdit(b, next)
    ensures IsScript(a, next, steps + [next])
  {
    var longer := steps + [next];
    forall i | 0 <= i < |longer| - 1 ensures OneEdit(longer[i], longer[i + 1]) {
      if i < |steps| - 1 { assert OneEdit(steps[i], steps[i + 1]); }
    }
  }

  /** Scripts still work when the same item follows everywhere. */
  lemma SnocScript<T>(a: seq<T>, b: seq<T>, steps: seq<seq<T>>, e: T) returns (r: seq<seq<T>>)
    requires IsScript(a, b, steps)
    ensures IsScript(a + [e], b + [e], r) && |r| == |steps|
  {
    r := seq(|steps|, i requires 0 <= i < |steps| => steps[i] + [e]);
    forall i | 0 <= i < |steps| - 1 ensures OneEdit(r[i], r[i + 1]) {
      SnocEdit(steps[i], steps[i + 1], e);
    }
  }

  lemma SnocInsert<T>(x: seq<T>, y: seq<T>, e: T)
    requires Inserts(x, y)
    ensures Inserts(x + [e], y + [e])
  {
    var i :| 0 <= i < |y| && x == y[..i] + y[i + 1..];
    assert x + [e] == (y + [e])[..i] + (y + [e])[i + 1..];
  }

  lemma SnocEdit<T>(x: seq<T>, y: seq<T>, e: T)
    requires OneEdit(x, y)
    ensures OneEdit(x + [e], y + [e])
  {
    if Inserts(x, y) {
      SnocInsert(x, y, e);
    } else if Inserts(y, x) {
      SnocInsert(y, x, e);
    } else {
      var i :| 0 <= i < |x| && x[..i] == y[..i] && x[i + 1..] == y[i + 1..];
      assert (x + [e])[..i] == (y + [e])[..i];
      assert (x + [e])[i + 1..] == x[i + 1..] + [e] && (y + [e])[i + 1..] == y[i + 1..] + [e];
    }
  }

  lemma LastInserted<T>(x: seq<T>)
    requires x != []
    ensures OneEdit(Init(x), x) && OneEdit(x, Init(x))
  {
    assert Init(x) == x[..|x| - 1] + x[|x|..];
  }

  lemma PrependKeepsScript<T>(first: seq<T>, a: seq<T>, b: seq<T>, steps: seq<seq<T>>)
    requires IsScript(a, b, steps) && OneEdit(first, a)
    ensures IsScript(first, b, [first] + steps)
  {
    var longer := [first] + steps;
    forall i | 0 <= i < |longer| - 1 ensures OneEdit(longer[i], longer[i + 1]) {
      if i > 0 { assert OneEdit(steps[i - 1], steps[i]); }
    }
  }

  /** Keep or substitute the last items after editing everything before them. */
  lemma MatchLast<T>(a: seq<T>, b: seq<T>, prefix: seq<seq<T>>) returns (steps: seq<seq<T>>)
    requires a != [] && b != [] && IsScript(Init(a), Init(b), prefix)
    ensures IsScript(a, b, steps) && Cost(steps) == Cost(prefix) + (if Last(a) == Last(b) then 0 else 1)
  {
    var kept := SnocScript(Init(a), Init(b), prefix, Last(a));
    assert a == Init(a) + [Last(a)] && b == Init(b) + [Last(b)];
    if Last(a) == Last(b) {
      steps := kept;
    } else {
      var c := Init(b) + [Last(a)];
      assert c[..|c| - 1] == b[..|c| - 1] && c[|c|..] == b[|c|..];
      assert Substitutes(c, b);
      AppendKeepsScript(a, c, kept, b);
      steps := kept + [b];
    }
  }

  /** A script of exactly that cost exists. */
  lemma {:induction false} DistanceAttained<T>(a: seq<T>, b: seq<T>) returns (steps: seq<seq<T>>)
    ensures IsScript(a, b, steps) && Cost(steps) == Distance(a, b)
    decreases |a| + |b|
  {
    hide Distance, IsScript, OneEdit;
    DistanceEdges(a);
    DistanceEdges(b);
    if a != [] && b != [] { DistanceStep(a, b); }
    if a == [] && b == [] {
      steps := [a];
      TrivialScript(a);
    } else if b != [] && (a == [] || Distance(a, b) == Distance(a, Init(b)) + 1) {
      if a == [] { DistanceEdges(Init(b)); }
      var prefix := DistanceAttained(a, Init(b));
      LastInserted(b);
      AppendKeepsScript(a, Init(b), prefix, b);
      steps := prefix + [b];
    } else if b == [] || Distance(a, b) == Distance(Init(a), b) + 1 {
      if b == [] { DistanceEdges(Init(a)); }
      var rest := DistanceAttained(Init(a), b);
      LastInserted(a);
      PrependKeepsScript(a, Init(a), b, rest);
      steps := [a] + rest;
    } else {
      var prefix := DistanceAttained(Init(a), Init(b));
      steps := MatchLast(a, b, prefix);
    }
  }

  lemma TrivialScript<T>(a: seq<T>)
    ensures IsScript(a, a, [a])
  {
  }

  lemma {:induction false} ScriptsCompose<T>(a: seq<T>, b: seq<T>, c: seq<T>, p: seq<seq<T>>, q: seq<seq<T>>)
    requires IsScript(a, b, p) && IsScript(b, c, q)
    ensures IsScript(a, c, p + q[1..])
  {
    hide OneEdit;
    var both := p + q[1..];
    forall i | 0 <= i < |both| - 1 ensures OneEdit(both[i], both[i + 1]) {
      if i < |p| - 1 {
        assert OneEdit(p[i], p[i + 1]);
      } else {
        assert OneEdit(q[i - |p| + 1], q[i - |p| + 2]);
      }
    }
  }

  /** Scripts compose, so distances obey the triangle inequality. */
  lemma {:induction false} DistanceTriangle<T>(a: seq<T>, b: seq<T>, c: seq<T>)
    ensures Distance(a, c) <= Distance(a, b) + Distance(b, c)
  {
    hide Distance, OneEdit;
    var p := DistanceAttained(a, b);
    var q := DistanceAttained(b, c);
    ScriptsCompose(a, b, c, p, q);
    DistanceLeast(a, c, p + q[1..]);
  }

  // ---------- the rolling rows

  ghost predicate IsRow<T>(expected: seq<T>, actual: seq<T>, i: nat, row: seq<nat>, filled: nat)
    requires i <= |expected|
  {
    |row| == |actual| + 1 && filled <= |row|
    && forall j :: 0 <= j < filled ==> row[j] == Distance(expected[..i], actual[..j])
  }

  lemma RowStep<T>(expected: seq<T>, actual: seq<T>, i: nat, j: nat)
    requires i < |expected| && j < |actual|
    ensures Distance(expected[..i + 1], actual[..j + 1])
         == Min3(Distance(expected[..i], actual[..j + 1]) + 1, Distance(expected[..i + 1], actual[..j]) + 1,
                 Distance(expected[..i], actual[..j]) + (if expected[i] == actual[j] then 0 else 1))
  {
    hide Distance;
    DistanceStep(expected[..i + 1], actual[..j + 1]);
    assert Init(expected[..i + 1]) == expected[..i] && Init(actual[..j + 1]) == actual[..j];
  }

  lemma FirstRow<T>(expected: seq<T>, actual: seq<T>, row: seq<nat>)
    requires |row| == |actual| + 1 && forall j :: 0 <= j < |row| ==> row[j] == j
    ensures IsRow(expected, actual, 0, row, |row|)
  {
    assert expected[..0] == [];
  }

  lemma FirstColumn<T>(expected: seq<T>, actual: seq<T>, i: nat, row: seq<nat>)
    requires i <= |expected| && |row| == |actual| + 1 && row[0] == i
    ensures IsRow(expected, actual, i, row, 1)
  {
    assert actual[..0] == [];
    DistanceEdges(expected[..i]);
  }

  /** Filling entry `j + 1` from the row above and the entry to the left. */
  lemma FillEntry<T>(expected: seq<T>, actual: seq<T>, i: nat, j: nat, previous: seq<nat>, current: seq<nat>, v: nat)
    requires i < |expected| && j < |actual|
    requires IsRow(expected, actual, i, previous, |actual| + 1) && IsRow(expected, actual, i + 1, current, j + 1)
    requires v == Min3(previous[j + 1] + 1, current[j] + 1, previous[j] + (if expected[i] != actual[j] then 1 else 0))
    ensures IsRow(expected, actual, i + 1, current[j + 1 := v], j + 2)
  {
    hide Distance;
    RowStep(expected, actual, i, j);
  }

  method EditDistance<T(==)>(expected: seq<T>, actual: seq<T>) returns (d: nat)
    ensures d == Distance(expected, actual)
  {
    hide IsRow, Distance;
    var previous := new nat[|actual| + 1](j => j);
    FirstRow(expected, actual, previous[..]);
    for i := 0 to |expected|
      invariant previous.Length == |actual| + 1
      invariant IsRow(expected, actual, i, previous[..], |actual| + 1)
    {
      var current := new nat[|actual| + 1](_ => i + 1);
      FirstColumn(expected, actual, i + 1, current[..]);
      ghost var above: seq<nat>, row: seq<nat> := previous[..], current[..];
      for j := 0 to |actual|
        invariant above == previous[..] && row == current[..]
        invariant IsRow(expected, actual, i + 1, row, j + 1)
      {
        var v := Min3(previous[j + 1] + 1, current[j] + 1,
                      previous[j] + (if expected[i] != actual[j] then 1 else 0));
        FillEntry(expected, actual, i, j, above, row, v);
        current[j + 1] := v;
        row := row[j + 1 := v];
      }
      previous := current;
    }
    d := previous[|actual|];
    FinalEntry(expected, actual, previous[..]);
  }

  lemma FinalEntry<T>(expected: seq<T>, actual: seq<T>, row: seq<nat>)
    requires IsRow(expected, actual, |expected|, row, |actual| + 1)
    ensures row[|actual|] == Distance(expected, actual)
  {
    assert expected[..|expected|] == expected && actual[..|actual|] == actual;
  }

  // ---------- error rates

  /** Edits per reference item; `None` when an empty reference meets a nonempty hypothesis.
      Words give the word error rate, characters the character error rate. */
  method ErrorRate<T(==)>(reference: seq<T>, hypothesis: seq<T>) returns (rate: Option<real>)
    ensures rate.None? <==> reference == [] && hypothesis != []
    ensures rate == Some(0.0) <==> reference == hypothesis
    ensures reference != [] ==> rate == Some(Distance(reference, hypothesis) as real / |reference| as real)
  {
    if reference == [] {
      return if hypothesis == [] then Some(0.0) else None;
    }
    var d := EditDistance(reference, hypothesis);
    RateZero(d, |reference|);
    if d == 0 { DistanceZero(reference, hypothesis); }
    DistanceSelf(reference);
    rate := Some(d as real / |reference| as real);
  }

  lemma RateZero(d: nat, n: nat)
    requires n > 0
    ensures d as real / n as real == 0.0 <==> d == 0
  {
  }

  /** The recorded rates: an unscorable transcript counts as fully wrong. */
  method TranscriptErrorRates(
      refWords: seq<string>, hypWords: seq<string>, refChars: string, hypChars: string)
    returns (wer: real, cer: real)
    ensures wer == 0.0 <==> refWords == hypWords
    ensures cer == 0.0 <==> refChars == hypChars
    ensures refWords != [] ==> wer == Distance(refWords, hypWords) as real / |refWords| as real
    ensures refChars != [] ==> cer == Distance(refChars, hypChars) as real / |refChars| as real
    ensures refWords == [] && hypWords != [] ==> wer == 1.0
    ensures refChars == [] && hypChars != [] ==> cer == 1.0
  {
    var w := ErrorRate(refWords, hypWords);
    var c := ErrorRate(refChars, hypChars);
    wer := if w.Some? then w.value else 1.0;
    cer := if c.Some? then c.value else 1.0;
  }
}
