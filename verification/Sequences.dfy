/** Facts about permutations, duplicates and sorting shared by the models. */
module Sequences {

  datatype Option<+T> = None | Some(value: T)

  function Map<A, B>(f: A -> B, s: seq<A>): seq<B> {
    seq(|s|, i requires 0 <= i < |s| => f(s[i]))
  }

  ghost predicate Distinct<T(!new)>(s: seq<T>) {
    forall i, j :: 0 <= i < j < |s| ==> s[i] != s[j]
  }

  function Elements<T>(s: seq<T>): set<T> {
    set x | x in s
  }

  ghost predicate Permutation<T>(a: seq<T>, b: seq<T>) {
    multiset(a) == multiset(b)
  }

  lemma HeadMultiset<T>(s: seq<T>)
    requires s != []
    ensures multiset(s) == multiset{s[0]} + multiset(s[1..])
  {
    assert s == [s[0]] + s[1..];
  }

  lemma RemoveMultiset<T>(s: seq<T>, j: nat)
    requires j < |s|
    ensures multiset(s) == multiset{s[j]} + multiset(s[..j] + s[j + 1..])
  {
    assert s == s[..j] + ([s[j]] + s[j + 1..]);
  }

  /** A permutation can be matched one element at a time. */
  lemma PermutationSplit<T>(a: seq<T>, b: seq<T>) returns (j: nat)
    requires a != [] && Permutation(a, b)
    ensures j < |b| && b[j] == a[0] && Permutation(a[1..], b[..j] + b[j + 1..])
  {
    assert a[0] in multiset(b);
    j :| 0 <= j < |b| && b[j] == a[0];
    HeadMultiset(a);
    RemoveMultiset(b, j);
    assert multiset(a[1..]) == multiset(a) - multiset{a[0]};
    assert multiset(b[..j] + b[j + 1..]) == multiset(b) - multiset{a[0]};
  }

  lemma PermutationLength<T>(a: seq<T>, b: seq<T>)
    requires Permutation(a, b)
    ensures |a| == |b|
  {
    assert |multiset(a)| == |multiset(b)|;
  }

  lemma {:induction false} MapPermutation<A, B>(f: A -> B, a: seq<A>, b: seq<A>)
    requires Permutation(a, b)
    ensures Permutation(Map(f, a), Map(f, b))
  {
    PermutationLength(a, b);
    if a != [] {
      var j := PermutationSplit(a, b);
      var rest := b[..j] + b[j + 1..];
      MapPermutation(f, a[1..], rest);
      assert Map(f, a) == [f(a[0])] + Map(f, a[1..]);
      assert Map(f, b) == Map(f, b[..j]) + ([f(b[j])] + Map(f, b[j + 1..]));
      assert Map(f, rest) == Map(f, b[..j]) + Map(f, b[j + 1..]);
    }
  }

  lemma {:induction false} DistinctMultiplicity<T(!new)>(s: seq<T>)
    ensures Distinct(s) <==> forall x :: x in s ==> multiset(s)[x] == 1
  {
    if s != [] {
      var t := s[1..];
      DistinctMultiplicity(t);
      assert s == [s[0]] + t;
      assert multiset(s) == multiset{s[0]} + multiset(t);
      if Distinct(s) {
        assert forall i, j :: 0 <= i < j < |t| ==> t[i] == s[i + 1] && t[j] == s[j + 1];
        assert s[0] !in t;
        forall x | x in s ensures multiset(s)[x] == 1 {
          if x != s[0] { assert x in t; }
        }
      } else {
        var i, j :| 0 <= i < j < |s| && s[i] == s[j];
        if i == 0 {
          assert s[0] == t[j - 1];
          assert s[0] in multiset(t) && multiset(s)[s[0]] >= 2;
        } else {
          assert t[i - 1] == t[j - 1];
          var x :| x in t && multiset(t)[x] != 1;
          assert x in multiset(t);
          assert x in s && multiset(s)[x] >= multiset(t)[x] >= 2;
        }
      }
    }
  }

  lemma DistinctPermutation<T(!new)>(a: seq<T>, b: seq<T>)
    requires Distinct(a) && Permutation(a, b)
    ensures Distinct(b)
  {
    DistinctMultiplicity(a);
    DistinctMultiplicity(b);
    forall x | x in b ensures multiset(b)[x] == 1 {
      assert x in multiset(a);
      assert x in a;
    }
  }

  lemma {:induction false} DistinctCardinality<T(!new)>(s: seq<T>)
    requires Distinct(s)
    ensures |Elements(s)| == |s|
  {
    if s != [] {
      var t := s[1..];
      assert forall i, j :: 0 <= i < j < |t| ==> t[i] == s[i + 1] && t[j] == s[j + 1];
      DistinctCardinality(t);
      assert s[0] !in t;
      assert Elements(s) == Elements(t) + {s[0]};
    } else {
      assert Elements(s) == {};
    }
  }

  // ---------- sorting by a real key

  ghost predicate SortedBy<T>(key: T -> real, s: seq<T>) {
    forall i, j :: 0 <= i < j < |s| ==> key(s[i]) <= key(s[j])
  }

  function Insert<T>(key: T -> real, x: T, s: seq<T>): seq<T> {
    if s == [] || key(x) <= key(s[0]) then [x] + s else [s[0]] + Insert(key, x, s[1..])
  }

  /** The stable sort the program calls on copies of its vectors. */
  function SortBy<T>(key: T -> real, s: seq<T>): seq<T> {
    if s == [] then [] else Insert(key, s[0], SortBy(key, s[1..]))
  }

  lemma {:induction false} InsertPermutes<T>(key: T -> real, x: T, s: seq<T>)
    ensures multiset(Insert(key, x, s)) == multiset{x} + multiset(s)
  {
    if s != [] && key(s[0]) < key(x) {
      InsertPermutes(key, x, s[1..]);
      HeadMultiset(s);
    }
  }

  lemma {:induction false} InsertSorts<T>(key: T -> real, x: T, s: seq<T>)
    requires SortedBy(key, s)
    ensures SortedBy(key, Insert(key, x, s))
  {
    if s != [] && key(s[0]) < key(x) {
      var t := s[1..];
      InsertSorts(key, x, t);
      var u := Insert(key, x, t);
      forall i | 0 <= i < |u| ensures key(s[0]) <= key(u[i]) {
        InsertPermutes(key, x, t);
        assert u[i] in multiset(u);
        if u[i] != x {
          assert u[i] in t;
        }
      }
      SortedCons(key, s[0], u);
    }
  }

  lemma SortedCons<T>(key: T -> real, x: T, s: seq<T>)
    requires SortedBy(key, s) && forall i :: 0 <= i < |s| ==> key(x) <= key(s[i])
    ensures SortedBy(key, [x] + s)
  {
  }

  lemma {:induction false} SortBySorts<T>(key: T -> real, s: seq<T>)
    ensures SortedBy(key, SortBy(key, s)) && Permutation(SortBy(key, s), s)
  {
    if s != [] {
      SortBySorts(key, s[1..]);
      InsertSorts(key, s[0], SortBy(key, s[1..]));
      InsertPermutes(key, s[0], SortBy(key, s[1..]));
      HeadMultiset(s);
    }
  }

  lemma SortedHead(key: real -> real, a: seq<real>, b: seq<real>)
    requires forall x :: key(x) == x
    requires a != [] && b != [] && SortedBy(key, a) && SortedBy(key, b) && Permutation(a, b)
    ensures a[0] <= b[0]
  {
    assert b[0] in multiset(a);
    var j :| 0 <= j < |a| && a[j] == b[0];
    assert j > 0 ==> key(a[0]) <= key(a[j]);
  }

  lemma TailsPermute<T>(a: seq<T>, b: seq<T>)
    requires a != [] && b != [] && a[0] == b[0] && Permutation(a, b)
    ensures Permutation(a[1..], b[1..])
  {
    HeadMultiset(a);
    HeadMultiset(b);
    assert multiset(a[1..]) == multiset(a) - multiset{a[0]};
    assert multiset(b[1..]) == multiset(b) - multiset{b[0]};
  }

  lemma SortedTail<T>(key: T -> real, s: seq<T>)
    requires s != [] && SortedBy(key, s)
    ensures SortedBy(key, s[1..])
  {
  }

  /** Sorted sequences of numbers are determined by their elements. */
  lemma {:induction false} SortedUnique(key: real -> real, a: seq<real>, b: seq<real>)
    requires forall x :: key(x) == x
    requires SortedBy(key, a) && SortedBy(key, b) && Permutation(a, b)
    ensures a == b
  {
    PermutationLength(a, b);
    if a != [] {
      SortedHead(key, a, b);
      SortedHead(key, b, a);
      TailsPermute(a, b);
      SortedTail(key, a);
      SortedTail(key, b);
      SortedUnique(key, a[1..], b[1..]);
      assert a == [a[0]] + a[1..];
      assert b == [b[0]] + b[1..];
    }
  }
}
