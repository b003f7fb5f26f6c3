/**
 * Python's ordering of `str` values, the built-in `sorted(..., key=...)` and
 * list comprehensions with an `if` filter, as pure functions over sequences.
 */
module Ordering {

  /** `a < b` on Python strings: lexicographic by code point, a proper prefix first. */
  predicate Below(a: string, b: string)
  {
    if a == [] then b != []
    else if b == [] then false
    else if a[0] == b[0] then Below(a[1..], b[1..])
    else a[0] < b[0]
  }

  lemma {:induction false} BelowIrreflexive(a: string)
    ensures !Below(a, a)
  {
    if a != [] {
      BelowIrreflexive(a[1..]);
    }
  }

  lemma {:induction false} BelowTransitive(a: string, b: string, c: string)
    requires Below(a, b) && Below(b, c)
    ensures Below(a, c)
  {
    if a != [] && b != [] && c != [] && a[0] == b[0] && b[0] == c[0] {
      BelowTransitive(a[1..], b[1..], c[1..]);
    }
  }

  /** Any two different strings are ordered one way or the other. */
  lemma {:induction false} BelowTotal(a: string, b: string)
    requires a != b
    ensures Below(a, b) || Below(b, a)
  {
    if a != [] && b != [] && a[0] == b[0] {
      assert a == [a[0]] + a[1..] && b == [b[0]] + b[1..];
      BelowTotal(a[1..], b[1..]);
    }
  }

  lemma BelowAsymmetric(a: string, b: string)
    requires Below(a, b)
    ensures !Below(b, a)
  {
    if Below(b, a) {
      BelowTransitive(a, b, a);
      BelowIrreflexive(a);
    }
  }

  /** Non-decreasing by `key`: what `sorted(s, key=key)` produces. */
  ghost predicate SortedBy<T(!new)>(s: seq<T>, key: T -> string)
  {
    forall i, j :: 0 <= i < j < |s| ==> !Below(key(s[j]), key(s[i]))
  }

  /** Strictly increasing by `key`. */
  ghost predicate StrictlySortedBy<T(!new)>(s: seq<T>, key: T -> string)
  {
    forall i, j :: 0 <= i < j < |s| ==> Below(key(s[i]), key(s[j]))
  }

  /** No two elements share a key. */
  ghost predicate DistinctBy<T(!new)>(s: seq<T>, key: T -> string)
  {
    forall i, j :: 0 <= i < j < |s| ==> key(s[i]) != key(s[j])
  }

  /** Inserts `x` after every element whose key is not above its own (stable). */
  function Insert<T(!new)>(x: T, s: seq<T>, key: T -> string): (r: seq<T>)
    ensures multiset(r) == multiset(s) + multiset{x}
  {
    if s == [] then [x]
    else if Below(key(x), key(s[0])) then [x] + s
    else
      assert s == [s[0]] + s[1..];
      [s[0]] + Insert(x, s[1..], key)
  }

  /** `sorted(s, key=key)`: a stable insertion sort. */
  function SortBy<T(!new)>(s: seq<T>, key: T -> string): (r: seq<T>)
    ensures multiset(r) == multiset(s)
    ensures |r| == |s|
    ensures forall x :: x in r <==> x in s
  {
    if s == [] then []
    else
      SplitLast(s);
      var r := Insert(s[|s| - 1], SortBy(s[..|s| - 1], key), key);
      assert forall x :: x in r <==> x in multiset(r);
      r
  }

  lemma {:induction false} InsertSorted<T(!new)>(x: T, s: seq<T>, key: T -> string)
    requires SortedBy(s, key)
    ensures SortedBy(Insert(x, s, key), key)
  {
    if s == [] {
    } else if Below(key(x), key(s[0])) {
      forall j | 0 <= j < |s|
        ensures !Below(key(s[j]), key(x))
      {
        if Below(key(s[j]), key(x)) {
          BelowTransitive(key(s[j]), key(x), key(s[0]));
          BelowIrreflexive(key(s[0]));
        }
      }
      SortedCons(x, s, key);
    } else {
      InsertSorted(x, s[1..], key);
      var t := Insert(x, s[1..], key);
      assert Insert(x, s, key) == [s[0]] + t;
      if key(x) != key(s[0]) {
        BelowTotal(key(x), key(s[0]));
      }
      forall j | 0 <= j < |t|
        ensures !Below(key(t[j]), key(s[0]))
      {
        assert t[j] in multiset(t);
        if t[j] != x {
          assert t[j] in s[1..];
        }
      }
      SortedCons(s[0], t, key);
    }
  }

  /** A sorted sequence stays sorted under a head that no element is below. */
  lemma SortedCons<T(!new)>(h: T, s: seq<T>, key: T -> string)
    requires SortedBy(s, key)
    requires forall j :: 0 <= j < |s| ==> !Below(key(s[j]), key(h))
    ensures SortedBy([h] + s, key)
  {
    var r := [h] + s;
    forall i, j | 0 <= i < j < |r|
      ensures !Below(key(r[j]), key(r[i]))
    {
      assert r[j] == s[j - 1];
      if i > 0 {
        assert r[i] == s[i - 1];
      }
    }
  }

  /** `sorted` really sorts. */
  lemma {:induction false} SortBySorted<T(!new)>(s: seq<T>, key: T -> string)
    ensures SortedBy(SortBy(s, key), key)
  {
    if s != [] {
      SortBySorted(s[..|s| - 1], key);
      InsertSorted(s[|s| - 1], SortBy(s[..|s| - 1], key), key);
    }
  }

  lemma {:induction false} InsertDistinct<T(!new)>(x: T, s: seq<T>, key: T -> string)
    requires DistinctBy(s, key)
    requires forall y :: y in s ==> key(y) != key(x)
    ensures DistinctBy(Insert(x, s, key), key)
  {
    if s != [] && !Below(key(x), key(s[0])) {
      InsertDistinct(x, s[1..], key);
      var t := Insert(x, s[1..], key);
      forall j | 0 <= j < |t|
        ensures key(t[j]) != key(s[0])
      {
        assert t[j] in multiset(t);
        if t[j] != x {
          assert t[j] in s[1..];
          var k :| 0 <= k < |s[1..]| && s[1..][k] == t[j];
          assert s[k + 1] == t[j];
        }
      }
    }
  }

  lemma {:induction false} SortByDistinct<T(!new)>(s: seq<T>, key: T -> string)
    requires DistinctBy(s, key)
    ensures DistinctBy(SortBy(s, key), key)
  {
    if s != [] {
      var p := s[..|s| - 1];
      SortByDistinct(p, key);
      forall y | y in SortBy(p, key)
        ensures key(y) != key(s[|s| - 1])
      {
        var k :| 0 <= k < |p| && p[k] == y;
      }
      InsertDistinct(s[|s| - 1], SortBy(p, key), key);
    }
  }

  /** Two sequences with distinct keys and no key in common concatenate to one with distinct keys. */
  lemma DistinctSnoc<T(!new)>(s: seq<T>, x: T, key: T -> string)
    requires DistinctBy(s, key)
    requires forall y :: y in s ==> key(y) != key(x)
    ensures DistinctBy(s + [x], key)
  {
    var r := s + [x];
    forall i, j | 0 <= i < j < |r|
      ensures key(r[i]) != key(r[j])
    {
      assert r[i] == s[i];
      if j < |s| {
        assert r[j] == s[j];
      } else {
        assert s[i] in s;
      }
    }
  }

  lemma DistinctConcat<T(!new)>(a: seq<T>, b: seq<T>, key: T -> string)
    requires DistinctBy(a, key) && DistinctBy(b, key)
    requires forall x, y :: x in a && y in b ==> key(x) != key(y)
    ensures DistinctBy(a + b, key)
  {
    var s := a + b;
    forall i, j | 0 <= i < j < |s|
      ensures key(s[i]) != key(s[j])
    {
      if j < |a| {
        assert s[i] == a[i] && s[j] == a[j];
      } else if i >= |a| {
        assert s[i] == b[i - |a|] && s[j] == b[j - |a|];
      } else {
        assert s[i] in a && s[j] in b;
      }
    }
  }

  /** A sorted sequence with distinct keys is strictly increasing. */
  lemma SortedDistinctStrict<T(!new)>(s: seq<T>, key: T -> string)
    requires SortedBy(s, key) && DistinctBy(s, key)
    ensures StrictlySortedBy(s, key)
  {
    forall i, j | 0 <= i < j < |s|
      ensures Below(key(s[i]), key(s[j]))
    {
      BelowTotal(key(s[i]), key(s[j]));
    }
  }

  /** With distinct keys, `sorted` yields a strictly increasing sequence. */
  lemma SortByStrict<T(!new)>(s: seq<T>, key: T -> string)
    requires DistinctBy(s, key)
    ensures StrictlySortedBy(SortBy(s, key), key)
  {
    SortBySorted(s, key);
    SortByDistinct(s, key);
    SortedDistinctStrict(SortBy(s, key), key);
  }

  /** `[x for x in s if p(x)]` */
  function Filter<T(!new)>(s: seq<T>, p: T -> bool): (r: seq<T>)
    ensures |r| <= |s|
    ensures forall x :: x in r <==> x in s && p(x)
  {
    if s == [] then []
    else
      SplitLast(s);
      Filter(s[..|s| - 1], p) + (if p(s[|s| - 1]) then [s[|s| - 1]] else [])
  }

  lemma SplitLast<T>(s: seq<T>)
    requires s != []
    ensures s == s[..|s| - 1] + [s[|s| - 1]]
  {
  }

  lemma SplitFirst<T>(s: seq<T>)
    requires s != []
    ensures s == [s[0]] + s[1..]
  {
  }

  lemma TakeSnoc<T>(s: seq<T>, i: int)
    requires 0 <= i < |s|
    ensures s[..i + 1] == s[..i] + [s[i]]
  {
  }

  /** Everything in `a`, `x` and everything in `b` are in `a + [x] + b`. */
  lemma AroundMembers<T>(a: seq<T>, x: T, b: seq<T>)
    ensures x in a + [x] + b
    ensures forall y :: y in a ==> y in a + [x] + b
    ensures forall y :: y in b ==> y in a + [x] + b
  {
  }

  /** A position at which `x` occurs in `s`. */
  lemma IndexOf<T>(s: seq<T>, x: T) returns (i: nat)
    requires x in s
    ensures i < |s| && s[i] == x
  {
    i :| 0 <= i < |s| && s[i] == x;
  }

  lemma AppendAssoc<T>(a: seq<T>, b: seq<T>, c: seq<T>)
    ensures a + (b + c) == (a + b) + c
  {
  }

  /** A filter that rejects every element yields nothing. */
  lemma FilterNone<T(!new)>(s: seq<T>, p: T -> bool)
    requires forall x :: x in s ==> !p(x)
    ensures Filter(s, p) == []
  {
  }

  /** A filter that accepts every element is the identity. */
  lemma {:induction false} FilterAll<T(!new)>(s: seq<T>, p: T -> bool)
    requires forall x :: x in s ==> p(x)
    ensures Filter(s, p) == s
  {
    if s != [] {
      var s' := s[..|s| - 1];
      assert forall x :: x in s' ==> x in s;
      FilterAll(s', p);
      assert s[|s| - 1] in s;
      SplitLast(s);
    } else {
      assert Filter(s, p) == [];
    }
  }

  /** One more element at the end of the input adds at most that element to the end of the output. */
  lemma FilterSnoc<T(!new)>(s: seq<T>, x: T, p: T -> bool)
    ensures Filter(s + [x], p) == Filter(s, p) + (if p(x) then [x] else [])
  {
    assert (s + [x])[..|s|] == s;
  }

  lemma {:induction false} FilterConcat<T(!new)>(a: seq<T>, b: seq<T>, p: T -> bool)
    ensures Filter(a + b, p) == Filter(a, p) + Filter(b, p)
  {
    if b != [] {
      var b', x := b[..|b| - 1], b[|b| - 1];
      var tail := if p(x) then [x] else [];
      FilterConcat(a, b', p);
      assert a + b == (a + b') + [x];
      FilterSnoc(a + b', x, p);
      FilterSnoc(b', x, p);
      SplitLast(b);
      AppendAssoc(Filter(a, p), Filter(b', p), tail);
    } else {
      assert a + b == a;
      assert Filter(b, p) == [];
    }
  }

  /** Filtering keeps the relative order: a sorted input gives a sorted output. */
  lemma {:induction false} FilterSorted<T(!new)>(s: seq<T>, p: T -> bool, key: T -> string)
    requires SortedBy(s, key)
    ensures SortedBy(Filter(s, p), key)
  {
    if s != [] {
      var s' := s[..|s| - 1];
      var x := s[|s| - 1];
      FilterSorted(s', p, key);
      var f := Filter(s', p);
      forall y | y in f
        ensures !Below(key(x), key(y))
      {
        var k :| 0 <= k < |s'| && s'[k] == y;
        assert s[k] == y;
      }
    }
  }

  /** Filtering never makes two elements share a key. */
  lemma {:induction false} FilterDistinct<T(!new)>(s: seq<T>, p: T -> bool, key: T -> string)
    requires DistinctBy(s, key)
    ensures DistinctBy(Filter(s, p), key)
  {
    if s != [] {
      var s' := s[..|s| - 1];
      var x := s[|s| - 1];
      FilterDistinct(s', p, key);
      var f := Filter(s', p);
      forall y | y in f
        ensures key(x) != key(y)
      {
        var k :| 0 <= k < |s'| && s'[k] == y;
        assert s[k] == y;
      }
    }
  }

  /** The pieces `f` gives for each element of `s`, one after the other. */
  function ConcatMap<T, U>(s: seq<T>, f: T -> seq<U>): seq<U>
  {
    if s == [] then [] else ConcatMap(s[..|s| - 1], f) + f(s[|s| - 1])
  }

  lemma ConcatMapSnoc<T, U>(s: seq<T>, x: T, f: T -> seq<U>)
    ensures ConcatMap(s + [x], f) == ConcatMap(s, f) + f(x)
  {
    assert (s + [x])[..|s|] == s;
  }

  /** The pieces of a concatenation are the pieces of its parts, in order. */
  lemma {:induction false} ConcatMapAppend<T, U>(a: seq<T>, b: seq<T>, f: T -> seq<U>)
    ensures ConcatMap(a + b, f) == ConcatMap(a, f) + ConcatMap(b, f)
  {
    if b == [] {
      assert a + b == a;
    } else {
      var b', x := b[..|b| - 1], b[|b| - 1];
      ConcatMapAppend(a, b', f);
      SplitLast(b);
      assert a + b == (a + b') + [x];
      ConcatMapSnoc(a + b', x, f);
      ConcatMapSnoc(b', x, f);
      AppendAssoc(ConcatMap(a, f), ConcatMap(b', f), f(x));
    }
  }
}
