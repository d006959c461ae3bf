/**
 * strcmp order on NUL-free byte strings, and sorting by it. The image builder
 * (packages/sandbox-vm-native/src/vm-image-builder.c) calls the C library's qsort; all
 * that is used of it is that the result is a sorted permutation, which for distinct
 * keys determines it.
 */
module Sorting {
  import opened Prelude

  /** The sign of strcmp: the first difference decides, a proper prefix comes first. */
  function StrCmp(a: seq<byte>, b: seq<byte>): int {
    if a == [] && b == [] then 0
    else if a == [] then -1
    else if b == [] then 1
    else if a[0] != b[0] then (if a[0] < b[0] then -1 else 1)
    else StrCmp(a[1..], b[1..])
  }

  lemma {:induction false} StrCmpIsAnOrder(a: seq<byte>, b: seq<byte>)
    ensures StrCmp(a, b) == 0 <==> a == b
    ensures StrCmp(a, b) == -StrCmp(b, a)
  {
    if a != [] && b != [] {
      StrCmpIsAnOrder(a[1..], b[1..]);
      assert a == [a[0]] + a[1..] && b == [b[0]] + b[1..];
    }
  }

  lemma {:induction false} StrCmpIsTransitive(a: seq<byte>, b: seq<byte>, c: seq<byte>)
    requires StrCmp(a, b) <= 0 && StrCmp(b, c) <= 0
    ensures StrCmp(a, c) <= 0
  {
    if a != [] && b != [] && c != [] && a[0] == b[0] && b[0] == c[0] {
      StrCmpIsTransitive(a[1..], b[1..], c[1..]);
    }
  }

  lemma {:induction false} SamePrefix(p: seq<byte>, a: seq<byte>, b: seq<byte>)
    ensures StrCmp(p + a, p + b) == StrCmp(a, b)
  {
    if p == [] {
      assert p + a == a && p + b == b;
    } else {
      assert (p + a)[1..] == p[1..] + a && (p + b)[1..] == p[1..] + b;
      SamePrefix(p[1..], a, b);
    }
  }

  ghost predicate SortedBy<T(!new)>(key: T -> seq<byte>, s: seq<T>) {
    forall i, j :: 0 <= i < j < |s| ==> StrCmp(key(s[i]), key(s[j])) <= 0
  }

  ghost predicate DistinctBy<T(!new), K(!new)>(key: T -> K, s: seq<T>) {
    forall i, j :: 0 <= i < j < |s| ==> key(s[i]) != key(s[j])
  }

  function Insert<T>(key: T -> seq<byte>, x: T, s: seq<T>): seq<T> {
    if s == [] || StrCmp(key(x), key(s[0])) <= 0 then [x] + s
    else [s[0]] + Insert(key, x, s[1..])
  }

  function SortBy<T>(key: T -> seq<byte>, s: seq<T>): seq<T> {
    if s == [] then [] else Insert(key, s[0], SortBy(key, s[1..]))
  }

  lemma {:induction false} InsertSorts<T(!new)>(key: T -> seq<byte>, x: T, s: seq<T>)
    requires SortedBy(key, s)
    ensures SortedBy(key, Insert(key, x, s))
    ensures multiset(Insert(key, x, s)) == multiset(s) + multiset{x}
  {
    hide StrCmp;
    if s == [] {
    } else if StrCmp(key(x), key(s[0])) <= 0 {
      forall j | 0 <= j < |s| ensures StrCmp(key(x), key(s[j])) <= 0 {
        if j > 0 { StrCmpIsTransitive(key(x), key(s[0]), key(s[j])); }
      }
    } else {
      var rest, t := s[1..], Insert(key, x, s[1..]);
      assert s == [s[0]] + rest;
      InsertSorts(key, x, rest);
      StrCmpIsAnOrder(key(x), key(s[0]));
      forall j | 0 <= j < |t| ensures StrCmp(key(s[0]), key(t[j])) <= 0 {
        assert t[j] in multiset(t);
        assert t[j] == x || t[j] in rest;
      }
      HeadBeforeTail(key, s[0], t);
    }
  }

  lemma HeadBeforeTail<T(!new)>(key: T -> seq<byte>, x: T, t: seq<T>)
    requires SortedBy(key, t) && forall j :: 0 <= j < |t| ==> StrCmp(key(x), key(t[j])) <= 0
    ensures SortedBy(key, [x] + t)
  {
  }

  lemma {:induction false} SortBySorts<T(!new)>(key: T -> seq<byte>, s: seq<T>)
    ensures SortedBy(key, SortBy(key, s)) && multiset(SortBy(key, s)) == multiset(s)
  {
    if s != [] {
      assert s == [s[0]] + s[1..];
      SortBySorts(key, s[1..]);
      InsertSorts(key, s[0], SortBy(key, s[1..]));
    }
  }

  lemma LeastIsFirst<T(!new)>(key: T -> seq<byte>, s: seq<T>, t: seq<T>)
    requires multiset(s) == multiset(t) && SortedBy(key, s) && SortedBy(key, t) && DistinctBy(key, s)
    requires s != []
    ensures t != [] && s[0] == t[0]
  {
    hide StrCmp;
    assert s[0] in multiset(t);
    assert t[0] in multiset(s);
    var i :| 0 <= i < |t| && t[i] == s[0];
    var j :| 0 <= j < |s| && s[j] == t[0];
    StrCmpIsAnOrder(key(s[0]), key(t[0]));
    StrCmpIsAnOrder(key(s[0]), key(s[0]));
  }

  lemma TailIsSorted<T(!new)>(key: T -> seq<byte>, s: seq<T>)
    requires s != []
    ensures SortedBy(key, s) ==> SortedBy(key, s[1..])
    ensures DistinctBy(key, s) ==> DistinctBy(key, s[1..])
  {
  }

  lemma TailMultiset<T>(s: seq<T>)
    requires s != []
    ensures multiset(s[1..]) == multiset(s) - multiset{s[0]}
  {
    assert s == [s[0]] + s[1..];
  }

  /** With distinct keys there is one sorted order, whatever order the elements came in. */
  lemma {:induction false} SortedPermutationIsUnique<T(!new)>(key: T -> seq<byte>, s: seq<T>, t: seq<T>)
    requires multiset(s) == multiset(t) && SortedBy(key, s) && SortedBy(key, t) && DistinctBy(key, s)
    ensures s == t
  {
    hide StrCmp;
    if s == [] {
      assert |t| == |multiset(t)| == |multiset(s)| == 0;
    } else {
      LeastIsFirst(key, s, t);
      assert s == [s[0]] + s[1..] && t == [s[0]] + t[1..];
      TailMultiset(s);
      TailMultiset(t);
      TailIsSorted(key, s);
      TailIsSorted(key, t);
      hide SortedBy, DistinctBy;
      SortedPermutationIsUnique(key, s[1..], t[1..]);
    }
  }

  lemma SortOfPermutation<T(!new)>(key: T -> seq<byte>, s: seq<T>, t: seq<T>)
    requires multiset(s) == multiset(t) && DistinctBy(key, s)
    ensures SortBy(key, s) == SortBy(key, t)
  {
    SortBySorts(key, s);
    SortBySorts(key, t);
    DistinctnessOfPermutation(key, s, SortBy(key, s));
    SortedPermutationIsUnique(key, SortBy(key, s), SortBy(key, t));
  }

  lemma CountedTwice<T>(t: seq<T>, i: nat, j: nat)
    requires i < j < |t| && t[i] == t[j]
    ensures multiset(t)[t[i]] >= 2
  {
    assert t == t[..i] + [t[i]] + t[i + 1..j] + [t[j]] + t[j + 1..];
  }

  lemma CountedOnce<T(!new), K(!new)>(key: T -> K, s: seq<T>, i: nat)
    requires i < |s| && DistinctBy(key, s)
    ensures multiset(s)[s[i]] == 1
  {
    assert s == s[..i] + [s[i]] + s[i + 1..];
    assert s[i] !in s[..i] && s[i] !in s[i + 1..];
  }

  lemma DistinctnessOfPermutation<T(!new), K(!new)>(key: T -> K, s: seq<T>, t: seq<T>)
    requires multiset(s) == multiset(t) && DistinctBy(key, s)
    ensures DistinctBy(key, t)
  {
    forall i, j | 0 <= i < j < |t| ensures key(t[i]) != key(t[j]) {
      assert t[i] in multiset(s) && t[j] in multiset(s);
      var a :| 0 <= a < |s| && s[a] == t[i];
      var b :| 0 <= b < |s| && s[b] == t[j];
      CountedOnce(key, s, a);
      if t[i] == t[j] { CountedTwice(t, i, j); }
    }
  }
}
