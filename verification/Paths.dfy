/**
 * Slash-separated paths, shared by the image builder
 * (packages/sandbox-vm-native/src/vm-image-builder.c) and the egress policy
 * (packages/sandbox/src/host-match.ts): joining names, and reading the names back.
 */
module Paths {

  /** A path component: not empty and free of the separator. */
  predicate IsName<T(==)>(slash: T, name: seq<T>) {
    name != [] && slash !in name
  }

  predicate AreNames<T(==)>(slash: T, path: seq<seq<T>>) {
    forall i :: 0 <= i < |path| ==> IsName(slash, path[i])
  }

  /** The components with one separator between neighbours. */
  function Join<T(==)>(slash: T, path: seq<seq<T>>): (s: seq<T>)
    ensures path == [] ==> s == []
  {
    if path == [] then []
    else Under(slash, Join(slash, path[..|path| - 1]), path[|path| - 1])
  }

  /** The path of an entry `name` of the directory `dir`; the root directory is the empty string. */
  function Under<T(==)>(slash: T, dir: seq<T>, name: seq<T>): seq<T> {
    if dir == [] then name else dir + [slash] + name
  }

  lemma JoinOfMore<T>(slash: T, path: seq<seq<T>>, name: seq<T>)
    ensures Join(slash, path + [name]) == Under(slash, Join(slash, path), name)
  {
    assert (path + [name])[..|path|] == path;
  }

  lemma JoinIsEmptyOnlyAtRoot<T>(slash: T, path: seq<seq<T>>)
    requires AreNames(slash, path)
    ensures Join(slash, path) == [] <==> path == []
  {
  }

  /** A string has one last separator, so what follows it is determined. */
  lemma LastNameIsDetermined<T>(slash: T, a: seq<T>, n: seq<T>, b: seq<T>, m: seq<T>)
    requires slash !in n && slash !in m
    requires a + [slash] + n == b + [slash] + m
    ensures a == b && n == m
  {
    var s := a + [slash] + n;
    assert s[|a|] == slash && s[|b|] == slash;
    assert forall i :: |a| < i < |s| ==> s[i] == n[i - |a| - 1];
    assert forall i :: |b| < i < |s| ==> s[i] == m[i - |b| - 1];
    assert |a| == |b|;
    assert a == s[..|a|] && b == s[..|b|];
    assert n == s[|a| + 1..] && m == s[|b| + 1..];
  }

  lemma UnderIsInjective<T>(slash: T, a: seq<T>, n: seq<T>, b: seq<T>, m: seq<T>)
    requires IsName(slash, n) && IsName(slash, m)
    ensures Under(slash, a, n) == Under(slash, b, m) <==> a == b && n == m
  {
    HasSeparator(slash, a, n);
    HasSeparator(slash, b, m);
    if Under(slash, a, n) == Under(slash, b, m) && a != [] && b != [] {
      LastNameIsDetermined(slash, a, n, b, m);
    }
  }

  lemma HasSeparator<T>(slash: T, dir: seq<T>, name: seq<T>)
    requires IsName(slash, name)
    ensures slash in Under(slash, dir, name) <==> dir != []
  {
    if dir != [] { assert Under(slash, dir, name)[|dir|] == slash; }
  }

  /** No two paths are written the same way. */
  lemma {:induction false} JoinIsInjective<T>(slash: T, p: seq<seq<T>>, q: seq<seq<T>>)
    requires AreNames(slash, p) && AreNames(slash, q)
    ensures Join(slash, p) == Join(slash, q) <==> p == q
  {
    JoinIsEmptyOnlyAtRoot(slash, p);
    JoinIsEmptyOnlyAtRoot(slash, q);
    if p != [] && q != [] {
      var p', q' := p[..|p| - 1], q[..|q| - 1];
      UnderIsInjective(slash, Join(slash, p'), p[|p| - 1], Join(slash, q'), q[|q| - 1]);
      JoinIsInjective(slash, p', q');
      assert p == p' + [p[|p| - 1]] && q == q' + [q[|q| - 1]];
    }
  }

  /** Extending a path extends its text past a separator. */
  lemma {:induction false} JoinOfConcat<T>(slash: T, p: seq<seq<T>>, q: seq<seq<T>>)
    requires AreNames(slash, p) && AreNames(slash, q) && p != [] && q != []
    ensures Join(slash, p + q) == Join(slash, p) + [slash] + Join(slash, q)
  {
    JoinIsEmptyOnlyAtRoot(slash, p);
    var q', last := q[..|q| - 1], q[|q| - 1];
    assert q == q' + [last] && p + q == (p + q') + [last];
    JoinOfMore(slash, q', last);
    JoinOfMore(slash, p + q', last);
    if q' == [] {
      assert p + q' == p;
    } else {
      JoinOfConcat(slash, p, q');
      JoinIsEmptyOnlyAtRoot(slash, q');
    }
  }

  // ---- Reading the names back --------------------------------------------------------------

  /** The length of the run before the first slash. */
  function NameLength<T(==)>(slash: T, s: seq<T>): (n: nat)
    ensures n <= |s| && slash !in s[..n] && (n < |s| ==> s[n] == slash)
  {
    if s == [] || s[0] == slash then 0
    else
      assert forall k: nat :: k <= |s[1..]| ==> s[..k + 1] == [s[0]] + s[1..][..k];
      1 + NameLength(slash, s[1..])
  }

  /** The names of a path, any number of slashes between them. */
  function Components<T(==)>(slash: T, s: seq<T>): seq<seq<T>>
    decreases |s|
  {
    if s == [] then []
    else if s[0] == slash then Components(slash, s[1..])
    else [s[..NameLength(slash, s)]] + Components(slash, s[NameLength(slash, s)..])
  }

  lemma {:induction false} NameLengthOfConcat<T>(slash: T, a: seq<T>, b: seq<T>)
    ensures NameLength(slash, a + [slash] + b) == NameLength(slash, a)
  {
    var s := a + [slash] + b;
    if a != [] {
      assert s[1..] == a[1..] + [slash] + b && s[0] == a[0];
      NameLengthOfConcat(slash, a[1..], b);
    }
  }

  /** A slash separates: what precedes it and what follows it are cut independently. */
  lemma {:induction false} ComponentsOfConcat<T>(slash: T, a: seq<T>, b: seq<T>)
    ensures Components(slash, a + [slash] + b) == Components(slash, a) + Components(slash, b)
    decreases |a|
  {
    var s := a + [slash] + b;
    if a == [] {
      assert s[0] == slash && s[1..] == b;
    } else if a[0] == slash {
      assert s[1..] == a[1..] + [slash] + b;
      ComponentsOfConcat(slash, a[1..], b);
    } else {
      var n := NameLength(slash, a);
      NameLengthOfConcat(slash, a, b);
      assert s[..n] == a[..n] && s[n..] == a[n..] + [slash] + b;
      ComponentsOfConcat(slash, a[n..], b);
    }
  }

  lemma {:induction false} NameLengthOfName<T>(slash: T, name: seq<T>)
    requires slash !in name
    ensures NameLength(slash, name) == |name|
  {
    if name != [] { NameLengthOfName(slash, name[1..]); }
  }

  /** Joined names are cut back into the same names. */
  lemma {:induction false} ComponentsOfJoin<T>(slash: T, names: seq<seq<T>>)
    requires AreNames(slash, names)
    ensures Components(slash, Join(slash, names)) == names
    ensures Components(slash, [slash] + Join(slash, names)) == names
  {
    var joined := Join(slash, names);
    assert ([slash] + joined)[1..] == joined;
    if names != [] {
      var init, last := names[..|names| - 1], names[|names| - 1];
      assert names == init + [last];
      ComponentsOfJoin(slash, init);
      JoinIsEmptyOnlyAtRoot(slash, init);
      NameLengthOfName(slash, last);
      assert last[..|last|] == last && Components(slash, last) == [last];
      if init != [] { ComponentsOfConcat(slash, Join(slash, init), last); }
    }
  }
}
