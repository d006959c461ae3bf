/**
 * Path prefixes of the egress policy (packages/sandbox/src/host-match.ts, normalizePath and
 * pathMatchesPrefix). Percent-decoding is any function from strings to strings.
 */
module HostPath {
  import opened Paths

  /** Runs of slashes become one. */
  function Collapsed(s: string): string {
    if s == "" then ""
    else if |s| > 1 && s[0] == '/' && s[1] == '/' then Collapsed(s[1..])
    else [s[0]] + Collapsed(s[1..])
  }

  /** split('/'), with its empty parts. */
  function Split(s: string): (parts: seq<string>)
    ensures parts != []
    decreases |s|
  {
    var n := NameLength('/', s);
    if n == |s| then [s] else [s[..n]] + Split(s[n + 1..])
  }

  /** The stack after the parts: empty and "." are skipped, ".." pops. */
  function Resolved(parts: seq<string>, stack: seq<string>): seq<string> {
    if parts == [] then stack
    else if parts[0] == "" || parts[0] == "." then Resolved(parts[1..], stack)
    else if parts[0] == ".." then Resolved(parts[1..], if stack == [] then [] else stack[..|stack| - 1])
    else Resolved(parts[1..], stack + [parts[0]])
  }

  /** The canonical segments of a decoded path: its names, "." and ".." resolved. */
  function Segments(decoded: string): seq<string> { Resolved(Components('/', decoded), []) }

  function Normalized(decoded: string): string { "/" + Join('/', Segments(decoded)) }

  // ---- Splitting and collapsing lose nothing ----------------------------------------------------

  function NonEmpty(parts: seq<string>): seq<string> {
    if parts == [] then [] else (if parts[0] == "" then [] else [parts[0]]) + NonEmpty(parts[1..])
  }

  lemma {:induction false} EmptyPartsAreSkipped(parts: seq<string>, stack: seq<string>)
    ensures Resolved(NonEmpty(parts), stack) == Resolved(parts, stack)
  {
    if parts != [] {
      var rest := NonEmpty(parts[1..]);
      if parts[0] == "" {
        assert [] + rest == rest;
        EmptyPartsAreSkipped(parts[1..], stack);
      } else {
        assert ([parts[0]] + rest)[1..] == rest;
        var next := if parts[0] == ".." then (if stack == [] then [] else stack[..|stack| - 1]) else stack + [parts[0]];
        EmptyPartsAreSkipped(parts[1..], if parts[0] == "." then stack else next);
      }
    }
  }

  lemma {:induction false} SplitIntoComponents(s: string)
    ensures NonEmpty(Split(s)) == Components('/', s)
    decreases |s|
  {
    var n := NameLength('/', s);
    if n == |s| {
      assert s[..n] == s && [s][1..] == [];
      assert NonEmpty([]) == [];
    } else {
      var tail := Split(s[n + 1..]);
      SplitIntoComponents(s[n + 1..]);
      assert s == s[..n] + ['/'] + s[n + 1..];
      ComponentsOfConcat('/', s[..n], s[n + 1..]);
      ComponentsOfOne(s[..n]);
      assert ([s[..n]] + tail)[1..] == tail;
    }
  }

  lemma ComponentsOfOne(name: string)
    requires '/' !in name
    ensures Components('/', name) == if name == "" then [] else [name]
  {
    if name != "" {
      NameLengthOfName('/', name);
      assert name[..|name|] == name && name[|name|..] == "";
    }
  }

  lemma {:induction false} CollapsedName(s: string)
    ensures var n := NameLength('/', s); Collapsed(s) == s[..n] + Collapsed(s[n..])
  {
    var n := NameLength('/', s);
    if n == 0 {
      assert s[..0] == "" && s[0..] == s;
    } else {
      var rest := s[1..];
      CollapsedName(rest);
      assert rest[..n - 1] == s[..n][1..] && rest[n - 1..] == s[n..];
      assert s[..n] == [s[0]] + rest[..n - 1];
      hide NameLength;
      assert Collapsed(s) == [s[0]] + Collapsed(rest);
    }
  }

  lemma CollapsedNameLength(s: string)
    ensures NameLength('/', Collapsed(s)) == NameLength('/', s)
  {
    hide NameLength, Collapsed;
    var n := NameLength('/', s);
    CollapsedName(s);
    NameLengthOfName('/', s[..n]);
    if n == |s| {
      assert s[n..] == "";
      NothingCollapsed();
      assert Collapsed(s) == s[..n];
    } else {
      StartsWithSlash(s[n..]);
      var tail := Collapsed(s[n..])[1..];
      assert Collapsed(s) == s[..n] + ['/'] + tail;
      NameLengthOfConcat('/', s[..n], tail);
    }
  }

  lemma NothingCollapsed()
    ensures Collapsed("") == ""
  {
  }

  lemma {:induction false} StartsWithSlash(s: string)
    requires s != "" && s[0] == '/'
    ensures Collapsed(s) != "" && Collapsed(s)[0] == '/'
  {
    if |s| > 1 && s[1] == '/' { StartsWithSlash(s[1..]); }
  }

  lemma {:induction false} CollapsingKeepsComponents(s: string)
    ensures Components('/', Collapsed(s)) == Components('/', s)
    decreases |s|
  {
    if s == "" {
    } else if s[0] == '/' {
      CollapsingKeepsComponents(s[1..]);
      if !(|s| > 1 && s[1] == '/') { assert Collapsed(s)[1..] == Collapsed(s[1..]); }
    } else {
      var n := NameLength('/', s);
      CollapsedName(s);
      CollapsedNameLength(s);
      CollapsingKeepsComponents(s[n..]);
      assert Collapsed(s)[..n] == s[..n] && Collapsed(s)[n..] == Collapsed(s[n..]);
    }
  }

  // ---- normalizePath ------------------------------------------------------------------------------

  method NormalizePath(p: string, decode: string -> string) returns (r: string)
    ensures r == Normalized(decode(p))
  {
    hide Resolved, Split, Collapsed, Components;
    var decoded := decode(p);
    var parts := Split(Collapsed(decoded));
    var out := [];
    assert parts[0..] == parts;
    for i := 0 to |parts|
      invariant Resolved(parts[i..], out) == Resolved(parts, [])
    {
      ResolvedStep(parts, i, out);
      if parts[i] == "" || parts[i] == "." { continue; }
      if parts[i] == ".." {
        if out != [] { out := out[..|out| - 1]; }
        continue;
      }
      out := out + [parts[i]];
    }
    NothingToResolve(parts[|parts|..], out);
    EmptyPartsAreSkipped(parts, []);
    SplitIntoComponents(Collapsed(decoded));
    CollapsingKeepsComponents(decoded);
    r := "/" + Join('/', out);
  }

  lemma ResolvedStep(parts: seq<string>, i: nat, stack: seq<string>)
    requires i < |parts|
    ensures Resolved(parts[i..], stack) == Resolved(parts[i + 1..],
      if parts[i] == "" || parts[i] == "." then stack
      else if parts[i] == ".." then (if stack == [] then [] else stack[..|stack| - 1])
      else stack + [parts[i]])
  {
    assert parts[i..][0] == parts[i] && parts[i..][1..] == parts[i + 1..];
  }

  lemma NothingToResolve(parts: seq<string>, stack: seq<string>)
    requires parts == []
    ensures Resolved(parts, stack) == stack
  {
  }

  /** A segment of a canonical path. */
  predicate IsSegment(s: string) { IsName('/', s) && s != "." && s != ".." }

  predicate AreSegments(ss: seq<string>) { forall i :: 0 <= i < |ss| ==> IsSegment(ss[i]) }

  lemma {:induction false} ComponentsAreNames(s: string)
    ensures AreNames('/', Components('/', s))
    decreases |s|
  {
    if s != "" {
      if s[0] == '/' {
        ComponentsAreNames(s[1..]);
      } else {
        var n := NameLength('/', s);
        ComponentsAreNames(s[n..]);
        assert IsName('/', s[..n]);
      }
    }
  }

  lemma {:induction false} ResolvedAreSegments(parts: seq<string>, stack: seq<string>)
    requires AreSegments(stack) && AreNames('/', parts)
    ensures AreSegments(Resolved(parts, stack))
  {
    if parts != [] {
      assert IsName('/', parts[0]);
      assert forall i :: 0 <= i < |parts[1..]| ==> parts[1..][i] == parts[i + 1];
      if parts[0] == "." {
        ResolvedAreSegments(parts[1..], stack);
      } else if parts[0] == ".." {
        ResolvedAreSegments(parts[1..], if stack == [] then [] else stack[..|stack| - 1]);
      } else {
        ResolvedAreSegments(parts[1..], stack + [parts[0]]);
      }
    }
  }

  /** No empty, "." or ".." segment is left, and reading the result back gives the same segments. */
  lemma NormalizedIsCanonical(decoded: string)
    ensures AreSegments(Segments(decoded)) && AreNames('/', Segments(decoded))
    ensures Components('/', Normalized(decoded)) == Segments(decoded)
    ensures Segments(Normalized(decoded)) == Segments(decoded)
  {
    hide Components, Resolved;
    ComponentsAreNames(decoded);
    ResolvedAreSegments(Components('/', decoded), []);
    SegmentsAreNames(Segments(decoded));
    ComponentsOfJoin('/', Segments(decoded));
    SegmentsStay(Segments(decoded), []);
    assert [] + Segments(decoded) == Segments(decoded);
  }

  lemma SegmentsAreNames(ss: seq<string>)
    requires AreSegments(ss)
    ensures AreNames('/', ss)
  {
    forall i | 0 <= i < |ss| ensures IsName('/', ss[i]) { assert IsSegment(ss[i]); }
  }

  lemma {:induction false} SegmentsStay(ss: seq<string>, stack: seq<string>)
    requires AreSegments(ss)
    ensures Resolved(ss, stack) == stack + ss
  {
    if ss != [] {
      assert IsSegment(ss[0]);
      SegmentsStay(ss[1..], stack + [ss[0]]);
      assert stack + [ss[0]] + ss[1..] == stack + ss;
    }
  }

  // ---- pathMatchesPrefix ------------------------------------------------------------------------------

  predicate EndsWithSlash(s: string) { s != "" && s[|s| - 1] == '/' }

  method PathMatchesPrefix(prefix: string, path: string, decode: string -> string) returns (r: bool)
    ensures r <==> Segments(decode(prefix)) <= Segments(decode(path))
  {
    hide Segments, EndsWithSlash;
    var np := NormalizePath(prefix, decode);
    var npath := NormalizePath(path, decode);
    NormalizedIsCanonical(decode(prefix));
    NormalizedIsCanonical(decode(path));
    TextPrefixIsSegmentPrefix(Segments(decode(prefix)), Segments(decode(path)));
    if np == "/" { return true; }
    return npath == np || (if EndsWithSlash(np) then np else np + "/") <= npath;
  }

  lemma {:induction false} JoinEndsInName(ss: seq<string>)
    requires AreNames('/', ss) && ss != []
    ensures Join('/', ss) != "" && !EndsWithSlash(Join('/', ss))
  {
    var last := ss[|ss| - 1];
    assert IsName('/', last);
    JoinIsEmptyOnlyAtRoot('/', ss);
    assert Join('/', ss)[|Join('/', ss)| - 1] == last[|last| - 1];
  }

  /** Comparing the texts with a slash at the boundary is comparing the segment lists. */
  lemma TextPrefixIsSegmentPrefix(a: seq<string>, b: seq<string>)
    requires AreNames('/', a) && AreNames('/', b)
    ensures var s, t := "/" + Join('/', a), "/" + Join('/', b);
      (s == "/" || t == s || (if EndsWithSlash(s) then s else s + "/") <= t) <==> a <= b
  {
    var x, y := Join('/', a), Join('/', b);
    JoinIsEmptyOnlyAtRoot('/', a);
    JoinIsInjective('/', a, b);
    if a != [] {
      JoinEndsInName(a);
      LongerPathText(a, b);
      assert ("/" + x == "/" + y) <==> x == y by { assert ("/" + x)[1..] == x && ("/" + y)[1..] == y; }
      assert ("/" + x + "/" <= "/" + y) <==> x + "/" <= y by {
        assert ("/" + x + "/")[1..] == x + "/" && ("/" + y)[1..] == y;
      }
      assert !EndsWithSlash("/" + x);
    }
  }

  lemma LongerPathText(a: seq<string>, b: seq<string>)
    requires AreNames('/', a) && AreNames('/', b) && a != []
    ensures Join('/', a) + "/" <= Join('/', b) <==> a < b
  {
    hide Join, Components;
    var x, y := Join('/', a), Join('/', b);
    if a < b {
      var c := b[|a|..];
      assert b == a + c;
      assert AreNames('/', c);
      JoinOfConcat('/', a, c);
    }
    if x + "/" <= y {
      var rest := y[|x| + 1..];
      assert y == x + ['/'] + rest;
      ComponentsOfConcat('/', x, rest);
      ComponentsOfJoin('/', a);
      ComponentsOfJoin('/', b);
      assert a <= b;
      if a == b { assert |x| + 1 <= |y|; }
    }
  }
}
