/**
 * The manifest of the host (packages/sandbox/src/snapshot.ts, canonicalDigest), which is compared
 * with the one of the image builder by digest: normalized paths instead of the bytes on disk,
 * JSON.stringify instead of buf_jsonstr, the order of ECMAScript strings instead of strcmp. When the
 * two are the same bytes. Normalization and lower-casing are parameters.
 */
module SnapshotManifest {
  import opened Prelude
  import opened ByteText
  import opened CodeUnits
  import opened JsonText
  import opened Manifest
  import opened Sorting
  import Decimal
  import SourceTree
  import Utf8

  // ---- The host's manifest ------------------------------------------------------------------------

  function UnitKey(e: Item): seq<byte> { Units(e.path) }
  function Utf8Key(e: Item): seq<byte> { Utf8.Encode(e.path) }

  function HostItemText(e: Item): string {
    PathMark() + Stringified(e.path)
    + TypeMark() + (if e.DirItem? then DirMark() else FileMark())
    + ModeMark() + Decimal.Numeral(e.mode)
    + (if e.FileItem? then ShaMark() + Stringified(e.sha256) else "")
    + "}"
  }

  function HostTail(s: seq<Item>): string {
    if s == [] then "" else "," + (HostItemText(s[0]) + HostTail(s[1..]))
  }

  function HostListed(s: seq<Item>): string {
    if s == [] then "" else HostItemText(s[0]) + HostTail(s[1..])
  }

  /** The entries without the root, in code-unit order of their paths, stringified. */
  function HostText(s: seq<Item>): string { "[" + HostListed(SortBy(UnitKey, WithoutRoot(s))) + "]" }

  /** Two different paths that fold to the same key. */
  ghost predicate Collides(lower: string -> string, s: seq<Item>) {
    exists i, j :: 0 <= i < j < |s| && lower(s[i].path) == lower(s[j].path) && s[i].path != s[j].path
  }

  /** canonicalDigest up to the hash: nothing when two paths collide. */
  method CanonicalText(lower: string -> string, entries: seq<Item>) returns (r: Option<string>)
    ensures r.None? <==> Collides(lower, WithoutRoot(entries))
    ensures r.Some? ==> r.value == HostText(entries)
  {
    var sorted := SortBy(UnitKey, WithoutRoot(entries));
    assert HostText(entries) == "[" + HostListed(sorted) + "]";
    hide *;
    SortBySorts(UnitKey, WithoutRoot(entries));
    CollisionOfPermutation(lower, sorted, WithoutRoot(entries));
    var collides := FindCollision(lower, sorted);
    r := if collides then None else Some("[" + HostListed(sorted) + "]");
  }

  /** The loop over the sorted entries, with the paths seen under each folded key. */
  method FindCollision(lower: string -> string, sorted: seq<Item>) returns (found: bool)
    ensures found <==> Collides(lower, sorted)
  {
    var seen: map<string, string> := map[];
    for i := 0 to |sorted|
      invariant forall j :: 0 <= j < i ==>
        lower(sorted[j].path) in seen && seen[lower(sorted[j].path)] == sorted[j].path
      invariant forall k :: k in seen ==> exists j :: 0 <= j < i && lower(sorted[j].path) == k
    {
      var path := sorted[i].path;
      var key := lower(path);
      if key in seen && seen[key] != path { return true; }
      seen := seen[key := path];
    }
    return false;
  }

  /** Collisions do not depend on the order. */
  lemma CollisionOfPermutation(lower: string -> string, s: seq<Item>, t: seq<Item>)
    requires multiset(s) == multiset(t)
    ensures Collides(lower, s) <==> Collides(lower, t)
  {
    SameMembers(s, t);
    if Collides(lower, s) { CollisionMoves(lower, s, t); }
    if Collides(lower, t) { CollisionMoves(lower, t, s); }
  }

  lemma CollisionMoves(lower: string -> string, s: seq<Item>, t: seq<Item>)
    requires Collides(lower, s) && forall e :: e in s ==> e in t
    ensures Collides(lower, t)
  {
    var i, j :| 0 <= i < j < |s| && lower(s[i].path) == lower(s[j].path) && s[i].path != s[j].path;
    assert s[i] in t && s[j] in t;
    var k :| 0 <= k < |t| && t[k] == s[i];
    var l :| 0 <= l < |t| && t[l] == s[j];
    if k > l { assert lower(t[l].path) == lower(t[k].path); }
  }

  // ---- The same entries on disk ---------------------------------------------------------------------

  /** The entry with the bytes of its path, as the image builder reads it from the directory. */
  function OnDisk(e: Item): Item { e.(path := InUtf8(e.path)) }

  function AllOnDisk(s: seq<Item>): (r: seq<Item>)
    ensures |r| == |s| && forall i :: 0 <= i < |s| ==> r[i] == OnDisk(s[i])
  {
    seq(|s|, i requires 0 <= i < |s| => OnDisk(s[i]))
  }

  predicate IsPlain(t: string) { IsAscii(t) && forall i :: 0 <= i < |t| ==> t[i] >= ' ' }

  ghost predicate DistinctPaths(s: seq<Item>) { forall i, j :: 0 <= i < j < |s| ==> s[i].path != s[j].path }

  /** What both walks meet: no path twice, digests in hexadecimal. */
  ghost predicate IsTree(s: seq<Item>) {
    DistinctPaths(s) && forall i :: 0 <= i < |s| ==> ShaIsPlain(s[i])
  }

  predicate ShaIsPlain(e: Item) { e.FileItem? ==> IsPlain(e.sha256) }

  lemma PlainIsStringified(t: string)
    requires IsPlain(t)
    ensures Stringified(t) == PlainString(t) && IsAscii(Stringified(t))
  {
    PrintersAgree(t);
    PlainStaysAscii(t);
    hide Escape, PlainEscape;
  }

  lemma {:induction false} PlainStaysAscii(t: string)
    requires IsPlain(t)
    ensures IsAscii(Escaped(PlainEscape, t))
  {
    if t != "" {
      PlainStaysAscii(t[1..]);
      assert IsAscii(PlainEscape(t[0]));
    }
  }

  lemma AsciiConcat(a: string, b: string)
    requires IsAscii(a) && IsAscii(b)
    ensures IsAscii(a + b)
  {
  }

  /** What follows the path, of the host's text. */
  function HostAfterPath(e: Item): string {
    (if e.DirItem? then DirMark() else FileMark())
    + (ModeMark() + (Decimal.Numeral(e.mode) + (if e.FileItem? then ShaMark() + Stringified(e.sha256) else "") + "}"))
  }

  lemma HostItemParts(e: Item, x: string)
    ensures HostItemText(e) + x == PathMark() + (Stringified(e.path) + (TypeMark() + (HostAfterPath(e) + x)))
  {
    hide Stringified, Decimal.Numeral, ShaMark, PathMark, TypeMark, ModeMark, DirMark, FileMark;
  }

  lemma AfterPathIsAscii(e: Item)
    requires ShaIsPlain(e)
    ensures HostAfterPath(e) == AfterPath(e) && IsAscii(HostAfterPath(e))
  {
    if e.FileItem? { PlainIsStringified(e.sha256); }
    hide Stringified, PlainString, Decimal.Numeral;
    var tail := if e.FileItem? then ShaMark() + Stringified(e.sha256) else "";
    assert IsAscii(Decimal.Numeral(e.mode));
    AsciiConcat(Decimal.Numeral(e.mode), tail);
    AsciiConcat(Decimal.Numeral(e.mode) + tail, "}");
    AsciiConcat(ModeMark(), Decimal.Numeral(e.mode) + tail + "}");
    AsciiConcat(if e.DirItem? then DirMark() else FileMark(), ModeMark() + (Decimal.Numeral(e.mode) + tail + "}"));
  }

  /** The bytes of an item's text are the text of the item on disk. */
  lemma ItemInUtf8(e: Item)
    requires ShaIsPlain(e)
    ensures InUtf8(HostItemText(e)) == HostItemText(OnDisk(e))
  {
    AfterPathIsAscii(e);
    hide InUtf8, Stringified, HostAfterPath, AfterPath;
    HostItemParts(e, "");
    HostItemParts(OnDisk(e), "");
    assert HostAfterPath(OnDisk(e)) == HostAfterPath(e) by { SameAfterPath(e); }
    var after := TypeMark() + HostAfterPath(e);
    assert HostItemText(e) + "" == HostItemText(e) && HostItemText(OnDisk(e)) + "" == HostItemText(OnDisk(e));
    assert HostAfterPath(e) + "" == HostAfterPath(e);
    AsciiConcat(TypeMark(), HostAfterPath(e));
    InUtf8OfAscii(after);
    InUtf8OfAscii(PathMark());
    StringifiedInUtf8(e.path);
    InUtf8OfConcat(Stringified(e.path), after);
    InUtf8OfConcat(PathMark(), Stringified(e.path) + after);
  }

  lemma SameAfterPath(e: Item)
    ensures HostAfterPath(OnDisk(e)) == HostAfterPath(e)
  {
  }

  lemma {:induction false} TailInUtf8(s: seq<Item>)
    requires forall i :: 0 <= i < |s| ==> ShaIsPlain(s[i])
    ensures InUtf8(HostTail(s)) == HostTail(AllOnDisk(s))
  {
    hide InUtf8, HostItemText, ShaIsPlain;
    if s == [] {
      InUtf8OfAscii("");
    } else {
      assert AllOnDisk(s)[1..] == AllOnDisk(s[1..]);
      TailInUtf8(s[1..]);
      ItemInUtf8(s[0]);
      InUtf8OfAscii(",");
      InUtf8OfConcat(HostItemText(s[0]), HostTail(s[1..]));
      InUtf8OfConcat(",", HostItemText(s[0]) + HostTail(s[1..]));
    }
  }

  lemma ListedInUtf8(s: seq<Item>)
    requires forall i :: 0 <= i < |s| ==> ShaIsPlain(s[i])
    ensures InUtf8(HostListed(s)) == HostListed(AllOnDisk(s))
  {
    hide InUtf8, HostItemText, HostTail, ShaIsPlain;
    if s == [] {
      InUtf8OfAscii("");
    } else {
      assert AllOnDisk(s)[1..] == AllOnDisk(s[1..]);
      TailInUtf8(s[1..]);
      ItemInUtf8(s[0]);
      InUtf8OfConcat(HostItemText(s[0]), HostTail(s[1..]));
    }
  }

  // ---- Two printers, one text --------------------------------------------------------------------------

  predicate NoShortEscape(t: string) { forall i :: 0 <= i < |t| ==> !HasShortEscape(t[i]) }

  lemma CrossEscape(c: char, x: string, d: char, y: string)
    requires PlainEscape(c) + x == Escape(d) + y
    ensures c == d && x == y && !HasShortEscape(d)
  {
    SecondOfPlain(c);
    SecondOfShort(d);
    var s := PlainEscape(c) + x;
    assert s[0] == PlainEscape(c)[0] && (|PlainEscape(c)| > 1 ==> s[1] == PlainEscape(c)[1]);
    assert s[0] == Escape(d)[0] && (|Escape(d)| > 1 ==> s[1] == Escape(d)[1]);
    PlainEscapeIsPrefixFree(c, x, d, y);
  }

  lemma SecondOfPlain(c: char)
    ensures PlainEscape(c)[0] == '\\' ==> |PlainEscape(c)| > 1 && PlainEscape(c)[1] in "\"\\u"
  {
  }

  lemma SecondOfShort(d: char)
    ensures if HasShortEscape(d) then |Escape(d)| > 1 && Escape(d)[0] == '\\' && Escape(d)[1] in "btnfr"
      else Escape(d) == PlainEscape(d)
  {
  }

  lemma HostEndsAtQuote(a: string, x: string)
    ensures var s := Escaped(Escape, a) + "\"" + x;
            s != "" && (s[0] == '"' <==> a == "")
  {
    if a != "" { assert (Escaped(Escape, a) + "\"" + x)[0] == Escape(a[0])[0]; }
  }

  lemma {:induction false} CrossEscaped(a: string, x: string, b: string, y: string)
    requires Escaped(PlainEscape, a) + "\"" + x == Escaped(Escape, b) + "\"" + y
    ensures a == b && x == y && NoShortEscape(b)
  {
    hide PlainEscape, Escape, HasShortEscape;
    var s, t := Escaped(PlainEscape, a) + "\"" + x, Escaped(Escape, b) + "\"" + y;
    EndsAtQuote(a, x);
    HostEndsAtQuote(b, y);
    if a == "" {
      assert x == s[1..] && y == t[1..];
    } else {
      var u, v := Escaped(PlainEscape, a[1..]) + "\"" + x, Escaped(Escape, b[1..]) + "\"" + y;
      assert s == PlainEscape(a[0]) + u && t == Escape(b[0]) + v;
      CrossEscape(a[0], u, b[0], v);
      CrossEscaped(a[1..], x, b[1..], y);
      assert a == [a[0]] + a[1..] && b == [b[0]] + b[1..];
    }
  }

  lemma CrossString(a: string, x: string, b: string, y: string)
    requires PlainString(a) + x == Stringified(b) + y
    ensures a == b && x == y && NoShortEscape(b)
  {
    assert (PlainString(a) + x)[1..] == Escaped(PlainEscape, a) + "\"" + x;
    assert (Stringified(b) + y)[1..] == Escaped(Escape, b) + "\"" + y;
    CrossEscaped(a, x, b, y);
  }

  lemma CrossItem(e: Item, x: string, f: Item, y: string)
    requires ShaIsPlain(f) && ItemText(e) + x == HostItemText(f) + y
    ensures e == f && x == y && NoShortEscape(f.path)
  {
    ItemTextParts(e, x);
    HostItemParts(f, y);
    AfterPathIsAscii(f);
    hide PlainString, Stringified, PathMark, TypeMark, AfterPath, HostAfterPath, ItemText, HostItemText;
    var u, v := TypeMark() + (AfterPath(e) + x), TypeMark() + (AfterPath(f) + y);
    assert (PathMark() + (PlainString(e.path) + u))[8..] == PlainString(e.path) + u;
    assert (PathMark() + (Stringified(f.path) + v))[8..] == Stringified(f.path) + v;
    CrossString(e.path, u, f.path, v);
    assert u[8..] == AfterPath(e) + x && v[8..] == AfterPath(f) + y;
    AfterPathIsDetermined(e, x, f, y);
  }

  lemma {:induction false} CrossTail(s: seq<Item>, t: seq<Item>)
    requires (forall i :: 0 <= i < |t| ==> ShaIsPlain(t[i])) && Tail(s) + "]" == HostTail(t) + "]"
    ensures s == t && forall i :: 0 <= i < |t| ==> NoShortEscape(t[i].path)
  {
    hide ItemText, HostItemText, ShaIsPlain, NoShortEscape;
    assert (Tail(s) + "]")[0] == if s == [] then ']' else ',';
    assert (HostTail(t) + "]")[0] == if t == [] then ']' else ',';
    if s != [] {
      var u, v := Tail(s[1..]) + "]", HostTail(t[1..]) + "]";
      assert (Tail(s) + "]")[1..] == ItemText(s[0]) + u && (HostTail(t) + "]")[1..] == HostItemText(t[0]) + v;
      CrossItem(s[0], u, t[0], v);
      CrossTail(s[1..], t[1..]);
      assert s == [s[0]] + s[1..] && t == [t[0]] + t[1..];
    }
  }

  lemma HostListStart(s: seq<Item>)
    ensures (HostListed(s) + "]")[0] == ']' <==> s == []
  {
    hide HostItemText, HostTail;
    if s != [] { HostItemParts(s[0], ""); assert HostItemText(s[0]) + "" == HostItemText(s[0]); }
  }

  lemma CrossList(s: seq<Item>, t: seq<Item>)
    requires (forall i :: 0 <= i < |t| ==> ShaIsPlain(t[i])) && Listed(s) + "]" == HostListed(t) + "]"
    ensures s == t && forall i :: 0 <= i < |t| ==> NoShortEscape(t[i].path)
  {
    hide ItemText, HostItemText, Tail, HostTail, ShaIsPlain, NoShortEscape;
    ListStart(s);
    HostListStart(t);
    if s != [] {
      var u, v := Tail(s[1..]) + "]", HostTail(t[1..]) + "]";
      assert Listed(s) + "]" == ItemText(s[0]) + u && HostListed(t) + "]" == HostItemText(t[0]) + v;
      CrossItem(s[0], u, t[0], v);
      CrossTail(s[1..], t[1..]);
      assert s == [s[0]] + s[1..] && t == [t[0]] + t[1..];
    }
  }

  lemma SameItemText(e: Item)
    requires ShaIsPlain(e) && NoShortEscape(e.path)
    ensures HostItemText(e) == ItemText(e)
  {
    PrintersAgree(e.path);
    if e.FileItem? { PlainIsStringified(e.sha256); }
  }

  lemma {:induction false} SameTail(s: seq<Item>)
    requires forall i :: 0 <= i < |s| ==> ShaIsPlain(s[i]) && NoShortEscape(s[i].path)
    ensures HostTail(s) == Tail(s)
  {
    hide ItemText, HostItemText, ShaIsPlain, NoShortEscape;
    if s != [] {
      SameItemText(s[0]);
      SameTail(s[1..]);
    }
  }

  lemma SameList(s: seq<Item>)
    requires forall i :: 0 <= i < |s| ==> ShaIsPlain(s[i]) && NoShortEscape(s[i].path)
    ensures HostListed(s) == Listed(s)
  {
    hide ItemText, HostItemText, Tail, HostTail, ShaIsPlain, NoShortEscape;
    if s != [] {
      SameItemText(s[0]);
      SameTail(s[1..]);
    }
  }

  // ---- Two orders ----------------------------------------------------------------------------------------

  /** strcmp of paths on disk is the order of their encodings. */
  lemma KeyOnDisk(e: Item)
    ensures Key(OnDisk(e)) == Utf8Key(e)
  {
    hide Utf8.Encode;
  }

  lemma {:induction false} InsertOnDisk(e: Item, s: seq<Item>)
    ensures Insert(Key, OnDisk(e), AllOnDisk(s)) == AllOnDisk(Insert(Utf8Key, e, s))
  {
    hide Key, OnDisk, Utf8Key, StrCmp;
    KeyOnDisk(e);
    if s != [] {
      KeyOnDisk(s[0]);
      assert AllOnDisk(s)[1..] == AllOnDisk(s[1..]);
      InsertOnDisk(e, s[1..]);
    }
  }

  lemma {:induction false} SortOnDisk(s: seq<Item>)
    ensures SortBy(Key, AllOnDisk(s)) == AllOnDisk(SortBy(Utf8Key, s))
  {
    hide Key, OnDisk, Utf8Key, Insert;
    if s != [] {
      assert AllOnDisk(s)[1..] == AllOnDisk(s[1..]);
      SortOnDisk(s[1..]);
      InsertOnDisk(s[0], SortBy(Utf8Key, s[1..]));
    }
  }

  lemma {:induction false} WithoutRootOnDisk(s: seq<Item>)
    ensures WithoutRoot(AllOnDisk(s)) == AllOnDisk(WithoutRoot(s))
  {
    hide InUtf8;
    if s != [] {
      var rest := WithoutRoot(s[1..]);
      assert AllOnDisk(s)[1..] == AllOnDisk(s[1..]);
      WithoutRootOnDisk(s[1..]);
      EmptyInUtf8(s[0].path);
      assert AllOnDisk([s[0]] + rest) == [OnDisk(s[0])] + AllOnDisk(rest);
    }
  }

  lemma EmptyInUtf8(t: string)
    ensures InUtf8(t) == "" <==> t == ""
  {
  }

  lemma OnDiskIsInjective(s: seq<Item>, t: seq<Item>)
    requires AllOnDisk(s) == AllOnDisk(t)
    ensures s == t
  {
    hide InUtf8;
    forall i | 0 <= i < |s| ensures s[i] == t[i] {
      assert AllOnDisk(s)[i] == OnDisk(s[i]) && AllOnDisk(t)[i] == OnDisk(t[i]);
      InUtf8IsInjective(s[i].path, t[i].path);
    }
  }

  /** No two paths on which the orders disagree. */
  ghost predicate NoneCrossed(s: seq<Item>) {
    forall e, f :: e in s && f in s ==> !IsCrossed(e.path, f.path)
  }

  lemma BothDistinct(s: seq<Item>)
    requires DistinctPaths(s)
    ensures DistinctBy(Utf8Key, s) && DistinctBy(UnitKey, s)
  {
    hide Utf8.Encode, Units;
    forall i, j | 0 <= i < j < |s| ensures Utf8Key(s[i]) != Utf8Key(s[j]) && UnitKey(s[i]) != UnitKey(s[j]) {
      if Utf8Key(s[i]) == Utf8Key(s[j]) { InUtf8IsInjective(s[i].path, s[j].path); }
      if UnitKey(s[i]) == UnitKey(s[j]) { UnitsAreInjective(s[i].path, s[j].path); }
    }
  }

  lemma OrderedPair(e: Item, f: Item)
    requires e.path != f.path
    ensures StrCmp(Utf8Key(e), Utf8Key(f)) <= 0 <==> StrCmp(Utf8Key(e), Utf8Key(f)) < 0
    ensures StrCmp(UnitKey(e), UnitKey(f)) <= 0 <==> StrCmp(UnitKey(e), UnitKey(f)) < 0
  {
    hide StrCmp, Utf8.Encode, Units;
    StrCmpIsAnOrder(Utf8Key(e), Utf8Key(f));
    StrCmpIsAnOrder(UnitKey(e), UnitKey(f));
    if Utf8Key(e) == Utf8Key(f) { InUtf8IsInjective(e.path, f.path); }
    if UnitKey(e) == UnitKey(f) { UnitsAreInjective(e.path, f.path); }
  }

  /** A list sorted by encodings is sorted by units exactly when no pair is crossed. */
  lemma SortedByBoth(s: seq<Item>)
    requires DistinctPaths(s) && SortedBy(Utf8Key, s)
    ensures SortedBy(UnitKey, s) <==> NoneCrossed(s)
  {
    hide StrCmp, Utf8.Encode, Units, IsCrossed;
    forall i, j | 0 <= i < j < |s|
      ensures StrCmp(UnitKey(s[i]), UnitKey(s[j])) <= 0 <==> !IsCrossed(s[i].path, s[j].path)
      ensures IsCrossed(s[i].path, s[j].path) <==> IsCrossed(s[j].path, s[i].path)
    {
      OrderedPair(s[i], s[j]);
      OrdersAgree(s[i].path, s[j].path);
    }
    if SortedBy(UnitKey, s) {
      forall e, f | e in s && f in s ensures !IsCrossed(e.path, f.path) {
        var i :| 0 <= i < |s| && s[i] == e;
        var j :| 0 <= j < |s| && s[j] == f;
        if i == j { NotCrossedWithItself(e.path); }
      }
    }
  }

  lemma {:induction false} NotCrossedWithItself(p: string)
    ensures !IsCrossed(p, p)
  {
    if p != "" { NotCrossedWithItself(p[1..]); }
  }

  lemma SameMembers(s: seq<Item>, t: seq<Item>)
    requires multiset(s) == multiset(t)
    ensures forall e :: e in s <==> e in t
  {
    forall e ensures e in s <==> e in t { assert e in s <==> e in multiset(s); }
  }

  /** The two sorts give the same list exactly when no pair is crossed. */
  lemma SameSort(s: seq<Item>)
    requires DistinctPaths(s)
    ensures SortBy(Utf8Key, s) == SortBy(UnitKey, s) <==> NoneCrossed(s)
  {
    var a, b := SortBy(Utf8Key, s), SortBy(UnitKey, s);
    SortBySorts(Utf8Key, s);
    SortBySorts(UnitKey, s);
    BothDistinct(s);
    DistinctnessOfPermutation(UnitKey, s, a);
    SameMembers(s, a);
    hide SortBy, SortedBy, IsCrossed;
    assert DistinctPaths(a) by { PathsDistinct(a); }
    SortedByBoth(a);
    if SortedBy(UnitKey, a) { SortedPermutationIsUnique(UnitKey, a, b); }
    assert NoneCrossed(a) <==> NoneCrossed(s);
  }

  lemma PathsDistinct(s: seq<Item>)
    requires DistinctBy(UnitKey, s)
    ensures DistinctPaths(s)
  {
    hide Units;
  }

  // ---- The two manifests ------------------------------------------------------------------------------------

  lemma {:induction false} WithoutRootMembers(s: seq<Item>, e: Item)
    ensures e in WithoutRoot(s) <==> e in s && e.path != ""
  {
    if s != [] {
      WithoutRootMembers(s[1..], e);
      assert s == [s[0]] + s[1..];
    }
  }

  lemma {:induction false} WithoutRootIsDistinct(s: seq<Item>)
    requires DistinctPaths(s)
    ensures DistinctPaths(WithoutRoot(s))
  {
    if s != [] {
      var rest := WithoutRoot(s[1..]);
      WithoutRootIsDistinct(s[1..]);
      forall j | 0 <= j < |rest| ensures rest[j].path != s[0].path {
        WithoutRootMembers(s[1..], rest[j]);
        var i :| 0 <= i < |s[1..]| && s[1..][i] == rest[j];
        assert s[i + 1] == rest[j];
      }
    }
  }

  lemma WithoutRootIsTree(s: seq<Item>)
    requires IsTree(s)
    ensures IsTree(WithoutRoot(s)) && forall e :: e in WithoutRoot(s) <==> e in s && e.path != ""
  {
    hide ShaIsPlain, WithoutRoot;
    WithoutRootIsDistinct(s);
    var w := WithoutRoot(s);
    forall e ensures e in w <==> e in s && e.path != "" { WithoutRootMembers(s, e); }
    forall i | 0 <= i < |w| ensures ShaIsPlain(w[i]) { assert w[i] in s; }
  }

  lemma HostTextInUtf8(s: seq<Item>)
    requires forall i :: 0 <= i < |s| ==> ShaIsPlain(s[i])
    ensures var sorted := SortBy(UnitKey, WithoutRoot(s));
      InUtf8(HostText(s)) == "[" + HostListed(AllOnDisk(sorted)) + "]" && forall i :: 0 <= i < |sorted| ==>
        ShaIsPlain(sorted[i])
  {
    var w := WithoutRoot(s);
    var sorted := SortBy(UnitKey, w);
    SortBySorts(UnitKey, w);
    SameMembers(sorted, w);
    forall i | 0 <= i < |sorted| ensures ShaIsPlain(sorted[i]) {
      assert sorted[i] in w;
      WithoutRootMembers(s, sorted[i]);
    }
    hide SortBy, InUtf8, HostListed, ShaIsPlain;
    ListedInUtf8(sorted);
    InUtf8OfAscii("[");
    InUtf8OfAscii("]");
    InUtf8OfConcat("[", HostListed(sorted));
    InUtf8OfConcat("[" + HostListed(sorted), "]");
  }

  /** Which paths the two sides treat alike. */
  ghost predicate PrintsAlike(s: seq<Item>) { forall e :: e in s && e.path != "" ==> NoShortEscape(e.path) }

  lemma {:induction false} EscapesOnDisk(t: string)
    ensures NoShortEscape(InUtf8(t)) <==> NoShortEscape(t)
    decreases |t|
  {
    hide InUtf8;
    if t == "" {
      InUtf8OfAscii("");
    } else {
      var c, rest := t[0], t[1..];
      assert t == [c] + rest;
      EscapesOnDisk(rest);
      OneChar(c);
      InUtf8OfConcat([c], rest);
      EscapesOfConcat([c], rest);
      EscapesOfConcat(InUtf8([c]), InUtf8(rest));
    }
  }

  lemma EscapesOfConcat(a: string, b: string)
    ensures NoShortEscape(a + b) <==> NoShortEscape(a) && NoShortEscape(b)
  {
    hide HasShortEscape;
    assert forall i :: 0 <= i < |a| ==> (a + b)[i] == a[i];
    assert forall i :: 0 <= i < |b| ==> (a + b)[|a| + i] == b[i];
  }

  /** The lists inside the brackets. */
  lemma ListsAgree(x: seq<Item>, y: seq<Item>)
    requires forall i :: 0 <= i < |y| ==> ShaIsPlain(y[i])
    ensures "[" + Listed(AllOnDisk(x)) + "]" == "[" + HostListed(AllOnDisk(y)) + "]"
      <==> x == y && forall i :: 0 <= i < |y| ==> NoShortEscape(y[i].path)
  {
    var a, b := AllOnDisk(x), AllOnDisk(y);
    ListOnDisk(y);
    hide *;
    Bracketed(Listed(a), HostListed(b));
    if Listed(a) + "]" == HostListed(b) + "]" {
      CrossList(a, b);
      OnDiskIsInjective(x, y);
    }
    if x == y && forall i :: 0 <= i < |y| ==> NoShortEscape(y[i].path) { SameList(b); }
  }

  lemma ListOnDisk(y: seq<Item>)
    requires forall i :: 0 <= i < |y| ==> ShaIsPlain(y[i])
    ensures forall i :: 0 <= i < |y| ==>
      ShaIsPlain(AllOnDisk(y)[i]) && (NoShortEscape(AllOnDisk(y)[i].path) <==> NoShortEscape(y[i].path))
  {
    forall i | 0 <= i < |y|
      ensures ShaIsPlain(AllOnDisk(y)[i]) && (NoShortEscape(AllOnDisk(y)[i].path) <==> NoShortEscape(y[i].path))
    {
      EscapesOnDisk(y[i].path);
    }
  }

  lemma Bracketed(a: string, b: string)
    ensures "[" + a + "]" == "[" + b + "]" <==> a + "]" == b + "]"
  {
    assert ("[" + a + "]")[1..] == a + "]" && ("[" + b + "]")[1..] == b + "]";
  }

  lemma PrintedOnes(s: seq<Item>, w: seq<Item>, y: seq<Item>)
    requires (forall e :: e in w <==> e in s && e.path != "") && forall e :: e in y <==> e in w
    ensures PrintsAlike(s) <==> forall i :: 0 <= i < |y| ==> NoShortEscape(y[i].path)
  {
    hide NoShortEscape;
    if forall i :: 0 <= i < |y| ==> NoShortEscape(y[i].path) {
      forall e | e in s && e.path != "" ensures NoShortEscape(e.path) { assert e in y; }
    }
    if PrintsAlike(s) {
      forall i | 0 <= i < |y| ensures NoShortEscape(y[i].path) { assert y[i] in w; }
    }
  }

  /** The two texts of the same entries. */
  lemma TextsAgree(s: seq<Item>)
    requires IsTree(s)
    ensures InUtf8(HostText(s)) == Text(AllOnDisk(s)) <==> PrintsAlike(s) && NoneCrossed(WithoutRoot(s))
  {
    var w := WithoutRoot(s);
    var x, y := SortBy(Utf8Key, w), SortBy(UnitKey, w);
    WithoutRootIsTree(s);
    HostTextInUtf8(s);
    WithoutRootOnDisk(s);
    SortOnDisk(w);
    assert Text(AllOnDisk(s)) == "[" + Listed(AllOnDisk(x)) + "]" by { hide SortBy, Listed; }
    assert DistinctPaths(w);
    hide *;
    SameSort(w);
    SortBySorts(UnitKey, w);
    SameMembers(y, w);
    PrintedOnes(s, w, y);
    ListsAgree(x, y);
  }

  // ---- What each side makes of a path -----------------------------------------------------------------------

  /**
   * What is used of Unicode normalization form C: normalizing again changes nothing, and it keeps a
   * weight that every further character adds to, the length of the full decomposition.
   */
  ghost predicate IsNormalization(nfc: string -> string, weight: string -> nat) {
    && (forall t :: nfc(nfc(t)) == nfc(t))
    && (forall t :: weight(nfc(t)) == weight(t))
    && forall a, b: string :: b != "" ==> weight(a) < weight(a + b)
  }

  /** The entry as the host lists it. */
  function Normalized(nfc: string -> string, e: Item): Item { e.(path := nfc(e.path)) }

  function AllNormalized(nfc: string -> string, s: seq<Item>): (r: seq<Item>)
    ensures |r| == |s| && forall i :: 0 <= i < |s| ==> r[i] == Normalized(nfc, s[i])
  {
    seq(|s|, i requires 0 <= i < |s| => Normalized(nfc, s[i]))
  }

  /** A path in the buffer of the image builder. */
  function Cut(t: string): string {
    if |t| < SourceTree.PATH_BUFFER then t else t[..SourceTree.PATH_BUFFER - 1]
  }

  /** The entry as the image builder lists it. */
  function Collected(e: Item): Item { e.(path := Cut(InUtf8(e.path))) }

  function AllCollected(s: seq<Item>): (r: seq<Item>)
    ensures |r| == |s| && forall i :: 0 <= i < |s| ==> r[i] == Collected(s[i])
  {
    seq(|s|, i requires 0 <= i < |s| => Collected(s[i]))
  }

  ghost predicate AllNormal(nfc: string -> string, s: seq<Item>) { forall e :: e in s ==> nfc(e.path) == e.path }

  ghost predicate AllFit(s: seq<Item>) { forall e :: e in s ==> |InUtf8(e.path)| < SourceTree.PATH_BUFFER }

  /** The host has a manifest, and its bytes are those of the image builder. */
  ghost predicate ManifestsMatch(nfc: string -> string, lower: string -> string, s: seq<Item>) {
    && !Collides(lower, WithoutRoot(AllNormalized(nfc, s)))
    && InUtf8(HostText(AllNormalized(nfc, s))) == Text(AllCollected(s))
  }

  lemma NormalStay(nfc: string -> string, s: seq<Item>)
    requires AllNormal(nfc, s)
    ensures AllNormalized(nfc, s) == s
  {
    forall i | 0 <= i < |s| ensures AllNormalized(nfc, s)[i] == s[i] { assert s[i] in s; }
  }

  lemma FittingStay(s: seq<Item>)
    requires AllFit(s)
    ensures AllCollected(s) == AllOnDisk(s)
  {
    hide InUtf8;
    forall i | 0 <= i < |s| ensures AllCollected(s)[i] == AllOnDisk(s)[i] { assert s[i] in s; }
  }

  lemma {:induction false} WithoutRootNormalized(nfc: string -> string, weight: string -> nat, s: seq<Item>)
    requires IsNormalization(nfc, weight)
    ensures WithoutRoot(AllNormalized(nfc, s)) == AllNormalized(nfc, WithoutRoot(s))
  {
    if s != [] {
      var rest := WithoutRoot(s[1..]);
      assert AllNormalized(nfc, s)[1..] == AllNormalized(nfc, s[1..]);
      WithoutRootNormalized(nfc, weight, s[1..]);
      EmptyIsLightest(nfc, weight, s[0].path);
      assert AllNormalized(nfc, [s[0]] + rest) == [Normalized(nfc, s[0])] + AllNormalized(nfc, rest);
    }
  }

  lemma EmptyIsLightest(nfc: string -> string, weight: string -> nat, t: string)
    requires IsNormalization(nfc, weight)
    ensures nfc(t) == "" <==> t == ""
    ensures t != "" ==> 0 < weight(t)
  {
    assert "" + t == t && "" + nfc(t) == nfc(t);
    assert t != "" ==> weight("") < weight("" + t);
    assert nfc(t) != "" ==> weight("") < weight("" + nfc(t));
  }

  lemma {:induction false} WithoutRootCollected(s: seq<Item>)
    ensures WithoutRoot(AllCollected(s)) == AllCollected(WithoutRoot(s))
  {
    hide InUtf8;
    if s != [] {
      var rest := WithoutRoot(s[1..]);
      assert AllCollected(s)[1..] == AllCollected(s[1..]);
      WithoutRootCollected(s[1..]);
      EmptyInUtf8(s[0].path);
      assert AllCollected([s[0]] + rest) == [Collected(s[0])] + AllCollected(rest);
    }
  }

  // ---- Weighing the lists ---------------------------------------------------------------------------------

  function Sum(f: Item -> nat, s: seq<Item>): nat {
    if s == [] then 0 else f(s[0]) + Sum(f, s[1..])
  }

  lemma {:induction false} SumOfInsert(f: Item -> nat, key: Item -> seq<byte>, e: Item, s: seq<Item>)
    ensures Sum(f, Insert(key, e, s)) == f(e) + Sum(f, s)
  {
    hide StrCmp;
    if s == [] || StrCmp(key(e), key(s[0])) <= 0 {
      assert ([e] + s)[1..] == s;
    } else {
      SumOfInsert(f, key, e, s[1..]);
      assert ([s[0]] + Insert(key, e, s[1..]))[1..] == Insert(key, e, s[1..]);
    }
  }

  lemma {:induction false} SumOfSorted(f: Item -> nat, key: Item -> seq<byte>, s: seq<Item>)
    ensures Sum(f, SortBy(key, s)) == Sum(f, s)
  {
    hide Insert;
    if s != [] {
      SumOfSorted(f, key, s[1..]);
      SumOfInsert(f, key, s[0], SortBy(key, s[1..]));
    }
  }

  /** The weight of the text that some bytes encode; bytes that encode none weigh nothing. */
  ghost function WeightOnDisk(weight: string -> nat, t: string): nat {
    if u :| InUtf8(u) == t then weight(u) else 0
  }

  lemma WeightOfEncoded(weight: string -> nat, u: string)
    ensures WeightOnDisk(weight, InUtf8(u)) == weight(u)
  {
    hide InUtf8;
    var v :| InUtf8(v) == InUtf8(u) && WeightOnDisk(weight, InUtf8(u)) == weight(v);
    InUtf8IsInjective(u, v);
  }

  /** What encodes a part of the bytes is a part of the text. */
  lemma PartOfEncoded(u: string, p: string)
    requires InUtf8(u) <= InUtf8(p)
    ensures u <= p
  {
    var a, b := Utf8.Encode(u), Utf8.Encode(p);
    assert forall i :: 0 <= i < |a| ==> a[i] == (InUtf8(u)[i] as int) == (InUtf8(p)[i] as int) == b[i];
    assert b == a + b[|a|..];
    Utf8.DecodeInvertsEncode(u, b[|a|..]);
    Utf8.DecodeInvertsEncode(p, []);
    Utf8.DecodeNothing();
    assert b + [] == b && p + "" == p;
  }

  lemma WeightOfCut(nfc: string -> string, weight: string -> nat, p: string)
    requires IsNormalization(nfc, weight)
    ensures WeightOnDisk(weight, Cut(InUtf8(p))) <= weight(p)
    ensures |InUtf8(p)| >= SourceTree.PATH_BUFFER ==> WeightOnDisk(weight, Cut(InUtf8(p))) < weight(p)
  {
    hide InUtf8;
    var t := Cut(InUtf8(p));
    if |InUtf8(p)| < SourceTree.PATH_BUFFER {
      WeightOfEncoded(weight, p);
    } else {
      EmptyInUtf8(p);
      EmptyIsLightest(nfc, weight, p);
      if u :| InUtf8(u) == t {
        WeightOfEncoded(weight, u);
        PartOfEncoded(u, p);
        assert u != p && p == u + p[|u|..];
      }
    }
  }

  /** The builder's list weighs no more than the paths, and less when one of them was cut. */
  lemma {:induction false} WeightOfCollected(nfc: string -> string, weight: string -> nat, f: Item -> nat,
                                             g: Item -> nat, s: seq<Item>)
    requires IsNormalization(nfc, weight)
    requires forall e :: f(e) == WeightOnDisk(weight, e.path) && g(e) == weight(e.path)
    ensures Sum(f, AllCollected(s)) <= Sum(g, s)
    ensures Sum(f, AllCollected(s)) == Sum(g, s) ==> AllFit(s)
  {
    hide InUtf8, Cut, IsNormalization;
    if s != [] {
      assert AllCollected(s)[1..] == AllCollected(s[1..]);
      WeightOfCut(nfc, weight, s[0].path);
      WeightOfCollected(nfc, weight, f, g, s[1..]);
      assert forall e :: e in s ==> e == s[0] || e in s[1..];
    }
  }

  /** The host's list weighs what the paths weigh. */
  lemma {:induction false} WeightOfNormalized(nfc: string -> string, weight: string -> nat, f: Item -> nat,
                                              g: Item -> nat, s: seq<Item>)
    requires IsNormalization(nfc, weight)
    requires forall e :: f(e) == WeightOnDisk(weight, e.path) && g(e) == weight(e.path)
    ensures Sum(f, AllOnDisk(s)) == Sum(g, s) == Sum(g, AllNormalized(nfc, s))
  {
    hide InUtf8;
    if s != [] {
      assert AllOnDisk(s)[1..] == AllOnDisk(s[1..]);
      assert AllNormalized(nfc, s)[1..] == AllNormalized(nfc, s[1..]);
      WeightOfEncoded(weight, s[0].path);
      WeightOfNormalized(nfc, weight, f, g, s[1..]);
    }
  }

  /** Lists that print alike have no path that was cut. */
  lemma SameListsFit(nfc: string -> string, weight: string -> nat, w: seq<Item>)
    requires IsNormalization(nfc, weight)
    requires SortBy(Key, AllCollected(w)) == AllOnDisk(SortBy(UnitKey, AllNormalized(nfc, w)))
    ensures AllFit(w)
  {
    hide *;
    var f := (e: Item) => WeightOnDisk(weight, e.path);
    var g := (e: Item) => weight(e.path);
    var n := AllNormalized(nfc, w);
    SumOfSorted(f, Key, AllCollected(w));
    SumOfSorted(g, UnitKey, n);
    WeightOfNormalized(nfc, weight, f, g, SortBy(UnitKey, n));
    WeightOfNormalized(nfc, weight, f, g, w);
    WeightOfCollected(nfc, weight, f, g, w);
  }

  /** And every path was normal. */
  lemma SameListsAreNormal(nfc: string -> string, weight: string -> nat, w: seq<Item>)
    requires IsNormalization(nfc, weight) && SortBy(Utf8Key, w) == SortBy(UnitKey, AllNormalized(nfc, w))
    ensures AllNormal(nfc, w)
  {
    var n := AllNormalized(nfc, w);
    SortBySorts(Utf8Key, w);
    SortBySorts(UnitKey, n);
    SameMembers(SortBy(Utf8Key, w), w);
    SameMembers(SortBy(UnitKey, n), n);
    forall e | e in w ensures nfc(e.path) == e.path {
      assert e in n;
      var i :| 0 <= i < |n| && n[i] == e;
      assert e == Normalized(nfc, w[i]);
    }
  }

  lemma WithRoot(nfc: string -> string, weight: string -> nat, s: seq<Item>)
    requires IsNormalization(nfc, weight)
    ensures AllFit(WithoutRoot(s)) <==> AllFit(s)
    ensures AllNormal(nfc, WithoutRoot(s)) <==> AllNormal(nfc, s)
  {
    hide InUtf8, WithoutRoot, IsNormalization;
    forall e ensures e in WithoutRoot(s) <==> e in s && e.path != "" { WithoutRootMembers(s, e); }
    EmptyInUtf8("");
    EmptyIsLightest(nfc, weight, "");
  }

  lemma MatchingIsNormal(nfc: string -> string, weight: string -> nat, lower: string -> string, s: seq<Item>)
    requires IsTree(s) && IsNormalization(nfc, weight) && ManifestsMatch(nfc, lower, s)
    ensures AllFit(s) && AllNormal(nfc, s)
  {
    var w, n := WithoutRoot(s), AllNormalized(nfc, s);
    var a, y := SortBy(Key, AllCollected(w)), SortBy(UnitKey, AllNormalized(nfc, w));
    WithoutRootNormalized(nfc, weight, s);
    WithoutRootCollected(s);
    forall i | 0 <= i < |n| ensures ShaIsPlain(n[i]) { assert ShaIsPlain(s[i]); }
    HostTextInUtf8(n);
    assert "[" + Listed(a) + "]" == "[" + HostListed(AllOnDisk(y)) + "]" by { hide SortBy, Listed, HostListed, InUtf8; }
    assert forall i :: 0 <= i < |y| ==> ShaIsPlain(y[i]);
    hide *;
    ListOnDisk(y);
    Bracketed(Listed(a), HostListed(AllOnDisk(y)));
    CrossList(a, AllOnDisk(y));
    SameListsFit(nfc, weight, w);
    FittingStay(w);
    SortOnDisk(w);
    OnDiskIsInjective(SortBy(Utf8Key, w), y);
    SameListsAreNormal(nfc, weight, w);
    WithRoot(nfc, weight, s);
  }

  /**
   * The host and the image builder print the same bytes for a tree exactly when every path is
   * normalized and fits the builder's buffer, no two paths fold to the same key, no path below the
   * root has a character with a short escape, and no two paths are crossed.
   */
  lemma ManifestsAgree(nfc: string -> string, weight: string -> nat, lower: string -> string, s: seq<Item>)
    requires IsTree(s) && IsNormalization(nfc, weight)
    ensures ManifestsMatch(nfc, lower, s) <==>
      AllNormal(nfc, s) && AllFit(s) && !Collides(lower, WithoutRoot(s)) && PrintsAlike(s)
        && NoneCrossed(WithoutRoot(s))
  {
    hide IsTree, IsNormalization, AllNormal, AllFit, Collides, PrintsAlike, NoneCrossed, WithoutRoot, HostText, Text,
      InUtf8;
    if ManifestsMatch(nfc, lower, s) { MatchingIsNormal(nfc, weight, lower, s); }
    if AllNormal(nfc, s) && AllFit(s) {
      NormalStay(nfc, s);
      FittingStay(s);
      TextsAgree(s);
    }
  }

  const DECOMPOSED: string := "e\U{0301}"
  const COMPOSED: string := "\U{00E9}"

  /** One file with a decomposed name, nothing else amiss: the host prints another path than the builder. */
  lemma DecomposedNameDiffers(nfc: string -> string, weight: string -> nat, lower: string -> string, mode: nat,
                              sha: string)
    requires IsNormalization(nfc, weight) && nfc(DECOMPOSED) == COMPOSED && IsPlain(sha)
    ensures var s := [FileItem(DECOMPOSED, mode, sha)];
      && IsTree(s) && AllFit(s) && !Collides(lower, WithoutRoot(s)) && PrintsAlike(s) && NoneCrossed(WithoutRoot(s))
      && !ManifestsMatch(nfc, lower, s)
  {
    var s := [FileItem(DECOMPOSED, mode, sha)];
    DecomposedIsPlain(s[0]);
    ManifestsAgree(nfc, weight, lower, s);
    assert s[0] in s;
  }

  lemma DecomposedIsPlain(e: Item)
    requires e.path == DECOMPOSED
    ensures |InUtf8(e.path)| < SourceTree.PATH_BUFFER && NoShortEscape(e.path) && !IsCrossed(e.path, e.path)
    ensures WithoutRoot([e]) == [e]
  {
    assert DECOMPOSED == ['e', '\U{0301}'];
    NotCrossedWithItself(e.path);
    Utf8.EncodeOfConcat(['e'], ['\U{0301}']);
    OneChar('e');
    OneChar('\U{0301}');
  }
}
