/**
 * The canonical manifest whose digest seals a snapshot
 * (packages/sandbox-vm-native/src/vm-image-builder.c, compute_canonical_digest): a JSON
 * array of the entries sorted by path, the root left out.
 */
module Manifest {
  import opened Prelude
  import Decimal
  import opened JsonText
  import opened Sorting

  datatype Item =
    | FileItem(path: string, mode: nat, sha256: string)
    | DirItem(path: string, mode: nat)

  /** The bytes of a path, for strcmp. */
  function Key(e: Item): (k: seq<byte>)
    ensures |k| == |e.path|
  {
    seq(|e.path|, i requires 0 <= i < |e.path| => e.path[i] as int % 256)
  }

  /** What a directory walk collects: C strings for paths, no path twice. */
  ghost predicate Entries(s: seq<Item>) {
    && (forall i :: 0 <= i < |s| ==> IsByteString(s[i].path))
    && forall i, j :: 0 <= i < j < |s| ==> s[i].path != s[j].path
  }

  function WithoutRoot(s: seq<Item>): seq<Item> {
    if s == [] then []
    else if s[0].path == "" then WithoutRoot(s[1..])
    else [s[0]] + WithoutRoot(s[1..])
  }

  function Sorted(s: seq<Item>): seq<Item> { SortBy(Key, WithoutRoot(s)) }

  // The literal fragments, in the order they are printed.
  function PathMark(): (s: string) ensures |s| == 8 && s[0] == '{' { "{\"path\":" }
  function TypeMark(): (s: string) ensures |s| == 8 { ",\"type\":" }
  function DirMark(): (s: string) ensures |s| == 5 && s[1] == 'd' { "\"dir\"" }
  function FileMark(): (s: string) ensures |s| == 6 && s[1] == 'f' { "\"file\"" }
  function ModeMark(): (s: string) ensures |s| == 8 { ",\"mode\":" }
  function ShaMark(): (s: string) ensures |s| == 10 && s[0] == ',' { ",\"sha256\":" }

  function ItemText(e: Item): string {
    PathMark() + PlainString(e.path)
    + TypeMark() + (if e.DirItem? then DirMark() else FileMark())
    + ModeMark() + Decimal.Numeral(e.mode)
    + (if e.FileItem? then ShaMark() + PlainString(e.sha256) else "")
    + "}"
  }

  function Tail(s: seq<Item>): string {
    if s == [] then "" else "," + (ItemText(s[0]) + Tail(s[1..]))
  }

  /** The items with a comma between neighbours. */
  function Listed(s: seq<Item>): string {
    if s == [] then "" else ItemText(s[0]) + Tail(s[1..])
  }

  function Text(s: seq<Item>): string { "[" + Listed(Sorted(s)) + "]" }

  // ---- The builder's loops ---------------------------------------------------

  method JsonString(s: string) returns (b: string)
    ensures b == PlainString(s)
  {
    hide PlainEscape;
    b := "\"";
    for i := 0 to |s|
      invariant b + Escaped(PlainEscape, s[i..]) == "\"" + Escaped(PlainEscape, s)
    {
      assert s[i..][1..] == s[i + 1..];
      b := b + PlainEscape(s[i]);
    }
    assert s[|s|..] == "";
    b := b + "\"";
  }

  method ItemJson(e: Item) returns (b: string)
    ensures b == ItemText(e)
  {
    hide PlainString, Decimal.Numeral, PathMark, TypeMark, DirMark, FileMark, ModeMark, ShaMark;
    var path := JsonString(e.path);
    b := PathMark() + path + TypeMark();
    if e.DirItem? { b := b + DirMark(); } else { b := b + FileMark(); }
    b := b + ModeMark() + Decimal.Numeral(e.mode);
    if e.FileItem? {
      var sha := JsonString(e.sha256);
      b := b + ShaMark() + sha;
    }
    b := b + "}";
  }

  lemma NothingListed()
    ensures Listed([]) == ""
  {
  }

  lemma {:induction false} TailOneMore(s: seq<Item>, e: Item)
    ensures Tail(s + [e]) == Tail(s) + "," + ItemText(e)
  {
    hide ItemText;
    if s == [] {
      assert [e][1..] == [];
      assert Tail([e]) == "," + (ItemText(e) + "");
    } else {
      TailOneMore(s[1..], e);
      assert (s + [e])[1..] == s[1..] + [e];
    }
  }

  lemma ListedOneMore(s: seq<Item>, i: nat)
    requires i < |s|
    ensures Listed(s[..i + 1]) == Listed(s[..i]) + (if i > 0 then "," else "") + ItemText(s[i])
  {
    hide ItemText;
    if i == 0 {
      assert s[..1][1..] == [];
    } else {
      assert s[..i + 1][1..] == s[..i][1..] + [s[i]];
      TailOneMore(s[..i][1..], s[i]);
    }
  }

  method ManifestJson(entries: seq<Item>) returns (b: string)
    ensures b == Text(entries)
  {
    hide PlainString, Decimal.Numeral, ItemText, SortBy, Key, Listed;
    assert Listed([]) == "" by { NothingListed(); }
    var kept := [];
    for i := 0 to |entries|
      invariant kept + WithoutRoot(entries[i..]) == WithoutRoot(entries)
    {
      assert entries[i..][1..] == entries[i + 1..];
      if entries[i].path != "" { kept := kept + [entries[i]]; }
    }
    assert entries[|entries|..] == [] && kept + [] == kept;
    var sorted := SortBy(Key, kept);
    b := "[";
    for i := 0 to |sorted|
      invariant b == "[" + Listed(sorted[..i])
    {
      if i > 0 { b := b + ","; }
      var item := ItemJson(sorted[i]);
      b := b + item;
      ListedOneMore(sorted, i);
    }
    assert sorted[..|sorted|] == sorted;
    b := b + "]";
  }

  // ---- One manifest for every enumeration order ------------------------------

  lemma {:induction false} WithoutRootCounts(s: seq<Item>, e: Item)
    ensures multiset(WithoutRoot(s))[e] == if e.path == "" then 0 else multiset(s)[e]
  {
    if s != [] {
      WithoutRootCounts(s[1..], e);
      assert s == [s[0]] + s[1..];
    }
  }

  lemma KeyIsInjective(a: Item, b: Item)
    requires IsByteString(a.path) && IsByteString(b.path) && Key(a) == Key(b)
    ensures a.path == b.path
  {
    forall i | 0 <= i < |a.path| ensures a.path[i] == b.path[i] {
      assert Key(a)[i] == a.path[i] as int && Key(b)[i] == b.path[i] as int;
    }
  }

  lemma {:induction false} WithoutRootKeeps(s: seq<Item>)
    requires Entries(s)
    ensures Entries(WithoutRoot(s)) && forall e :: e in WithoutRoot(s) ==> e in s
  {
    if s != [] {
      var rest := s[1..];
      assert Entries(rest);
      WithoutRootKeeps(rest);
      forall e | e in WithoutRoot(rest) ensures e.path != s[0].path {
        var j :| 0 <= j < |rest| && rest[j] == e;
        assert s[j + 1] == e;
      }
      HeadIsNew(s[0], WithoutRoot(rest));
    }
  }

  lemma HeadIsNew(e: Item, s: seq<Item>)
    requires Entries(s) && IsByteString(e.path) && forall f :: f in s ==> f.path != e.path
    ensures Entries([e] + s)
  {
    var t := [e] + s;
    forall i, j | 0 <= i < j < |t| ensures t[i].path != t[j].path {
      assert t[j] == s[j - 1] && t[j] in s;
    }
  }

  lemma EntriesAreDistinct(s: seq<Item>)
    requires Entries(s)
    ensures DistinctBy(Key, s)
  {
    forall i, j | 0 <= i < j < |s| ensures Key(s[i]) != Key(s[j]) {
      if Key(s[i]) == Key(s[j]) { KeyIsInjective(s[i], s[j]); }
    }
  }

  /** The manifest text does not depend on the order in which the walk met the entries. */
  lemma OrderIndependent(s: seq<Item>, t: seq<Item>)
    requires Entries(s) && multiset(s) == multiset(t)
    ensures Text(s) == Text(t)
  {
    forall e ensures multiset(WithoutRoot(s))[e] == multiset(WithoutRoot(t))[e] {
      WithoutRootCounts(s, e);
      WithoutRootCounts(t, e);
    }
    WithoutRootKeeps(s);
    EntriesAreDistinct(WithoutRoot(s));
    SortOfPermutation(Key, WithoutRoot(s), WithoutRoot(t));
  }

  // ---- The text determines the entries ---------------------------------------

  lemma ModeIsDetermined(e: Item, x: string, f: Item, y: string)
    requires e.FileItem? == f.FileItem?
    requires Decimal.Numeral(e.mode) + (if e.FileItem? then ShaMark() + PlainString(e.sha256) else "") + "}" + x
             == Decimal.Numeral(f.mode) + (if f.FileItem? then ShaMark() + PlainString(f.sha256) else "") + "}" + y
    ensures e.mode == f.mode && x == y && (e.FileItem? ==> e.sha256 == f.sha256)
  {
    hide PlainString, Decimal.Numeral, ShaMark;
    if e.FileItem? {
      var u, v := ShaMark() + (PlainString(e.sha256) + "}" + x), ShaMark() + (PlainString(f.sha256) + "}" + y);
      assert Decimal.Numeral(e.mode) + (ShaMark() + PlainString(e.sha256)) + "}" + x == Decimal.Numeral(e.mode) + u;
      assert Decimal.Numeral(f.mode) + (ShaMark() + PlainString(f.sha256)) + "}" + y == Decimal.Numeral(f.mode) + v;
      assert u[0] == ',' && v[0] == ',';
      Decimal.NumeralIsDetermined(e.mode, u, f.mode, v);
      assert u[10..] == PlainString(e.sha256) + ("}" + x) && v[10..] == PlainString(f.sha256) + ("}" + y);
      PlainStringIsDetermined(e.sha256, "}" + x, f.sha256, "}" + y);
      assert ("}" + x)[1..] == x && ("}" + y)[1..] == y;
    } else {
      assert Decimal.Numeral(e.mode) + "" + "}" + x == Decimal.Numeral(e.mode) + ("}" + x);
      assert Decimal.Numeral(f.mode) + "" + "}" + y == Decimal.Numeral(f.mode) + ("}" + y);
      Decimal.NumeralIsDetermined(e.mode, "}" + x, f.mode, "}" + y);
      assert ("}" + x)[1..] == x && ("}" + y)[1..] == y;
    }
  }

  /** What follows the path. */
  function AfterPath(e: Item): string {
    (if e.DirItem? then DirMark() else FileMark())
    + (ModeMark() + (Decimal.Numeral(e.mode) + (if e.FileItem? then ShaMark() + PlainString(e.sha256) else "") + "}"))
  }

  lemma ItemTextParts(e: Item, x: string)
    ensures ItemText(e) + x == PathMark() + (PlainString(e.path) + (TypeMark() + (AfterPath(e) + x)))
  {
    hide PlainString, Decimal.Numeral, ShaMark, PathMark, TypeMark, ModeMark, DirMark, FileMark;
  }

  lemma ItemIsDetermined(e: Item, x: string, f: Item, y: string)
    requires ItemText(e) + x == ItemText(f) + y
    ensures e == f && x == y
  {
    ItemTextParts(e, x);
    ItemTextParts(f, y);
    hide PlainString, PathMark, TypeMark, AfterPath, ItemText;
    var u, v := TypeMark() + (AfterPath(e) + x), TypeMark() + (AfterPath(f) + y);
    assert (PathMark() + (PlainString(e.path) + u))[8..] == PlainString(e.path) + u;
    assert (PathMark() + (PlainString(f.path) + v))[8..] == PlainString(f.path) + v;
    PlainStringIsDetermined(e.path, u, f.path, v);
    assert u[8..] == AfterPath(e) + x && v[8..] == AfterPath(f) + y;
    AfterPathIsDetermined(e, x, f, y);
  }

  lemma AfterPathIsDetermined(e: Item, x: string, f: Item, y: string)
    requires AfterPath(e) + x == AfterPath(f) + y
    ensures e.FileItem? == f.FileItem? && e.mode == f.mode && x == y && (e.FileItem? ==> e.sha256 == f.sha256)
  {
    hide PlainString, Decimal.Numeral, ShaMark, ModeMark, DirMark, FileMark;
    assert (AfterPath(e) + x)[1] == if e.DirItem? then 'd' else 'f';
    assert (AfterPath(f) + y)[1] == if f.DirItem? then 'd' else 'f';
    var n := if e.DirItem? then 13 else 14;
    var u := Decimal.Numeral(e.mode) + (if e.FileItem? then ShaMark() + PlainString(e.sha256) else "") + "}" + x;
    var v := Decimal.Numeral(f.mode) + (if f.FileItem? then ShaMark() + PlainString(f.sha256) else "") + "}" + y;
    assert (AfterPath(e) + x)[n..] == u && (AfterPath(f) + y)[n..] == v;
    ModeIsDetermined(e, x, f, y);
  }

  lemma {:induction false} TailIsDetermined(s: seq<Item>, t: seq<Item>)
    requires Tail(s) + "]" == Tail(t) + "]"
    ensures s == t
  {
    hide ItemText;
    assert (Tail(s) + "]")[0] == if s == [] then ']' else ',';
    assert (Tail(t) + "]")[0] == if t == [] then ']' else ',';
    if s != [] {
      var u, v := Tail(s[1..]) + "]", Tail(t[1..]) + "]";
      assert (Tail(s) + "]")[1..] == ItemText(s[0]) + u && (Tail(t) + "]")[1..] == ItemText(t[0]) + v;
      ItemIsDetermined(s[0], u, t[0], v);
      TailIsDetermined(s[1..], t[1..]);
      assert s == [s[0]] + s[1..] && t == [t[0]] + t[1..];
    }
  }

  lemma ListIsDetermined(s: seq<Item>, t: seq<Item>)
    requires Listed(s) + "]" == Listed(t) + "]"
    ensures s == t
  {
    hide ItemText, Tail;
    ListStart(s);
    ListStart(t);
    if s != [] {
      var u, v := Tail(s[1..]) + "]", Tail(t[1..]) + "]";
      assert Listed(s) + "]" == ItemText(s[0]) + u && Listed(t) + "]" == ItemText(t[0]) + v;
      ItemIsDetermined(s[0], u, t[0], v);
      TailIsDetermined(s[1..], t[1..]);
      assert s == [s[0]] + s[1..] && t == [t[0]] + t[1..];
    }
  }

  lemma ListStart(s: seq<Item>)
    ensures (Listed(s) + "]")[0] == ']' <==> s == []
  {
    hide ItemText, Tail;
    if s != [] { ItemStart(s[0]); }
  }

  lemma ItemStart(e: Item)
    ensures ItemText(e) != "" && ItemText(e)[0] == '{'
  {
    hide PlainString, Decimal.Numeral, ShaMark, PathMark, TypeMark, ModeMark, DirMark, FileMark;
  }

  /** Two trees that print the same manifest have the same entries below the root. */
  lemma Injective(s: seq<Item>, t: seq<Item>)
    requires Text(s) == Text(t)
    ensures multiset(WithoutRoot(s)) == multiset(WithoutRoot(t))
  {
    hide SortBy, Listed;
    assert Text(s)[1..] == Listed(Sorted(s)) + "]" && Text(t)[1..] == Listed(Sorted(t)) + "]";
    ListIsDetermined(Sorted(s), Sorted(t));
    SortBySorts(Key, WithoutRoot(s));
    SortBySorts(Key, WithoutRoot(t));
  }

  /** Equal manifests exactly for equal sets of entries. */
  lemma ManifestIdentifiesTree(s: seq<Item>, t: seq<Item>)
    requires Entries(s)
    ensures Text(s) == Text(t) <==> multiset(WithoutRoot(s)) == multiset(WithoutRoot(t))
  {
    if multiset(WithoutRoot(s)) == multiset(WithoutRoot(t)) {
      WithoutRootKeeps(s);
      EntriesAreDistinct(WithoutRoot(s));
      SortOfPermutation(Key, WithoutRoot(s), WithoutRoot(t));
    }
    if Text(s) == Text(t) { Injective(s, t); }
  }
}
