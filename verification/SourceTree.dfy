/**
 * The directory tree that is sealed, the walk over it and the table of entries the walk
 * fills (packages/sandbox-vm-native/src/vm-image-builder.c, walk, new_entry,
 * collect_children, inode_of, basename).
 */
module SourceTree {
  import opened Prelude
  import opened Paths
  import opened ImageBytes
  import DirBlock

  const SLASH: byte := 47

  datatype Node = File(content: seq<byte>) | Dir(children: seq<Named>)
  datatype Named = Named(name: seq<byte>, node: Node)

  type Path = seq<seq<byte>>

  /** What a file system guarantees of a name that is not "." or "..". */
  predicate ValidName(n: seq<byte>) {
    IsName(SLASH, n) && 0 !in n && |n| < 256 && n != DirBlock.DOT && n != DirBlock.DOT_DOT
  }

  ghost predicate ValidChildren(cs: seq<Named>)
    decreases cs
  {
    && (forall i :: 0 <= i < |cs| ==> ValidName(cs[i].name))
    && (forall i, j :: 0 <= i < j < |cs| ==> cs[i].name != cs[j].name)
    && (forall i :: 0 <= i < |cs| && cs[i].node.Dir? ==> ValidChildren(cs[i].node.children))
  }

  // ---- The tree as a map from paths to nodes ----------------------------------

  datatype Resolution = Missing | NotADirectory | Reached(node: Node)

  function Lookup(cs: seq<Named>, name: seq<byte>): Option<Node> {
    if cs == [] then None
    else if cs[0].name == name then Some(cs[0].node)
    else Lookup(cs[1..], name)
  }

  function Resolve(node: Node, path: Path): Resolution
    decreases |path|
  {
    if path == [] then Reached(node)
    else if node.File? then NotADirectory
    else
      var child := Lookup(node.children, path[0]);
      if child.None? then Missing else Resolve(child.value, path[1..])
  }

  /** Following one more component. */
  lemma {:induction false} ResolveOneMore(node: Node, path: Path, name: seq<byte>)
    ensures var r := Resolve(node, path);
            Resolve(node, path + [name])
            == if r.Reached? then Resolve(r.node, [name]) else r
    decreases |path|
  {
    if path == [] {
      assert path + [name] == [name];
    } else if node.Dir? {
      var child := Lookup(node.children, path[0]);
      assert (path + [name])[1..] == path[1..] + [name];
      if child.Some? { ResolveOneMore(child.value, path[1..], name); }
    }
  }

  // ---- The walk, as a list ------------------------------------------------------

  datatype Found = Found(path: Path, node: Node)

  /** Every node below a directory, parents before children, in the order readdir gives them. */
  function Listing(cs: seq<Named>, prefix: Path): seq<Found>
    decreases cs
  {
    if cs == [] then []
    else
      var path := prefix + [cs[0].name];
      [Found(path, cs[0].node)]
      + (if cs[0].node.Dir? then Listing(cs[0].node.children, path) else [])
      + Listing(cs[1..], prefix)
  }

  /** One node and everything below it. */
  function Subtree(node: Node, path: Path): seq<Found> {
    [Found(path, node)] + if node.Dir? then Listing(node.children, path) else []
  }

  lemma {:induction false} LookupIsAnIndex(cs: seq<Named>, name: seq<byte>) returns (i: nat)
    requires Lookup(cs, name).Some?
    ensures i < |cs| && cs[i].name == name && cs[i].node == Lookup(cs, name).value
  {
    if cs[0].name == name { return 0; }
    var j := LookupIsAnIndex(cs[1..], name);
    i := j + 1;
  }

  lemma ValidParts(cs: seq<Named>)
    requires ValidChildren(cs) && cs != []
    ensures ValidName(cs[0].name) && ValidChildren(cs[1..])
    ensures cs[0].node.Dir? ==> ValidChildren(cs[0].node.children)
  {
    var rest := cs[1..];
    assert forall i :: 0 <= i < |rest| ==> rest[i] == cs[i + 1];
  }

  lemma {:induction false} OtherNames(cs: seq<Named>, name: seq<byte>)
    requires forall i :: 0 <= i < |cs| ==> cs[i].name != name
    ensures Lookup(cs, name) == None
  {
    if cs != [] { OtherNames(cs[1..], name); }
  }

  /** Everything listed is in the tree, at the path it is listed under. */
  lemma {:induction false} ListedIsReached(cs: seq<Named>, prefix: Path, f: Found)
    requires ValidChildren(cs) && f in Listing(cs, prefix)
    ensures |prefix| < |f.path| && f.path[..|prefix|] == prefix
    ensures Resolve(Dir(cs), f.path[|prefix|..]) == Reached(f.node)
    ensures AreNames(SLASH, f.path[|prefix|..]) && Lookup(cs, f.path[|prefix|]).Some?
    decreases cs
  {
    hide ValidName;
    ValidParts(cs);
    var path := prefix + [cs[0].name];
    if f == Found(path, cs[0].node) {
      assert f.path[|prefix|..] == [cs[0].name];
      NameIsName(cs[0].name);
    } else if cs[0].node.Dir? && f in Listing(cs[0].node.children, path) {
      ListedIsReached(cs[0].node.children, path, f);
      assert f.path[|path|..] == f.path[|prefix|..][1..];
      assert f.path[|prefix|] == f.path[..|path|][|prefix|] == cs[0].name;
      assert f.path[..|prefix|] == f.path[..|path|][..|prefix|];
      NameIsName(cs[0].name);
      NamesFromFront(f.path[|prefix|..]);
    } else {
      ListedIsReached(cs[1..], prefix, f);
      var i := LookupIsAnIndex(cs[1..], f.path[|prefix|]);
      assert cs[i + 1].name == f.path[|prefix|] && f.path[|prefix|..][0] == f.path[|prefix|];
    }
  }

  lemma NameIsName(n: seq<byte>)
    requires ValidName(n)
    ensures IsName(SLASH, n)
  {
  }

  lemma NamesFromFront(p: Path)
    requires p != [] && IsName(SLASH, p[0]) && AreNames(SLASH, p[1..])
    ensures AreNames(SLASH, p)
  {
    assert forall i :: 1 <= i < |p| ==> p[i] == p[1..][i - 1];
  }

  /** Everything in the tree is listed. */
  lemma {:induction false} ReachedIsListed(cs: seq<Named>, prefix: Path, rel: Path)
    requires rel != [] && Resolve(Dir(cs), rel).Reached?
    ensures Found(prefix + rel, Resolve(Dir(cs), rel).node) in Listing(cs, prefix)
    decreases cs
  {
    if cs[0].name == rel[0] {
      var path := prefix + [cs[0].name];
      if |rel| == 1 {
        assert rel == [cs[0].name] && rel[1..] == [];
      } else {
        assert cs[0].node.Dir?;
        ReachedIsListed(cs[0].node.children, path, rel[1..]);
        assert path + rel[1..] == prefix + rel;
      }
    } else {
      ReachedIsListed(cs[1..], prefix, rel);
    }
  }

  ghost predicate DistinctPaths(l: seq<Found>) {
    forall i, j :: 0 <= i < j < |l| ==> l[i].path != l[j].path
  }

  lemma DistinctConcat(a: seq<Found>, b: seq<Found>)
    requires DistinctPaths(a) && DistinctPaths(b)
    requires forall f, g :: f in a && g in b ==> f.path != g.path
    ensures DistinctPaths(a + b)
  {
    forall i, j | 0 <= i < j < |a + b| ensures (a + b)[i].path != (a + b)[j].path {
      if i < |a| && j >= |a| { assert a[i] in a && b[j - |a|] in b; }
    }
  }

  /** No path is listed twice. */
  lemma {:induction false} ListingIsDistinct(cs: seq<Named>, prefix: Path)
    requires ValidChildren(cs)
    ensures DistinctPaths(Listing(cs, prefix))
    decreases cs
  {
    if cs != [] {
      hide ValidName;
      ValidParts(cs);
      var path := prefix + [cs[0].name];
      var head := [Found(path, cs[0].node)];
      var sub := if cs[0].node.Dir? then Listing(cs[0].node.children, path) else [];
      var rest := Listing(cs[1..], prefix);
      ListingIsDistinct(cs[1..], prefix);
      forall f | f in rest ensures |f.path| > |prefix| && f.path[|prefix|] != cs[0].name {
        ListedIsReached(cs[1..], prefix, f);
        var i := LookupIsAnIndex(cs[1..], f.path[|prefix|]);
        assert cs[i + 1].name == f.path[|prefix|];
      }
      forall f | f in sub ensures |f.path| > |path| && f.path[|prefix|] == cs[0].name {
        ListedIsReached(cs[0].node.children, path, f);
        assert f.path[..|path|][|prefix|] == cs[0].name;
      }
      if cs[0].node.Dir? { ListingIsDistinct(cs[0].node.children, path); }
      DistinctConcat(head, sub);
      assert forall f :: f in head + sub ==> |f.path| > |prefix| && f.path[|prefix|] == cs[0].name;
      DistinctConcat(head + sub, rest);
    }
  }

  // ---- Paths as the C strings of the entry table --------------------------------

  predicate IsChildPath(r: seq<byte>, dir: seq<byte>) {
    r != [] &&
    if dir == [] then SLASH !in r
    else |dir| < |r| && r[..|dir|] == dir && r[|dir|] == SLASH && SLASH !in r[|dir| + 1..]
  }

  /** What follows the last slash. */
  function Basename(r: seq<byte>): seq<byte> {
    if SLASH in r then Basename(r[1..]) else r
  }

  /** What precedes the last slash; empty when there is none. */
  function ParentRel(r: seq<byte>): seq<byte> {
    if r == [] then []
    else if r[|r| - 1] == SLASH then r[..|r| - 1]
    else ParentRel(r[..|r| - 1])
  }

  lemma {:induction false} BasenameUnder(dir: seq<byte>, name: seq<byte>)
    requires SLASH !in name
    ensures Basename(dir + [SLASH] + name) == name
  {
    var r := dir + [SLASH] + name;
    assert r[|dir|] == SLASH;
    if dir == [] {
      assert r[1..] == name;
    } else {
      assert r[1..] == dir[1..] + [SLASH] + name;
      BasenameUnder(dir[1..], name);
    }
  }

  lemma {:induction false} ParentRelOfPlain(name: seq<byte>)
    requires SLASH !in name
    ensures ParentRel(name) == []
  {
    if name != [] { ParentRelOfPlain(name[..|name| - 1]); }
  }

  lemma {:induction false} ParentRelUnder(dir: seq<byte>, name: seq<byte>)
    requires SLASH !in name
    ensures ParentRel(dir + [SLASH] + name) == dir
  {
    var r := dir + [SLASH] + name;
    if name == [] {
      assert r[..|r| - 1] == dir;
    } else {
      assert r[..|r| - 1] == dir + [SLASH] + name[..|name| - 1];
      assert r[|r| - 1] == name[|name| - 1] && name[|name| - 1] in name;
      ParentRelUnder(dir, name[..|name| - 1]);
    }
  }

  /** The string tests of the source decide what they should on joined paths. */
  lemma JoinedPath(p: Path, name: seq<byte>, d: Path)
    requires AreNames(SLASH, p) && IsName(SLASH, name) && AreNames(SLASH, d)
    ensures var r := Join(SLASH, p + [name]);
            && r != []
            && Basename(r) == name
            && ParentRel(r) == Join(SLASH, p)
            && (IsChildPath(r, Join(SLASH, d)) <==> p == d)
  {
    var dir, s := Join(SLASH, p), Join(SLASH, d);
    JoinOfMore(SLASH, p, name);
    JoinIsInjective(SLASH, p, d);
    if dir == [] {
      ParentRelOfPlain(name);
    } else {
      BasenameUnder(dir, name);
      ParentRelUnder(dir, name);
    }
    ChildPathUnder(dir, name, s);
  }

  lemma ChildPathUnder(dir: seq<byte>, name: seq<byte>, s: seq<byte>)
    requires IsName(SLASH, name)
    ensures IsChildPath(Under(SLASH, dir, name), s) <==> dir == s
  {
    var r := Under(SLASH, dir, name);
    HasSeparator(SLASH, dir, name);
    if dir == s {
      if s != [] { assert r[|s| + 1..] == name; }
    }
    if IsChildPath(r, s) {
      if s == [] {
      } else {
        var rest := r[|s| + 1..];
        assert r == s + [SLASH] + rest;
        assert r[|s|] == SLASH;
        LastNameIsDetermined(SLASH, dir, name, s, rest);
      }
    }
  }

  // ---- The entry table ------------------------------------------------------------

  const MAX_ENTRIES: nat := 512
  const MAX_CHILDREN: nat := 256
  const MAX_DEPTH: nat := 32
  const PATH_BUFFER: nat := 4096

  /** One collected entry. */
  datatype Entry = Entry(relpath: seq<byte>, inode: nat, isDir: bool, content: seq<byte>)

  /** snprintf into the path buffer cuts what does not fit. */
  function Snprintf(s: seq<byte>): (r: seq<byte>)
    ensures r <= s && |r| < PATH_BUFFER && (|s| < PATH_BUFFER ==> r == s)
  {
    if |s| < PATH_BUFFER then s else s[..PATH_BUFFER - 1]
  }

  /** The text the walk makes of a path: one name after the other, cut to the buffer each time. */
  function Rel(path: Path): seq<byte> {
    if path == [] then [] else Snprintf(Under(SLASH, Rel(path[..|path| - 1]), path[|path| - 1]))
  }

  lemma RelOfMore(path: Path, name: seq<byte>)
    ensures Rel(path + [name]) == Snprintf(Under(SLASH, Rel(path), name))
  {
    assert (path + [name])[..|path|] == path;
  }

  /** Only the root has an empty text, and no text has a last name longer than a name. */
  lemma {:induction false} RelIsShort(path: Path)
    requires forall i :: 0 <= i < |path| ==> ValidName(path[i])
    ensures |Rel(path)| < PATH_BUFFER && (Rel(path) == [] <==> path == []) && |Basename(Rel(path))| < 256
  {
    if path != [] {
      var dir, name := path[..|path| - 1], path[|path| - 1];
      RelIsShort(dir);
      BasenameOfCut(Rel(dir), name);
    }
  }

  lemma BasenameOfCut(dir: seq<byte>, name: seq<byte>)
    requires |dir| < PATH_BUFFER && ValidName(name) && |Basename(dir)| < 256
    ensures |Basename(Snprintf(Under(SLASH, dir, name)))| < 256 && Snprintf(Under(SLASH, dir, name)) != []
  {
    var r := Snprintf(Under(SLASH, dir, name));
    if dir == [] {
      BasenameOfName(name);
    } else if |dir| < |r| {
      var cut := name[..|r| - |dir| - 1];
      assert r == dir + [SLASH] + cut;
      BasenameUnder(dir, cut);
    } else {
      assert r == dir;
    }
  }

  lemma BasenameOfName(name: seq<byte>)
    requires SLASH !in name
    ensures Basename(name) == name
  {
  }

  /** Cut name by name or once at the end, the text is the same: a path that fits is printed whole. */
  lemma {:induction false} RelIsCut(path: Path)
    requires AreNames(SLASH, path)
    ensures Rel(path) == Snprintf(Join(SLASH, path))
  {
    if path != [] {
      var dir, name := path[..|path| - 1], path[|path| - 1];
      assert path == dir + [name];
      JoinOfMore(SLASH, dir, name);
      RelIsCut(dir);
      CutTwice(Join(SLASH, dir), name);
    }
  }

  lemma CutTwice(dir: seq<byte>, name: seq<byte>)
    ensures Snprintf(Under(SLASH, Snprintf(dir), name)) == Snprintf(Under(SLASH, dir, name))
  {
    if |dir| >= PATH_BUFFER {
      var cut := Snprintf(dir);
      assert (cut + [SLASH] + name)[..PATH_BUFFER - 1] == cut == (dir + [SLASH] + name)[..PATH_BUFFER - 1];
    }
  }

  function EntryOf(f: Found, inode: nat): Entry {
    Entry(Rel(f.path), inode, f.node.Dir?, if f.node.File? then f.node.content else [])
  }

  /** The entries of a listing, numbered in the order they are met. */
  function Numbered(l: seq<Found>, first: nat): (es: seq<Entry>)
    ensures |es| == |l|
    ensures forall i :: 0 <= i < |l| ==> es[i] == EntryOf(l[i], first + i)
  {
    seq(|l|, i requires 0 <= i < |l| => EntryOf(l[i], first + i))
  }

  predicate DepthOk(cs: seq<Named>, depth: nat)
    decreases cs
  {
    depth <= MAX_DEPTH && forall i :: 0 <= i < |cs| && cs[i].node.Dir? ==> DepthOk(cs[i].node.children, depth + 1)
  }

  /** Every path of the tree fits the buffer it is printed into. */
  ghost predicate PathsFit(root: seq<Named>) {
    forall f :: f in Listing(root, []) ==> |Join(SLASH, f.path)| < PATH_BUFFER
  }

  class Walker {
    var entries: seq<Entry>
    var nextInode: nat

    constructor ()
      ensures entries == [] && nextInode == FIRST_USR_INO
    {
      entries, nextInode := [], FIRST_USR_INO;
    }

    /** new_entry: the root has inode 2, every other entry the next free number. */
    method NewEntry(relpath: seq<byte>, isDir: bool, content: seq<byte>) returns (ok: bool)
      modifies this
      ensures ok == (|old(entries)| < MAX_ENTRIES)
      ensures !ok ==> entries == old(entries) && nextInode == old(nextInode)
      ensures ok ==> var root := isDir && relpath == [];
        && entries == old(entries) + [Entry(relpath, if root then ROOT_INO else old(nextInode), isDir, content)]
        && nextInode == old(nextInode) + if root then 0 else 1
    {
      if |entries| >= MAX_ENTRIES { return false; }
      var inode := nextInode;
      if isDir && relpath == [] { inode := ROOT_INO; } else { nextInode := nextInode + 1; }
      entries := entries + [Entry(relpath, inode, isDir, content)];
      return true;
    }

    /** The recursive walk over one directory; false is the source's `die`. */
    method Walk(cs: seq<Named>, relprefix: seq<byte>, depth: nat, ghost prefix: Path) returns (ok: bool)
      requires ValidChildren(cs) && relprefix == Rel(prefix) && |entries| <= MAX_ENTRIES
      requires forall i :: 0 <= i < |prefix| ==> ValidName(prefix[i])
      modifies this
      ensures var l := Listing(cs, prefix);
        && (ok <==> DepthOk(cs, depth) && |old(entries)| + |l| <= MAX_ENTRIES)
        && (ok ==> entries == old(entries) + Numbered(l, old(nextInode)) && nextInode == old(nextInode) + |l|)
      decreases cs, 1
    {
      hide Listing, Rel, Under, ValidName, EntryOf, DepthOk, Subtree, ValidChildren, Numbered;
      DepthUnfolds(cs, depth);
      if depth > MAX_DEPTH { return false; }
      ghost var l, done, first := Listing(cs, prefix), [], nextInode;
      assert done + Listing(cs[0..], prefix) == l by { assert cs[0..] == cs; }
      NumberedNone(first);
      for i := 0 to |cs|
        invariant done + Listing(cs[i..], prefix) == l
        invariant forall j :: 0 <= j < i && cs[j].node.Dir? ==> DepthOk(cs[j].node.children, depth + 1)
        invariant entries == old(entries) + Numbered(done, first) && nextInode == first + |done|
        invariant |entries| <= MAX_ENTRIES
      {
        WalkStep(cs, i, relprefix, prefix);
        ghost var path := prefix + [cs[i].name];
        ghost var sub := Subtree(cs[i].node, path);
        var rel := Snprintf(Under(SLASH, relprefix, cs[i].name));
        var fits := Visit(cs[i].node, rel, depth, path);
        if !fits { return false; }
        NumberedMore(done, sub, first);
        done := done + sub;
      }
      NothingListed(cs[|cs|..], prefix);
      return true;
    }

    /** One directory entry: the new table entry, and the walk below it. */
    method Visit(node: Node, rel: seq<byte>, depth: nat, ghost path: Path) returns (ok: bool)
      requires rel == Rel(path) && path != [] && |entries| <= MAX_ENTRIES
      requires forall i :: 0 <= i < |path| ==> ValidName(path[i])
      requires node.Dir? ==> ValidChildren(node.children)
      modifies this
      ensures var l := Subtree(node, path);
        && (ok <==> (node.Dir? ==> DepthOk(node.children, depth + 1)) && |old(entries)| + |l| <= MAX_ENTRIES)
        && (ok ==> entries == old(entries) + Numbered(l, old(nextInode)) && nextInode == old(nextInode) + |l|)
      decreases node, 0
    {
      hide Listing, Rel, Under, ValidName, DepthOk, ValidChildren, Numbered;
      RelIsShort(path);
      SubtreeNumbered(node, path, nextInode);
      ok := NewEntry(rel, node.Dir?, if node.File? then node.content else []);
      if ok && node.Dir? {
        ok := Walk(node.children, rel, depth + 1, path);
      }
    }
  }

  lemma NothingListed(cs: seq<Named>, prefix: Path)
    requires cs == []
    ensures Listing(cs, prefix) == []
  {
  }

  lemma DepthUnfolds(cs: seq<Named>, depth: nat)
    ensures DepthOk(cs, depth) <==>
      depth <= MAX_DEPTH && forall i :: 0 <= i < |cs| && cs[i].node.Dir? ==> DepthOk(cs[i].node.children, depth + 1)
  {
  }

  /** What one turn of the loop contributes to the listing, and what it may assume. */
  lemma WalkStep(cs: seq<Named>, i: nat, relprefix: seq<byte>, prefix: Path)
    requires i < |cs| && ValidChildren(cs) && relprefix == Rel(prefix)
    requires forall j :: 0 <= j < |prefix| ==> ValidName(prefix[j])
    ensures var path, node := prefix + [cs[i].name], cs[i].node;
      && Snprintf(Under(SLASH, relprefix, cs[i].name)) == Rel(path)
      && (forall j :: 0 <= j < |path| ==> ValidName(path[j]))
      && Listing(cs[i..], prefix) == Subtree(node, path) + Listing(cs[i + 1..], prefix)
      && (node.Dir? ==> ValidChildren(node.children))
  {
    hide ValidName, Rel;
    assert cs[i..][0] == cs[i] && cs[i..][1..] == cs[i + 1..];
    RelOfMore(prefix, cs[i].name);
  }

  lemma NumberedNone(first: nat)
    ensures Numbered([], first) == []
  {
  }

  lemma NumberedMore(a: seq<Found>, b: seq<Found>, first: nat)
    ensures Numbered(a + b, first) == Numbered(a, first) + Numbered(b, first + |a|)
  {
    hide EntryOf;
  }

  lemma SubtreeNumbered(node: Node, path: Path, first: nat)
    ensures var e := Entry(Rel(path), first, node.Dir?, if node.File? then node.content else []);
      Numbered(Subtree(node, path), first)
      == [e] + if node.Dir? then Numbered(Listing(node.children, path), first + 1) else []
  {
    hide Listing, Rel;
    NumberedNone(first + 1);
    NumberedMore([Found(path, node)], if node.Dir? then Listing(node.children, path) else [], first);
  }

  // ---- Searching the table ----------------------------------------------------

  function ChildrenOf(es: seq<Entry>, dir: seq<byte>): seq<Entry> {
    if es == [] then []
    else ChildrenOf(es[..|es| - 1], dir) + if IsChildPath(es[|es| - 1].relpath, dir) then [es[|es| - 1]] else []
  }

  method CollectChildren(es: seq<Entry>, dir: seq<byte>, cap: nat) returns (out: seq<Entry>)
    ensures out == if |ChildrenOf(es, dir)| <= cap then ChildrenOf(es, dir) else ChildrenOf(es, dir)[..cap]
  {
    hide IsChildPath;
    out := [];
    var i := 0;
    while i < |es| && |out| < cap
      invariant 0 <= i <= |es| && |out| <= cap && out == ChildrenOf(es[..i], dir)
    {
      assert es[..i + 1][..i] == es[..i];
      if IsChildPath(es[i].relpath, dir) { out := out + [es[i]]; }
      i := i + 1;
    }
    ChildrenOfPrefix(es, i, dir);
    assert es[..|es|] == es;
  }

  lemma {:induction false} ChildrenOfPrefix(es: seq<Entry>, i: nat, dir: seq<byte>)
    requires i <= |es|
    ensures ChildrenOf(es[..i], dir) <= ChildrenOf(es, dir)
  {
    hide IsChildPath;
    if i == |es| {
      assert es[..i] == es;
    } else {
      ChildrenOfPrefix(es[..|es| - 1], i, dir);
      assert es[..|es| - 1][..i] == es[..i];
    }
  }

  lemma {:induction false} ChildrenOfMembers(es: seq<Entry>, dir: seq<byte>, e: Entry)
    ensures e in ChildrenOf(es, dir) <==> e in es && IsChildPath(e.relpath, dir)
  {
    hide IsChildPath;
    if es != [] {
      ChildrenOfMembers(es[..|es| - 1], dir, e);
      assert es == es[..|es| - 1] + [es[|es| - 1]];
    }
  }

  /** The inode of the first entry with this path, 0 when there is none. */
  function InodeOf(es: seq<Entry>, relpath: seq<byte>): nat {
    if es == [] then 0
    else if es[0].relpath == relpath then es[0].inode
    else InodeOf(es[1..], relpath)
  }

  ghost predicate DistinctRelpaths(es: seq<Entry>) {
    forall i, j :: 0 <= i < j < |es| ==> es[i].relpath != es[j].relpath
  }

  lemma {:induction false} InodeOfEntry(es: seq<Entry>, i: nat)
    requires i < |es| && DistinctRelpaths(es)
    ensures InodeOf(es, es[i].relpath) == es[i].inode
  {
    if i > 0 {
      assert es[1..][i - 1] == es[i];
      InodeOfEntry(es[1..], i - 1);
    }
  }

  lemma {:induction false} ChildrenAreDistinct(es: seq<Entry>, dir: seq<byte>)
    requires DistinctRelpaths(es)
    ensures DistinctRelpaths(ChildrenOf(es, dir))
  {
    hide IsChildPath;
    if es != [] {
      var init, last := es[..|es| - 1], es[|es| - 1];
      ChildrenAreDistinct(init, dir);
      forall e | e in ChildrenOf(init, dir) ensures e.relpath != last.relpath {
        ChildrenOfMembers(init, dir, e);
      }
    }
  }
}
