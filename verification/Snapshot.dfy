/**
 * The snapshot build from end to end (packages/sandbox-vm-native/src/vm-image-builder.c): walk
 * the tree, sort the table, emit data, inodes and metadata; and what the finished image shows.
 */
module Snapshot {
  import opened Prelude
  import opened Paths
  import opened ImageBytes
  import opened SourceTree
  import opened SealedImage
  import opened Sorting
  import opened ImageTheorem
  import Reader = ImageReader

  function Relpath(e: Entry): seq<byte> { e.relpath }

  function InodeNumber(e: Entry): nat { e.inode }

  const ROOT_ENTRY: Entry := Entry([], ROOT_INO, true, [])

  /** The entries in the order they are met, the root first. */
  function Collected(root: seq<Named>): seq<Entry> {
    [ROOT_ENTRY] + Numbered(Listing(root, []), FIRST_USR_INO)
  }

  /** The table the emit loops run over. */
  function Table(root: seq<Named>): seq<Entry> { SortBy(Relpath, Collected(root)) }

  /** How many entries the inode table has room for: the numbers 11 to 256, besides the root. */
  const INODE_ROOM: nat := 246

  // ---- The sorted table has the same members -----------------------------------------

  lemma TableMembers(root: seq<Named>, e: Entry)
    ensures e in Table(root) <==> e in Collected(root)
    ensures |Table(root)| == 1 + |Listing(root, [])|
  {
    hide Listing, Numbered, SortBy;
    SortBySorts(Relpath, Collected(root));
    assert e in Table(root) <==> e in multiset(Table(root));
    assert |multiset(Table(root))| == |multiset(Collected(root))|;
  }

  /** An entry is the root's, or that of the listed node its inode number counts. */
  lemma MemberCases(root: seq<Named>, e: Entry)
    ensures e in Table(root) <==>
      e == ROOT_ENTRY
      || (FIRST_USR_INO <= e.inode < FIRST_USR_INO + |Listing(root, [])|
          && e == EntryOf(Listing(root, [])[e.inode - FIRST_USR_INO], e.inode))
  {
    hide Listing, EntryOf, Table;
    TableMembers(root, e);
    var l := Listing(root, []);
    var tail := Numbered(l, FIRST_USR_INO);
    assert e in Collected(root) <==> e == ROOT_ENTRY || e in tail;
    if e in tail {
      var i :| 0 <= i < |tail| && tail[i] == e;
      EntryInode(l[i], FIRST_USR_INO + i);
    }
    if FIRST_USR_INO <= e.inode < FIRST_USR_INO + |l| && e == EntryOf(l[e.inode - FIRST_USR_INO], e.inode) {
      assert tail[e.inode - FIRST_USR_INO] == e;
    }
  }

  lemma EntryInode(f: Found, inode: nat)
    ensures EntryOf(f, inode).inode == inode
  {
  }

  /** What is listed is in the tree. */
  lemma ListedNode(root: seq<Named>, f: Found)
    requires ValidChildren(root) && f in Listing(root, [])
    ensures f.path != [] && Resolve(Dir(root), f.path) == Reached(f.node) && AreNames(SLASH, f.path)
  {
    hide Listing, Resolve, ValidChildren;
    ListedIsReached(root, [], f);
    assert f.path[0..] == f.path;
  }

  /** The text of a listed path fits its buffer, and only the root's is empty. */
  lemma ListedRel(root: seq<Named>, f: Found, inode: nat)
    requires ValidChildren(root) && f in Listing(root, [])
    ensures var rel := EntryOf(f, inode).relpath; |rel| < PATH_BUFFER && rel != [] && |Basename(rel)| < 256
  {
    hide Listing, Resolve, ValidChildren, ValidName, Basename, Rel;
    ListedNode(root, f);
    ReachedNamesAreValid(root, f.path);
    RelIsShort(f.path);
  }

  /** Its entry stands for a listed node exactly when its path fits the buffer. */
  lemma ListedRepresents(root: seq<Named>, f: Found, inode: nat)
    requires ValidChildren(root) && f in Listing(root, [])
    ensures Represents(EntryOf(f, inode), root, f.path) <==> |Join(SLASH, f.path)| < PATH_BUFFER
  {
    hide Listing, Resolve, ValidChildren, Join, Rel;
    ListedNode(root, f);
    ListedRel(root, f, inode);
    if |Join(SLASH, f.path)| < PATH_BUFFER { RelIsCut(f.path); }
  }

  lemma RootRepresents(root: seq<Named>)
    ensures Represents(ROOT_ENTRY, root, [])
  {
  }

  /** The entry of a member of the table, and the path it stands for. */
  lemma MemberRepresents(root: seq<Named>, e: Entry) returns (path: Path)
    requires ValidChildren(root) && PathsFit(root) && e in Table(root)
    ensures Represents(e, root, path)
  {
    hide Listing, ValidChildren, Represents, Table, EntryOf;
    MemberCases(root, e);
    RootRepresents(root);
    if e == ROOT_ENTRY {
      path := [];
    } else {
      var f := Listing(root, [])[e.inode - FIRST_USR_INO];
      ListedRepresents(root, f, e.inode);
      path := f.path;
    }
  }

  /** What the text of an entry is like, whether or not its path fits. */
  lemma MemberRel(root: seq<Named>, e: Entry)
    requires ValidChildren(root) && e in Table(root)
    ensures |e.relpath| < PATH_BUFFER && |Basename(e.relpath)| < 256 && (e.relpath == [] <==> e == ROOT_ENTRY)
    ensures e == ROOT_ENTRY || FIRST_USR_INO <= e.inode < FIRST_USR_INO + |Listing(root, [])|
  {
    hide Listing, ValidChildren, Table, EntryOf, Basename;
    MemberCases(root, e);
    RootBasename();
    if e != ROOT_ENTRY { ListedRel(root, Listing(root, [])[e.inode - FIRST_USR_INO], e.inode); }
  }

  /** Every node of the tree has its entry. */
  lemma ReachedHasEntry(root: seq<Named>, path: Path)
    requires ValidChildren(root) && PathsFit(root) && Resolve(Dir(root), path).Reached?
    ensures exists e :: e in Table(root) && Represents(e, root, path)
  {
    hide Listing, ValidChildren, Resolve, Represents, Table, EntryOf;
    if path == [] {
      MemberCases(root, ROOT_ENTRY);
      RootRepresents(root);
    } else {
      ReachedIsListed(root, [], path);
      assert [] + path == path;
      var f := Found(path, Resolve(Dir(root), path).node);
      var l := Listing(root, []);
      var i :| 0 <= i < |l| && l[i] == f;
      var e := EntryOf(f, FIRST_USR_INO + i);
      EntryInode(f, FIRST_USR_INO + i);
      MemberCases(root, e);
      ListedRepresents(root, f, FIRST_USR_INO + i);
    }
  }

  // ---- No path and no inode number occurs twice ----------------------------------------

  lemma CollectedIsDistinct(root: seq<Named>)
    requires ValidChildren(root) && PathsFit(root)
    ensures DistinctBy(Relpath, Collected(root))
  {
    hide Listing, ValidChildren, Represents, EntryOf, Join;
    var l, es := Listing(root, []), Collected(root);
    ListingIsDistinct(root, []);
    forall i, j | 0 <= i < j < |es| ensures Relpath(es[i]) != Relpath(es[j]) {
      assert es[j] == EntryOf(l[j - 1], FIRST_USR_INO + j - 1);
      ListedRepresents(root, l[j - 1], FIRST_USR_INO + j - 1);
      ListedRel(root, l[j - 1], FIRST_USR_INO + j - 1);
      if i > 0 {
        assert es[i] == EntryOf(l[i - 1], FIRST_USR_INO + i - 1);
        ListedRepresents(root, l[i - 1], FIRST_USR_INO + i - 1);
        SamePathSameRelpath(es[i], es[j], root, l[i - 1].path, l[j - 1].path);
      }
    }
  }

  lemma TableIsSorted(root: seq<Named>)
    ensures SortedBy(Relpath, Table(root))
  {
    hide SortBy, Collected;
    SortBySorts(Relpath, Collected(root));
  }

  lemma TableIsDistinct(root: seq<Named>)
    requires ValidChildren(root) && PathsFit(root)
    ensures DistinctRelpaths(Table(root))
  {
    hide SortBy, Collected, ValidChildren;
    CollectedIsDistinct(root);
    SortBySorts(Relpath, Collected(root));
    DistinctnessOfPermutation(Relpath, Collected(root), Table(root));
    var es := Table(root);
    assert forall i, j :: 0 <= i < j < |es| ==> Relpath(es[i]) != Relpath(es[j]);
  }

  /** When every path fits, the table tells exactly what the tree contains. */
  lemma TableDescribes(root: seq<Named>)
    requires ValidChildren(root) && PathsFit(root)
    ensures Describes(Table(root), root)
  {
    hide Table, Resolve, ValidChildren, Represents, PathsFit;
    var es := Table(root);
    TableIsDistinct(root);
    forall e | e in es ensures (exists path :: Represents(e, root, path)) && (e.relpath == [] ==> e.inode == ROOT_INO) {
      var path := MemberRepresents(root, e);
      MemberRel(root, e);
    }
    forall path | Resolve(Dir(root), path).Reached? ensures exists e :: e in es && Represents(e, root, path) {
      ReachedHasEntry(root, path);
    }
  }

  /** And only then: a path that was cut is the path of no entry. */
  lemma TableDescribesExactly(root: seq<Named>)
    requires ValidChildren(root)
    ensures Describes(Table(root), root) <==> PathsFit(root)
  {
    hide Table, Resolve, ValidChildren, Listing, Join;
    if PathsFit(root) { TableDescribes(root); }
    if Describes(Table(root), root) {
      forall f | f in Listing(root, []) ensures |Join(SLASH, f.path)| < PATH_BUFFER {
        ListedNode(root, f);
        var e :| e in Table(root) && Represents(e, root, f.path);
        MemberRel(root, e);
      }
    }
  }

  lemma TableInodesAreDistinct(root: seq<Named>)
    ensures DistinctInodes(Table(root))
  {
    hide Listing, EntryOf, SortBy;
    var l, es := Listing(root, []), Table(root);
    var all := Collected(root);
    forall i | 1 <= i < |all| ensures all[i].inode == FIRST_USR_INO + i - 1 {
      EntryInode(l[i - 1], FIRST_USR_INO + i - 1);
    }
    assert DistinctBy(InodeNumber, all);
    SortBySorts(Relpath, all);
    DistinctnessOfPermutation(InodeNumber, all, es);
    forall i | 0 <= i < |es| ensures es[i].inode > 0 {
      TableMembers(root, es[i]);
    }
    assert forall i, j :: 0 <= i < j < |es| ==> InodeNumber(es[i]) != InodeNumber(es[j]);
  }

  /** The inode table has a slot for every entry exactly when there are at most 246 of them. */
  lemma InodesFitExactly(root: seq<Named>)
    requires ValidChildren(root)
    ensures InodesFit(Table(root)) <==> |Listing(root, [])| <= INODE_ROOM
  {
    hide Table, ValidChildren, Listing, EntryOf;
    var es, n := Table(root), |Listing(root, [])|;
    TableInodesAreDistinct(root);
    if n <= INODE_ROOM {
      forall i | 0 <= i < |es| ensures es[i].inode <= N_INODES {
        MemberCases(root, es[i]);
      }
    } else {
      var i := EntryBeyondTable(root);
      assert es[i].inode > N_INODES;
    }
  }

  lemma EntryBeyondTable(root: seq<Named>) returns (i: nat)
    requires |Listing(root, [])| > INODE_ROOM
    ensures i < |Table(root)| && Table(root)[i].inode == N_INODES + 1
  {
    hide Table, Listing, EntryOf;
    var e := EntryOf(Listing(root, [])[N_INODES + 1 - FIRST_USR_INO], N_INODES + 1);
    EntryInode(Listing(root, [])[N_INODES + 1 - FIRST_USR_INO], N_INODES + 1);
    MemberCases(root, e);
    i :| 0 <= i < |Table(root)| && Table(root)[i] == e;
  }

  /** The root sorts first. */
  lemma RootIsFirst(root: seq<Named>)
    requires ValidChildren(root)
    ensures Table(root) != [] && Table(root)[0] == ROOT_ENTRY
  {
    hide Table, ValidChildren, Listing, EntryOf;
    var es := Table(root);
    MemberCases(root, ROOT_ENTRY);
    TableIsSorted(root);
    var j :| 0 <= j < |es| && es[j] == ROOT_ENTRY;
    EmptySortsFirst(es, j);
    MemberRel(root, es[0]);
  }

  lemma EmptySortsFirst(es: seq<Entry>, j: nat)
    requires SortedBy(Relpath, es) && j < |es| && es[j].relpath == []
    ensures es[0].relpath == []
  {
    assert StrCmp(es[0].relpath, []) <= 0 ==> es[0].relpath == [];
    assert j == 0 || StrCmp(Relpath(es[0]), Relpath(es[j])) <= 0;
  }

  lemma RootBasename()
    ensures Basename([]) == []
  {
  }

  lemma TableIsValid(root: seq<Named>)
    requires ValidChildren(root) && |Listing(root, [])| < MAX_ENTRIES
    ensures ValidTable(Table(root))
  {
    hide ValidChildren, Listing, Table, Basename;
    TableMembers(root, ROOT_ENTRY);
    var es := Table(root);
    forall i | 0 <= i < |es| ensures ValidEntry(es[i]) {
      MemberRel(root, es[i]);
    }
  }

  // ---- The build -------------------------------------------------------------------------

  datatype Outcome = Image(bytes: seq<byte>) | Died | Undefined

  /**
   * Snapshot mode, after the digest comparison. A build ends with an image exactly when the tree
   * is at most 32 deep, has at most 511 entries, every directory fits a block, and the blocks of
   * every file, counted in 32 bits, are at most twelve. The image is well formed exactly when at
   * most 246 entries need an inode.
   */
  method Build(root: seq<Named>) returns (r: Outcome)
    requires ValidChildren(root)
    ensures r.Image? <==> DepthOk(root, 0) && |Listing(root, [])| < MAX_ENTRIES && AllEmit(Table(root), |Table(root)|)
    ensures r.Undefined? ==> SomeUndefined(Table(root))
    ensures r.Image? ==> (Sealed(Table(root), r.bytes) <==> |Listing(root, [])| <= INODE_ROOM)
  {
    hide ValidChildren, DepthOk, Listing, Table, Sealed, SlotsHeld, TableWritten, InodesFit, DistinctInodes, AllEmit,
      SomeUndefined, Emitted, ValidTable, Collected;
    var es := Collect(root);
    if es.None? { return Outcome.Died; }
    TableIsValid(root);
    var sorted := SortBy(Relpath, es.value);
    assert sorted == Table(root) by { hide *; CollectedSorts(root); }
    var w := new Writer(sorted);
    var s := w.EmitAll();
    if s.Undefined? { return Outcome.Undefined; }
    if s.Died? { return Outcome.Died; }
    InodesFitExactly(root);
    TableInodesAreDistinct(root);
    RootIsFirst(root);
    w.WriteInodes();
    w.WriteMetadata();
    if |Listing(root, [])| > INODE_ROOM {
      ghost var i := EntryBeyondTable(root);
      SlotBeyondTable(sorted, w.bytes, i);
    }
    return Image(w.bytes);
  }

  lemma CollectedSorts(root: seq<Named>)
    ensures SortBy(Relpath, Collected(root)) == Table(root)
  {
  }

  /** new_entry for the root, then the walk. */
  method Collect(root: seq<Named>) returns (es: Option<seq<Entry>>)
    requires ValidChildren(root)
    ensures es.Some? <==> DepthOk(root, 0) && |Listing(root, [])| < MAX_ENTRIES
    ensures es.Some? ==> es.value == Collected(root)
  {
    hide ValidChildren, DepthOk, Listing, Numbered;
    var w := new Walker();
    var ok := w.NewEntry([], true, []);
    ok := w.Walk(root, [], 0, []);
    if !ok { return None; }
    return Some(w.entries);
  }

  /** Every file of the tree is at most twelve blocks. */
  ghost predicate FilesFit(root: seq<Named>) {
    forall f :: f in Listing(root, []) && f.node.File? ==> IsWhole(f.node.content)
  }

  /** A node as its reader sees it, for every path: the image is the tree, but for files that are too large. */
  lemma BuiltImageIsTree(root: seq<Named>, img: seq<byte>, path: Path)
    requires ValidChildren(root) && PathsFit(root)
    requires Sealed(Table(root), img) && |Listing(root, [])| <= INODE_ROOM && ValidPath(path)
    ensures Reader.ViewPath(img, path) == Shown(Resolve(Dir(root), path)) <==> IsRoomy(Resolve(Dir(root), path))
  {
    hide *;
    TableDescribes(root);
    InodesFitExactly(root);
    SealedImageIsTree(Table(root), img, root, path);
  }

  /** A path that was cut is one the image does not show. */
  lemma CutPathIsNotShown(root: seq<Named>, img: seq<byte>, f: Found)
    requires ValidChildren(root) && Sealed(Table(root), img) && |Listing(root, [])| <= INODE_ROOM
    requires f in Listing(root, []) && |Join(SLASH, f.path)| >= PATH_BUFFER
    ensures ValidPath(f.path) && Reader.ViewPath(img, f.path) != Shown(Resolve(Dir(root), f.path))
  {
    hide *;
    var es := Table(root);
    InodesFitExactly(root);
    RootIsFirst(root);
    RootEntryIs();
    ListedNode(root, f);
    ListedPathIsValid(root, f);
    forall k | 0 <= k < |es| ensures es[k].relpath != Join(SLASH, f.path) {
      MemberRel(root, es[k]);
    }
    UnspelledIsNotShown(es, img, root, f.path, 0);
  }

  lemma RootEntryIs()
    ensures ROOT_ENTRY.inode == ROOT_INO && ROOT_ENTRY.relpath == []
  {
  }

  lemma ListedPathIsValid(root: seq<Named>, f: Found)
    requires ValidChildren(root) && f in Listing(root, [])
    ensures ValidPath(f.path)
  {
    hide Listing, Resolve, ValidChildren, ValidName;
    ListedNode(root, f);
    ReachedNamesAreValid(root, f.path);
  }

  /**
   * The image shows the tree, for every path, exactly when every path of the tree is below 4096
   * bytes and every file at most twelve blocks.
   */
  lemma ImageIsTreeExactly(root: seq<Named>, img: seq<byte>)
    requires ValidChildren(root) && Sealed(Table(root), img) && |Listing(root, [])| <= INODE_ROOM
    ensures (forall path :: ValidPath(path) ==> Reader.ViewPath(img, path) == Shown(Resolve(Dir(root), path)))
      <==> PathsFit(root) && FilesFit(root)
  {
    hide ValidChildren, Sealed, Listing, Table, ValidPath, Shown, Resolve, IsRoomy, PathsFit, FilesFit, Reader.ViewPath;
    if PathsFit(root) {
      forall path | ValidPath(path)
        ensures Reader.ViewPath(img, path) == Shown(Resolve(Dir(root), path)) <==> IsRoomy(Resolve(Dir(root), path))
      {
        BuiltImageIsTree(root, img, path);
      }
      RoomyPaths(root);
    } else {
      var f := TooLong(root);
      CutPathIsNotShown(root, img, f);
    }
  }

  lemma TooLong(root: seq<Named>) returns (f: Found)
    requires !PathsFit(root)
    ensures f in Listing(root, []) && |Join(SLASH, f.path)| >= PATH_BUFFER
  {
    hide Listing, Join;
    f :| f in Listing(root, []) && |Join(SLASH, f.path)| >= PATH_BUFFER;
  }

  /** Every path leads to a node with room exactly when every file of the tree has it. */
  lemma RoomyPaths(root: seq<Named>)
    requires ValidChildren(root)
    ensures (forall path :: ValidPath(path) ==> IsRoomy(Resolve(Dir(root), path))) <==> FilesFit(root)
  {
    hide ValidChildren, Listing, ValidPath, Resolve, IsWhole;
    if FilesFit(root) {
      forall path | ValidPath(path) ensures IsRoomy(Resolve(Dir(root), path)) {
        var r := Resolve(Dir(root), path);
        if r.Reached? && path != [] {
          ReachedIsListed(root, [], path);
          assert [] + path == path;
          assert Found(path, r.node).node == r.node;
        }
        if path == [] { RootIsReached(root); }
      }
    }
    if forall path :: ValidPath(path) ==> IsRoomy(Resolve(Dir(root), path)) {
      forall f | f in Listing(root, []) && f.node.File? ensures IsWhole(f.node.content) {
        ListedNode(root, f);
        ListedPathIsValid(root, f);
        assert IsRoomy(Resolve(Dir(root), f.path));
      }
    }
  }

  lemma RootIsReached(root: seq<Named>)
    ensures Resolve(Dir(root), []) == Reached(Dir(root))
  {
  }
}
