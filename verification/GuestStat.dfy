/**
 * The stat reader of packages/sandbox-vm-native/src/vm-image-builder.c (rd_dir_lookup,
 * rd_stat_guest): a guest path is cut into components, each looked up in an extent-mapped
 * directory, and the inode reached is classified.
 */
module GuestStat {
  import opened Prelude
  import opened Paths
  import opened SourceTree
  import DirBlock
  import ExtentTree
  import ImageBytes
  import ImageTheorem
  import Reader = ImageReader
  import SealedImage

  const MAX_PATH: nat := 4096
  const MAX_COMPONENTS: nat := 64
  const MAX_NAME: nat := 255
  const TYPE_LINK: nat := 10
  const OWNER_EXEC: nat := 64

  // ---- Lookup and classification ------------------------------------------------------------

  datatype Kind = Regular(executable: bool) | Link | Other
  datatype Answer = Hit(kind: Kind) | NoEntry | Died

  /** rd_dir_lookup; Malformed where the source dies. */
  function DirLookup(img: seq<byte>, sb: Reader.Super, dir: nat, name: seq<byte>): DirBlock.Lookup
    requires sb.inodesPerGroup > 0 && sb.inodeSize in {128, 256}
  {
    var inode := Reader.ReadInode(img, sb, dir);
    if inode.None? then DirBlock.Malformed
    else if Reader.FileType(inode.value.mode) != Reader.TYPE_DIR then DirBlock.Malformed
    else if Reader.HasBit(inode.value.flags, Reader.INDEX_BIT) then DirBlock.Malformed
    else if !Reader.HasBit(inode.value.flags, Reader.EXTENTS_BIT) then DirBlock.Malformed
    else
      var b := ExtentTree.Resolve(img, sb, inode.value.iblock, 0, 0);
      if b.None? then DirBlock.Malformed
      else
        var data := ExtentTree.BlockAt(img, sb, b.value);
        if data.None? then DirBlock.Malformed else DirBlock.Scan(data.value, 0, name)
  }

  function KindOf(mode: nat): Kind {
    if Reader.FileType(mode) == TYPE_LINK then Link
    else if Reader.FileType(mode) == Reader.TYPE_REG then Regular(Reader.HasBit(mode, OWNER_EXEC))
    else Other
  }

  function Classify(img: seq<byte>, sb: Reader.Super, ino: nat): Answer
    requires sb.inodesPerGroup > 0 && sb.inodeSize in {128, 256}
  {
    var inode := Reader.ReadInode(img, sb, ino);
    if inode.None? then Died else Hit(KindOf(inode.value.mode))
  }

  /** From the inode `ino`, with `done` components already followed. */
  function StatFrom(img: seq<byte>, sb: Reader.Super, ino: nat, names: Path, done: nat): Answer
    requires sb.inodesPerGroup > 0 && sb.inodeSize in {128, 256}
    decreases |names|
  {
    if names == [] then (if done == 0 then Died else Classify(img, sb, ino))
    else if |names[0]| > MAX_NAME || done + 1 > MAX_COMPONENTS then Died
    else
      match DirLookup(img, sb, ino, names[0])
      case Malformed => Died
      case Absent => NoEntry
      case Found(next) => if next == 0 then NoEntry else StatFrom(img, sb, next, names[1..], done + 1)
  }

  function Stat(img: seq<byte>, sb: Reader.Super, path: seq<byte>): Answer
    requires sb.inodesPerGroup > 0 && sb.inodeSize in {128, 256}
  {
    if path == [] || path[0] != SLASH || |path| > MAX_PATH then Died
    else StatFrom(img, sb, ImageBytes.ROOT_INO, Components(SLASH, path), 0)
  }

  /** rd_stat_guest: one pass over the path string. */
  method StatGuest(img: seq<byte>, sb: Reader.Super, path: seq<byte>) returns (r: Answer)
    requires sb.inodesPerGroup > 0 && sb.inodeSize in {128, 256}
    ensures r == Stat(img, sb, path)
  {
    hide DirLookup, Classify;
    if path == [] || path[0] != SLASH || |path| > MAX_PATH { return Died; }
    var cur, p, n := ImageBytes.ROOT_INO, 0, 0;
    assert path[0..] == path;
    while p < |path|
      invariant p <= |path|
      invariant Stat(img, sb, path) == StatFrom(img, sb, cur, Components(SLASH, path[p..]), n)
      decreases |path| - p
    {
      if path[p] == SLASH {
        assert path[p..][1..] == path[p + 1..];
        p := p + 1;
      } else {
        var start := p;
        while p < |path| && path[p] != SLASH
          invariant start <= p <= |path| && forall k :: start <= k < p ==> path[k] != SLASH
        {
          p := p + 1;
        }
        CutName(path, start, p);
        var name := path[start..p];
        if |name| > MAX_NAME { return Died; }
        n := n + 1;
        if n > MAX_COMPONENTS { return Died; }
        var next := DirLookup(img, sb, cur, name);
        assert ([name] + Components(SLASH, path[p..]))[1..] == Components(SLASH, path[p..]);
        match next {
          case Malformed => return Died;
          case Absent => return NoEntry;
          case Found(ino) =>
            if ino == 0 { return NoEntry; }
            cur := ino;
        }
      }
    }
    if n == 0 { return Died; }
    r := Classify(img, sb, cur);
  }

  lemma CutName(path: seq<byte>, start: nat, p: nat)
    requires start < p <= |path| && (p < |path| ==> path[p] == SLASH) && forall k :: start <= k < p ==> path[k] != SLASH
    ensures Components(SLASH, path[start..]) == [path[start..p]] + Components(SLASH, path[p..])
  {
    var s, name := path[start..], path[start..p];
    NameLengthOfName(SLASH, name);
    if p < |path| {
      assert s == name + [SLASH] + path[p + 1..];
      NameLengthOfConcat(SLASH, name, path[p + 1..]);
    } else {
      assert s == name;
    }
    assert s[..p - start] == name && s[p - start..] == path[p..];
  }

  // ---- Images with extent-mapped directories ---------------------------------------------------

  /** A node of a file system; a folder with its extent tree, its block and the entries in it. */
  datatype Node =
    | Folder(tree: ExtentTree.Tree, block: nat, dirents: seq<DirBlock.Dirent>, members: seq<Member>)
    | Plain(kind: Kind)
  datatype Member = Member(name: seq<byte>, inode: nat, node: Node)

  predicate DirectoryBits(inode: Reader.Inode) {
    && Reader.FileType(inode.mode) == Reader.TYPE_DIR
    && !Reader.HasBit(inode.flags, Reader.INDEX_BIT) && Reader.HasBit(inode.flags, Reader.EXTENTS_BIT)
  }

  /** The folder's tree maps block 0 to a block that holds its entries. */
  ghost predicate HoldsFolder(img: seq<byte>, sb: Reader.Super, inode: Reader.Inode, f: Node)
    requires f.Folder? && |inode.iblock| == 60
  {
    && DirectoryBits(inode)
    && ExtentTree.Stores(img, sb, inode.iblock, f.tree) && ExtentTree.Ordered(f.tree, 0, ExtentTree.END)
    && ExtentTree.Shallow(f.tree, ExtentTree.MAX_DEPTH)
    && ExtentTree.Reaches(f.tree, 0, f.block) && f.block < sb.blocksCount
    && DirBlock.AllWellFormed(f.dirents)
    && ExtentTree.BlockAt(img, sb, f.block) == Some(DirBlock.Encode(f.dirents))
  }

  /** The entries name the members, and apart from "." and ".." nothing else. */
  ghost predicate Names(dirents: seq<DirBlock.Dirent>, members: seq<Member>) {
    forall name: seq<byte> :: ValidName(name) ==>
      DirBlock.Find(dirents, name) ==
        var m := MemberNamed(members, name);
        if m.None? then DirBlock.Absent else DirBlock.Found(m.value.inode)
  }

  function MemberNamed(ms: seq<Member>, name: seq<byte>): Option<Member> {
    if ms == [] then None else if ms[0].name == name then Some(ms[0]) else MemberNamed(ms[1..], name)
  }

  ghost predicate Holds(img: seq<byte>, sb: Reader.Super, ino: nat, node: Node)
    requires sb.inodesPerGroup > 0 && sb.inodeSize in {128, 256}
    decreases node
  {
    var inode := Reader.ReadInode(img, sb, ino);
    && inode.Some?
    && match node
       case Plain(kind) => KindOf(inode.value.mode) == kind && Reader.FileType(inode.value.mode) != Reader.TYPE_DIR
       case Folder(tree, block, dirents, members) =>
         && HoldsFolder(img, sb, inode.value, node) && Names(dirents, members)
         && forall i :: 0 <= i < |members| ==> members[i].inode > 0 && Holds(img, sb, members[i].inode, members[i].node)
  }

  /** What the reader should answer, by the tree alone; following a file further is an error. */
  function Expected(node: Node, names: Path): Answer
    decreases |names|
  {
    if names == [] then Hit(if node.Plain? then node.kind else Other)
    else if node.Plain? then Died
    else
      var m := MemberNamed(node.members, names[0]);
      if m.None? then NoEntry else Expected(m.value.node, names[1..])
  }

  lemma {:induction false} MemberIsOneOf(ms: seq<Member>, name: seq<byte>)
    requires MemberNamed(ms, name).Some?
    ensures MemberNamed(ms, name).value in ms
  {
    if ms[0].name != name { MemberIsOneOf(ms[1..], name); }
  }

  lemma FolderLookup(img: seq<byte>, sb: Reader.Super, ino: nat, inode: Reader.Inode, f: Node, name: seq<byte>)
    requires sb.inodesPerGroup > 0 && sb.inodeSize in {128, 256} && Reader.ReadInode(img, sb, ino) == Some(inode)
    requires |inode.iblock| == 60 && f.Folder? && HoldsFolder(img, sb, inode, f)
    ensures DirLookup(img, sb, ino, name) == DirBlock.Find(f.dirents, name)
  {
    hide Reader.ReadInode, Reader.FileType, Reader.HasBit, DirBlock.Scan, DirBlock.Find, DirBlock.Encode,
      DirBlock.AllWellFormed,
      ExtentTree.Resolve, ExtentTree.Stores, ExtentTree.Ordered, ExtentTree.Shallow, ExtentTree.Reaches,
        ExtentTree.BlockAt, DirBlock.Total;
    ExtentTree.ResolveIsMap(img, sb, inode.iblock, f.tree, 0, ExtentTree.END, 0, 0, f.block);
    DirBlock.TotalOfNone();
    assert f.dirents[..0] == [] && f.dirents[0..] == f.dirents;
    DirBlock.ScanOfEncoded(f.dirents, 0, name);
  }

  lemma FileLookup(img: seq<byte>, sb: Reader.Super, ino: nat, node: Node, name: seq<byte>)
    requires sb.inodesPerGroup > 0 && sb.inodeSize in {128, 256} && node.Plain? && Holds(img, sb, ino, node)
    ensures DirLookup(img, sb, ino, name) == DirBlock.Malformed
  {
    hide Reader.ReadInode, Reader.FileType, Reader.HasBit, DirBlock.Scan, ExtentTree.Resolve, ExtentTree.BlockAt;
  }

  lemma MemberHolds(img: seq<byte>, sb: Reader.Super, ino: nat, f: Node, name: seq<byte>)
    requires sb.inodesPerGroup > 0 && sb.inodeSize in {128, 256}
    requires f.Folder? && Holds(img, sb, ino, f) && ValidName(name)
    ensures var m := MemberNamed(f.members, name);
      && DirLookup(img, sb, ino, name) == (if m.None? then DirBlock.Absent else DirBlock.Found(m.value.inode))
      && (m.Some? ==> m.value.inode > 0 && Holds(img, sb, m.value.inode, m.value.node))
  {
    hide DirLookup, HoldsFolder, ValidName, MemberNamed, DirBlock.Find, Reader.ReadInode;
    FolderLookup(img, sb, ino, Reader.ReadInode(img, sb, ino).value, f, name);
    if MemberNamed(f.members, name).Some? { MemberIsOneOf(f.members, name); }
  }

  lemma HeldKind(img: seq<byte>, sb: Reader.Super, ino: nat, node: Node)
    requires sb.inodesPerGroup > 0 && sb.inodeSize in {128, 256} && Holds(img, sb, ino, node)
    ensures Classify(img, sb, ino) == Hit(if node.Plain? then node.kind else Other)
  {
    hide Reader.ReadInode, Reader.FileType, Reader.HasBit, ExtentTree.Stores, ExtentTree.Ordered, ExtentTree.Shallow,
      ExtentTree.Reaches, ExtentTree.BlockAt, DirBlock.Encode, Names;
  }

  /** On an image that holds a tree, the reader answers for every path what the tree says. */
  lemma {:induction false} StatIsTree(img: seq<byte>, sb: Reader.Super, ino: nat, node: Node, names: Path, done: nat)
    requires sb.inodesPerGroup > 0 && sb.inodeSize in {128, 256} && Holds(img, sb, ino, node)
    requires ImageTheorem.ValidPath(names) && 0 < done + |names| <= MAX_COMPONENTS
    ensures StatFrom(img, sb, ino, names, done) == Expected(node, names)
    decreases |names|
  {
    hide Holds, DirLookup, Classify, MemberNamed;
    if names == [] {
      HeldKind(img, sb, ino, node);
    } else {
      NameIsShort(names[0]);
      if node.Plain? {
        FileLookup(img, sb, ino, node, names[0]);
      } else {
        hide ValidName;
        MemberHolds(img, sb, ino, node, names[0]);
        var m := MemberNamed(node.members, names[0]);
        if m.Some? { StatIsTree(img, sb, m.value.inode, m.value.node, names[1..], done + 1); }
      }
    }
  }

  lemma NameIsShort(name: seq<byte>)
    requires ValidName(name)
    ensures |name| <= MAX_NAME
  {
  }

  /** The whole reader on an absolute path written in the usual way. */
  lemma StatOfPath(img: seq<byte>, sb: Reader.Super, node: Node, names: Path)
    requires sb.inodesPerGroup > 0 && sb.inodeSize in {128, 256} && Holds(img, sb, ImageBytes.ROOT_INO, node)
    requires ImageTheorem.ValidPath(names) && 0 < |names| <= MAX_COMPONENTS && |Join(SLASH, names)| < MAX_PATH
    ensures Stat(img, sb, [SLASH] + Join(SLASH, names)) == Expected(node, names)
  {
    hide Holds, StatFrom, Expected, Components, Join, ValidName;
    ImageTheorem.ValidPathNames(names);
    ComponentsOfJoin(SLASH, names);
    StatIsTree(img, sb, ImageBytes.ROOT_INO, node, names, 0);
  }

  /** The images of the snapshot writer carry no extents flag: this reader refuses every path in them. */
  lemma SealedImageIsRefused(es: seq<Entry>, img: seq<byte>, root: seq<Named>, path: seq<byte>)
    requires SealedImage.Sealed(es, img) && SealedImage.InodesFit(es) && ImageTheorem.Describes(es, root)
    ensures Stat(img, ImageTheorem.Geometry(es), path) == Died
  {
    hide SealedImage.Sealed, SealedImage.InodesFit, ImageTheorem.Describes, Components, Reader.ReadInode,
      Reader.FileType,
      Reader.HasBit, ImageTheorem.InodeRead, ExtentTree.Resolve, DirBlock.Scan, ImageTheorem.Represents;
    var i := ImageTheorem.RootEntry(es, root);
    ImageTheorem.InodeIsRead(es, img, i);
    ImageTheorem.NoExtentsFlag(es, i);
  }
}
