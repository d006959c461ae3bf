/**
 * Extent-mapped files (packages/sandbox-vm-native/src/vm-image-builder.c, rd_extent_resolve):
 * walking the tree on disk, against the map from logical to physical blocks it stands for.
 */
module ExtentTree {
  import opened Prelude
  import opened ImageBytes
  import Reader = ImageReader

  const EXTENT_MAGIC: nat := 0xF30A
  const MAX_DEPTH: nat := 5

  /** No extent a node can hold ends later: its first block has 32 bits, its length 16. */
  const END: nat := 0x1_0001_0000

  // ---- The tree and its map ---------------------------------------------------------

  /** `len` blocks from the logical number `first` lie at `start` on the disk. */
  datatype Extent = Extent(first: nat, len: nat, start: nat)
  datatype Tree = Leaf(extents: seq<Extent>) | Index(branches: seq<Branch>)
  datatype Branch = Branch(first: nat, block: nat, tree: Tree)

  predicate Covers(e: Extent, logical: nat, physical: nat) {
    e.first <= logical < e.first + e.len && physical == e.start + (logical - e.first)
  }

  /** The relation the tree stands for: some extent somewhere in it covers the block. */
  predicate Maps(t: Tree, logical: nat, physical: nat)
    decreases t
  {
    match t
    case Leaf(es) => exists i :: 0 <= i < |es| && Covers(es[i], logical, physical)
    case Index(bs) => exists i :: 0 <= i < |bs| && Maps(bs[i].tree, logical, physical)
  }

  /** What the walk makes of that map: an extent that ends at block 2^32 or later is lost to it. */
  predicate Reaches(t: Tree, logical: nat, physical: nat)
    decreases t
  {
    match t
    case Leaf(es) => exists i :: 0 <= i < |es| && Covers(es[i], logical, physical) && Ends(es[i])
    case Index(bs) => exists i :: 0 <= i < |bs| && Reaches(bs[i].tree, logical, physical)
  }

  /** The end of the extent is a 32-bit number. */
  predicate Ends(e: Extent) { e.first + e.len < 0x1_0000_0000 }

  /** At most `levels` index levels lie above any leaf. */
  predicate Shallow(t: Tree, levels: int)
    decreases t
  {
    match t
    case Leaf(_) => levels >= 0
    case Index(bs) => levels > 0 && forall i :: 0 <= i < |bs| ==> Shallow(bs[i].tree, levels - 1)
  }

  /** Extents of a leaf are disjoint; keys ascend, and each branch stays within its keys. */
  ghost predicate Ordered(t: Tree, lo: nat, hi: nat)
    decreases t
  {
    match t
    case Leaf(es) =>
      && (forall i :: 0 <= i < |es| ==> lo <= es[i].first && es[i].first + es[i].len <= hi)
      && (forall i, j :: 0 <= i < j < |es| ==> es[i].first + es[i].len <= es[j].first)
    case Index(bs) =>
      && (forall i, j :: 0 <= i < j < |bs| ==> bs[i].first < bs[j].first)
      && forall i :: 0 <= i < |bs| ==> lo <= bs[i].first <= hi && Ordered(bs[i].tree, bs[i].first, NextKey(bs, i, hi))
  }

  function NextKey(bs: seq<Branch>, i: nat, hi: nat): nat
    requires i < |bs|
  {
    if i + 1 < |bs| then bs[i + 1].first else hi
  }

  // ---- The tree on disk -------------------------------------------------------------

  /** Header fields of a node; None when the source dies on it. */
  datatype Header = Header(entries: nat, depth: nat)

  function ReadHeader(node: seq<byte>): (h: Option<Header>)
    ensures h.Some? ==> 12 + 12 * h.value.entries <= |node|
  {
    if |node| < 12 then None
    else if U16(node, 0) != EXTENT_MAGIC then None
    else if 12 + U16(node, 2) * 12 > |node| then None
    else Some(Header(U16(node, 2), U16(node, 6)))
  }

  function EntryAt(i: nat): nat { 12 + 12 * i }

  predicate HoldsExtent(node: seq<byte>, i: nat, e: Extent)
    requires EntryAt(i) + 12 <= |node|
  {
    U32(node, EntryAt(i)) == e.first && U16(node, EntryAt(i) + 4) == e.len && U32(node, EntryAt(i) + 8) == e.start
  }

  predicate HoldsBranch(node: seq<byte>, i: nat, b: Branch)
    requires EntryAt(i) + 12 <= |node|
  {
    U32(node, EntryAt(i)) == b.first && U32(node, EntryAt(i) + 4) == b.block
  }

  /** The node holds the tree, its lower levels being blocks of the image. */
  ghost predicate Stores(img: seq<byte>, sb: Reader.Super, node: seq<byte>, t: Tree)
    decreases t
  {
    var h := ReadHeader(node);
    && h.Some?
    && match t
       case Leaf(es) =>
         && h.value == Header(|es|, 0)
         && forall i :: 0 <= i < |es| ==> HoldsExtent(node, i, es[i])
       case Index(bs) =>
         && h.value.entries == |bs| && h.value.depth > 0
         && forall i :: 0 <= i < |bs| ==>
           && HoldsBranch(node, i, bs[i])
           && bs[i].block < sb.blocksCount
           && BlockAt(img, sb, bs[i].block).Some?
           && Stores(img, sb, BlockAt(img, sb, bs[i].block).value, bs[i].tree)
  }

  function BlockAt(img: seq<byte>, sb: Reader.Super, b: nat): Option<seq<byte>> {
    Reader.ReadAt(img, Reader.Address(b, sb.blockSize, 0, 0), sb.blockSize)
  }

  // ---- The walk ----------------------------------------------------------------------

  /** Whether entry `i` of a leaf is taken: the end of the extent is computed in 32 bits. */
  predicate Hit(node: seq<byte>, i: nat, logical: nat)
    requires EntryAt(i) + 12 <= |node|
  {
    var first, len := U32(node, EntryAt(i)), U16(node, EntryAt(i) + 4);
    len != 0 && first <= logical < (first + len) % 0x1_0000_0000
  }

  /** The first extent taken from entry `i` on. */
  function LeafFrom(node: seq<byte>, entries: nat, i: nat, logical: nat): Option<nat>
    requires 12 + 12 * entries <= |node|
    decreases entries - i
  {
    if i >= entries then None
    else if Hit(node, i, logical) then Some(U32(node, EntryAt(i) + 8) + (logical - U32(node, EntryAt(i))))
    else LeafFrom(node, entries, i + 1, logical)
  }

  /** Whether entry `i` of an index node is the last one whose key is not above `logical`. */
  predicate Chosen(node: seq<byte>, entries: nat, i: nat, logical: nat)
    requires i < entries && 12 + 12 * entries <= |node|
  {
    U32(node, EntryAt(i)) <= logical && (i + 1 == entries || U32(node, EntryAt(i + 1)) > logical)
  }

  function IndexFrom(node: seq<byte>, entries: nat, i: nat, logical: nat): Option<nat>
    requires 12 + 12 * entries <= |node|
    decreases entries - i
  {
    if i >= entries then None
    else if Chosen(node, entries, i, logical) then Some(U32(node, EntryAt(i) + 4))
    else IndexFrom(node, entries, i + 1, logical)
  }

  /** None where the source dies. */
  function Resolve(img: seq<byte>, sb: Reader.Super, node: seq<byte>, logical: nat, depth: nat): Option<nat>
    decreases MAX_DEPTH + 1 - depth
  {
    if depth > MAX_DEPTH then None
    else
      var h := ReadHeader(node);
      if h.None? then None
      else if h.value.depth == 0 then InRange(LeafFrom(node, h.value.entries, 0, logical), sb.blocksCount)
      else
        var next := InRange(IndexFrom(node, h.value.entries, 0, logical), sb.blocksCount);
        if next.None? then None
        else
          var child := BlockAt(img, sb, next.value);
          if child.None? then None else Resolve(img, sb, child.value, logical, depth + 1)
  }

  /** Block numbers outside the image are refused. */
  function InRange(b: Option<nat>, count: nat): Option<nat> {
    if b.Some? && b.value < count then b else None
  }

  // ---- The loops of rd_extent_resolve --------------------------------------------------

  method SearchLeaf(node: array<byte>, entries: nat, logical: nat) returns (r: Option<nat>)
    requires 12 + 12 * entries <= node.Length
    ensures r == LeafFrom(node[..], entries, 0, logical)
  {
    hide Hit, U32, U16;
    var i := 0;
    while i < entries
      invariant i <= entries && LeafFrom(node[..], entries, 0, logical) == LeafFrom(node[..], entries, i, logical)
    {
      if Hit(node[..], i, logical) {
        return Some(U32(node[..], EntryAt(i) + 8) + (logical - U32(node[..], EntryAt(i))));
      }
      i := i + 1;
    }
    return None;
  }

  method SearchIndex(node: array<byte>, entries: nat, logical: nat) returns (r: Option<nat>)
    requires 12 + 12 * entries <= node.Length
    ensures r == IndexFrom(node[..], entries, 0, logical)
  {
    hide Chosen, U32, U16;
    var i := 0;
    while i < entries
      invariant i <= entries && IndexFrom(node[..], entries, 0, logical) == IndexFrom(node[..], entries, i, logical)
    {
      if Chosen(node[..], entries, i, logical) { return Some(U32(node[..], EntryAt(i) + 4)); }
      i := i + 1;
    }
    return None;
  }

  method ExtentResolve(img: seq<byte>, sb: Reader.Super, node: array<byte>, logical: nat,
                       depth: nat) returns (r: Option<nat>)
    ensures r == Resolve(img, sb, node[..], logical, depth)
    decreases MAX_DEPTH + 1 - depth
  {
    hide LeafFrom, IndexFrom, BlockAt, ReadHeader;
    if depth > MAX_DEPTH { return None; }
    var h := ReadHeader(node[..]);
    if h.None? { return None; }
    if h.value.depth == 0 {
      r := SearchLeaf(node, h.value.entries, logical);
      return InRange(r, sb.blocksCount);
    }
    var next := SearchIndex(node, h.value.entries, logical);
    next := InRange(next, sb.blocksCount);
    if next.None? { return None; }
    var raw := BlockAt(img, sb, next.value);
    if raw.None? { return None; }
    var child := new byte[|raw.value|](k requires 0 <= k < |raw.value| => raw.value[k]);
    assert child[..] == raw.value;
    r := ExtentResolve(img, sb, child, logical, depth + 1);
  }

  // ---- Leaves ---------------------------------------------------------------------------

  /** The wrapped sum of an extent that ends too late is below its first block, so nothing hits it. */
  lemma HitIsCovered(node: seq<byte>, i: nat, e: Extent, logical: nat)
    requires EntryAt(i) + 12 <= |node| && HoldsExtent(node, i, e)
    ensures Hit(node, i, logical) <==> e.first <= logical < e.first + e.len && Ends(e)
    ensures Hit(node, i, logical) ==> Covers(e, logical, U32(node, EntryAt(i) + 8) + (logical - U32(node, EntryAt(i))))
  {
    U32Fits(node, EntryAt(i));
    U16Fits(node, EntryAt(i) + 4);
    hide U32, U16;
  }

  lemma U32Fits(b: seq<byte>, o: nat)
    requires o + 4 <= |b|
    ensures U32(b, o) < 0x1_0000_0000
  {
  }

  lemma U16Fits(b: seq<byte>, o: nat)
    requires o + 2 <= |b|
    ensures U16(b, o) < 0x1_0000
  {
  }

  lemma {:induction false} LeafFromIsMap(node: seq<byte>, es: seq<Extent>, i: nat, logical: nat, physical: nat)
    requires 12 + 12 * |es| <= |node| && i <= |es|
    requires forall k :: 0 <= k < |es| ==> HoldsExtent(node, k, es[k])
    requires forall j, k :: 0 <= j < k < |es| ==> es[j].first + es[j].len <= es[k].first
    ensures LeafFrom(node, |es|, i, logical) == Some(physical)
      <==> exists k :: i <= k < |es| && Covers(es[k], logical, physical) && Ends(es[k])
    decreases |es| - i
  {
    hide Hit, U32, U16, HoldsExtent, Ends;
    if i < |es| {
      HitIsCovered(node, i, es[i], logical);
      LeafFromIsMap(node, es, i + 1, logical, physical);
      if Hit(node, i, logical) {
        assert forall k :: i < k < |es| ==> !Covers(es[k], logical, physical);
      }
    }
  }

  // ---- Index nodes ------------------------------------------------------------------------

  lemma HeldKey(node: seq<byte>, i: nat, b: Branch)
    requires EntryAt(i) + 12 <= |node| && HoldsBranch(node, i, b)
    ensures U32(node, EntryAt(i)) == b.first && U32(node, EntryAt(i) + 4) == b.block
  {
    hide U32;
  }

  predicate KeyChosen(bs: seq<Branch>, k: nat, logical: nat)
    requires k < |bs|
  {
    bs[k].first <= logical && (k + 1 < |bs| ==> logical < bs[k + 1].first)
  }

  /** The search chooses the last key not above the block; |bs| stands for none. */
  lemma {:induction false} IndexFromChooses(node: seq<byte>, bs: seq<Branch>, i: nat, logical: nat) returns (k: nat)
    requires 12 + 12 * |bs| <= |node| && i <= |bs|
    requires forall j :: 0 <= j < |bs| ==> HoldsBranch(node, j, bs[j])
    ensures i <= k <= |bs|
    ensures k < |bs| ==> IndexFrom(node, |bs|, i, logical) == Some(bs[k].block) && KeyChosen(bs, k, logical)
    ensures k == |bs| ==> IndexFrom(node, |bs|, i, logical) == None && forall j :: i <= j < |bs| ==>
      logical < bs[j].first
    decreases |bs| - i
  {
    hide U32, HoldsBranch;
    k := i;
    if i < |bs| {
      HeldKey(node, i, bs[i]);
      if i + 1 < |bs| { HeldKey(node, i + 1, bs[i + 1]); }
      if !Chosen(node, |bs|, i, logical) { k := IndexFromChooses(node, bs, i + 1, logical); }
    }
  }

  /** A tree maps nothing outside its keys. */
  lemma {:induction false} MapsWithin(t: Tree, lo: nat, hi: nat, logical: nat, physical: nat)
    requires Ordered(t, lo, hi) && Maps(t, logical, physical)
    ensures lo <= logical < hi
    decreases t
  {
    if t.Index? {
      var i :| 0 <= i < |t.branches| && Maps(t.branches[i].tree, logical, physical);
      var b := t.branches[i];
      MapsWithin(b.tree, b.first, NextKey(t.branches, i, hi), logical, physical);
    }
  }

  /** What the walk reaches is on the map; all of the map is reached where no block 2^32 is in sight. */
  lemma {:induction false} ReachesIsMapped(t: Tree, lo: nat, hi: nat, logical: nat, physical: nat)
    requires Ordered(t, lo, hi)
    ensures Reaches(t, logical, physical) ==> Maps(t, logical, physical)
    ensures hi < 0x1_0000_0000 && Maps(t, logical, physical) ==> Reaches(t, logical, physical)
    decreases t
  {
    if t.Index? {
      var bs := t.branches;
      forall i | 0 <= i < |bs|
        ensures Reaches(bs[i].tree, logical, physical) ==> Maps(bs[i].tree, logical, physical)
        ensures hi < 0x1_0000_0000 && Maps(bs[i].tree, logical, physical) ==> Reaches(bs[i].tree, logical, physical)
      {
        ReachesIsMapped(bs[i].tree, bs[i].first, NextKey(bs, i, hi), logical, physical);
      }
    }
  }

  lemma ChildOrdered(bs: seq<Branch>, lo: nat, hi: nat, j: nat)
    requires Ordered(Index(bs), lo, hi) && j < |bs|
    ensures Ordered(bs[j].tree, bs[j].first, NextKey(bs, j, hi))
  {
  }

  lemma KeysAscend(bs: seq<Branch>, lo: nat, hi: nat, i: nat, j: nat)
    requires Ordered(Index(bs), lo, hi) && i <= j < |bs|
    ensures bs[i].first <= bs[j].first
  {
  }

  /** The keys of a branch that was not chosen keep away from the block. */
  lemma OutsideKeys(bs: seq<Branch>, lo: nat, hi: nat, k: nat, j: nat, logical: nat)
    requires Ordered(Index(bs), lo, hi) && k <= |bs| && j < |bs| && j != k
    requires k < |bs| ==> KeyChosen(bs, k, logical)
    requires k == |bs| ==> logical < bs[j].first
    ensures !(bs[j].first <= logical < NextKey(bs, j, hi))
  {
    if j < k < |bs| { KeysAscend(bs, lo, hi, j + 1, k); }
    if k < j { KeysAscend(bs, lo, hi, k + 1, j); }
    hide Ordered;
  }

  lemma OtherDoesNotReach(bs: seq<Branch>, lo: nat, hi: nat, k: nat, j: nat, logical: nat, physical: nat)
    requires Ordered(Index(bs), lo, hi) && k <= |bs| && j < |bs| && j != k
    requires k < |bs| ==> KeyChosen(bs, k, logical)
    requires k == |bs| ==> logical < bs[j].first
    ensures !Reaches(bs[j].tree, logical, physical)
  {
    hide *;
    ChildOrdered(bs, lo, hi, j);
    OutsideKeys(bs, lo, hi, k, j, logical);
    if Reaches(bs[j].tree, logical, physical) {
      ReachesIsMapped(bs[j].tree, bs[j].first, NextKey(bs, j, hi), logical, physical);
      MapsWithin(bs[j].tree, bs[j].first, NextKey(bs, j, hi), logical, physical);
    }
  }

  /** Only the chosen branch can hold the block. */
  lemma OnlyChosenReaches(bs: seq<Branch>, lo: nat, hi: nat, k: nat, logical: nat, physical: nat)
    requires Ordered(Index(bs), lo, hi) && k <= |bs|
    requires k < |bs| ==> KeyChosen(bs, k, logical)
    requires k == |bs| ==> forall j :: 0 <= j < |bs| ==> logical < bs[j].first
    ensures Reaches(Index(bs), logical, physical) <==> k < |bs| && Reaches(bs[k].tree, logical, physical)
  {
    forall j | 0 <= j < |bs| && j != k ensures !Reaches(bs[j].tree, logical, physical) {
      OtherDoesNotReach(bs, lo, hi, k, j, logical, physical);
    }
    hide Ordered, KeyChosen;
    var t := Index(bs);
    assert Reaches(t, logical, physical) <==> exists i :: 0 <= i < |bs| && Reaches(bs[i].tree, logical, physical);
  }

  // ---- The theorem --------------------------------------------------------------------------

  lemma LeafResolves(img: seq<byte>, sb: Reader.Super, node: seq<byte>, es: seq<Extent>, lo: nat, hi: nat,
                     logical: nat, depth: nat, physical: nat)
    requires Stores(img, sb, node, Leaf(es)) && Ordered(Leaf(es), lo, hi) && depth <= MAX_DEPTH
    ensures Resolve(img, sb, node, logical, depth) == Some(physical)
      <==> Reaches(Leaf(es), logical, physical) && physical < sb.blocksCount
  {
    hide LeafFrom, ReadHeader, HoldsExtent, Covers, Ends;
    LeafFromIsMap(node, es, 0, logical, physical);
  }

  /** One index level down. */
  lemma IndexResolves(img: seq<byte>, sb: Reader.Super, node: seq<byte>, bs: seq<Branch>, logical: nat, depth: nat)
    returns (k: nat)
    requires Stores(img, sb, node, Index(bs)) && depth <= MAX_DEPTH
    ensures k <= |bs|
    ensures k < |bs| ==>
      var child := BlockAt(img, sb, bs[k].block);
      && KeyChosen(bs, k, logical) && child.Some? && Stores(img, sb, child.value, bs[k].tree)
      && Resolve(img, sb, node, logical, depth) == Resolve(img, sb, child.value, logical, depth + 1)
    ensures k == |bs| ==> Resolve(img, sb, node, logical, depth) == None && forall j :: 0 <= j < |bs| ==>
      logical < bs[j].first
  {
    hide IndexFrom, ReadHeader, HoldsBranch, BlockAt;
    k := IndexFromChooses(node, bs, 0, logical);
  }

  /**
   * For every stored tree with ordered keys and at most as deep as ext4 allows, the walk returns
   * exactly the block that some extent ending below 2^32 gives, and dies where there is none or
   * it lies outside the image.
   */
  lemma {:induction false} ResolveIsMap(img: seq<byte>, sb: Reader.Super, node: seq<byte>, t: Tree, lo: nat, hi: nat,
                                        logical: nat, depth: nat, physical: nat)
    requires Stores(img, sb, node, t) && Ordered(t, lo, hi) && Shallow(t, MAX_DEPTH - depth)
    ensures Resolve(img, sb, node, logical, depth) == Some(physical)
      <==> Reaches(t, logical, physical) && physical < sb.blocksCount
    decreases t
  {
    hide Resolve, Stores;
    match t
    case Leaf(es) => LeafResolves(img, sb, node, es, lo, hi, logical, depth, physical);
    case Index(bs) =>
      var k := IndexResolves(img, sb, node, bs, logical, depth);
      OnlyChosenReaches(bs, lo, hi, k, logical, physical);
      if k < |bs| {
        var child := BlockAt(img, sb, bs[k].block).value;
        ResolveIsMap(img, sb, child, bs[k].tree, bs[k].first, NextKey(bs, k, hi), logical, depth + 1, physical);
      }
  }

  lemma KeysApart(bs: seq<Branch>, lo: nat, hi: nat, i: nat, j: nat, logical: nat, p: nat, q: nat)
    requires Ordered(Index(bs), lo, hi) && i < |bs| && j < |bs|
    requires Maps(bs[i].tree, logical, p) && Maps(bs[j].tree, logical, q)
    ensures i == j
  {
    MapsWithin(bs[i].tree, bs[i].first, NextKey(bs, i, hi), logical, p);
    MapsWithin(bs[j].tree, bs[j].first, NextKey(bs, j, hi), logical, q);
    hide Maps;
  }

  /** An ordered tree maps a block to one place at most. */
  lemma {:induction false} MapsIsFunctional(t: Tree, lo: nat, hi: nat, logical: nat, p: nat, q: nat)
    requires Ordered(t, lo, hi) && Maps(t, logical, p) && Maps(t, logical, q)
    ensures p == q
    decreases t
  {
    match t
    case Leaf(es) =>
      var i :| 0 <= i < |es| && Covers(es[i], logical, p);
      var j :| 0 <= j < |es| && Covers(es[j], logical, q);
      assert i == j;
    case Index(bs) =>
      var i :| 0 <= i < |bs| && Maps(bs[i].tree, logical, p);
      var j :| 0 <= j < |bs| && Maps(bs[j].tree, logical, q);
      KeysApart(bs, lo, hi, i, j, logical, p, q);
      MapsIsFunctional(bs[i].tree, bs[i].first, NextKey(bs, i, hi), logical, p, q);
  }

  /** A node whose one extent is the last block there can be. */
  function LastBlockNode(start: nat): (node: seq<byte>)
    ensures |node| == 24
  {
    (Le16(EXTENT_MAGIC) + Le16(1) + Le16(4) + Le16(0) + Zeros(4))
      + (Le32(0xFFFF_FFFF) + Le16(1) + Le16(0) + Le32(start))
  }

  lemma LastBlockFields(start: nat)
    requires start <= 0xFFFF_FFFF
    ensures ReadHeader(LastBlockNode(start)) == Some(Header(1, 0))
    ensures HoldsExtent(LastBlockNode(start), 0, Extent(0xFFFF_FFFF, 1, start))
  {
    hide U16, U32, Le16, Le32;
    var node := LastBlockNode(start);
    assert node[0..2] == Le16(EXTENT_MAGIC);
    assert node[2..4] == Le16(1);
    assert node[6..8] == Le16(0);
    assert node[12..16] == Le32(0xFFFF_FFFF);
    assert node[16..18] == Le16(1);
    assert node[20..24] == Le32(start);
    ReadBack16(node, 0, EXTENT_MAGIC);
    ReadBack16(node, 2, 1);
    ReadBack16(node, 6, 0);
    ReadBack32(node, 12, 0xFFFF_FFFF);
    ReadBack16(node, 16, 1);
    ReadBack32(node, 20, start);
  }

  /** Such extents can be stored: the last block of one ending at 2^32 is on the map and the walk dies on it. */
  lemma LastBlockIsLost(img: seq<byte>, sb: Reader.Super, start: nat)
    requires start < sb.blocksCount <= 0xFFFF_FFFF
    ensures var t, node := Leaf([Extent(0xFFFF_FFFF, 1, start)]), LastBlockNode(start);
      && Stores(img, sb, node, t) && Ordered(t, 0, 0x1_0000_0000) && Maps(t, 0xFFFF_FFFF, start)
      && Resolve(img, sb, node, 0xFFFF_FFFF, 0) == None
  {
    hide LastBlockNode, ReadHeader, U16, U32;
    LastBlockFields(start);
    var e, node := Extent(0xFFFF_FFFF, 1, start), LastBlockNode(start);
    assert Covers([e][0], 0xFFFF_FFFF, start);
    HitIsCovered(node, 0, e, 0xFFFF_FFFF);
    assert LeafFrom(node, 1, 1, 0xFFFF_FFFF) == None;
  }
}
