/** A whole volume around a written tree: volume header, header node, and the leaves in a row. */
module VolumeWriter {
  import opened Wrappers
  import opened Sequences
  import opened ByteOrder
  import opened BTree
  import opened TreeWriter

  // ---- the volume header -----------------------------------------------------------

  /** The part of a fork's data that locates a tree. */
  datatype TreeFork = TreeFork(totalBlocks: u32, startBlock: u32)

  datatype VolumeHeader = VolumeHeader(
    signature: u16, modified: u32, blockSize: u32, extents: TreeFork, catalog: TreeFork, attributes: TreeFork)

  const HEADER_END: nat := 1536
  const HEADER_RECORD_END: nat := 34

  function TreeForkBytes(fork: TreeFork): (b: Bytes)
    ensures |b| == 8
  {
    ToBe32(fork.totalBlocks) + ToBe32(fork.startBlock)
  }

  /** Signature at 1024, last write at 1044, block size at 1064; the block count and first
      start block of the extents fork at 1228, of the catalog at 1308, of the attributes
      at 1388. */
  function HeaderBytes(h: VolumeHeader): (b: Bytes)
    ensures |b| == HEADER_END
  {
    Zeros(1024) + ToBe16(h.signature) + Zeros(18) + ToBe32(h.modified) + Zeros(16) + ToBe32(h.blockSize)
    + Zeros(160) + TreeForkBytes(h.extents) + Zeros(72) + TreeForkBytes(h.catalog) + Zeros(72)
    + TreeForkBytes(h.attributes) + Zeros(140)
  }

  /** The volume carries the signature and the block size, and at `fork` a tree's fork. */
  ghost predicate HoldsFork(v: Volume, signature: u16, blockSize: u32, at: nat, fork: TreeFork) {
    && Holds(v, 1024, ToBe16(signature)) && Holds(v, 1064, ToBe32(blockSize))
    && Holds(v, at, ToBe32(fork.totalBlocks)) && Holds(v, at + 4, ToBe32(fork.startBlock))
  }

  /** Where such a volume has that tree: at the start block, if the fork has blocks, the
      tree's header record lies inside, and its nodes are long enough for a descriptor. */
  ghost function TreeOf(v: Volume, signature: u16, blockSize: u32, fork: TreeFork): Option<CatalogLoc> {
    var base: nat := fork.startBlock * blockSize;
    if signature !in {0x482B, 0x4858} || blockSize == 0 || fork.totalBlocks == 0 || base + 34 > |v| then None
    else if Be16(v, base + 32) < 14 then None
    else Some(CatalogLoc(base, Be16(v, base + 32), Be32(v, base + 24), blockSize))
  }

  lemma {:induction false} LocatesFork(
    v: Volume, forkOffset: usize, signature: u16, blockSize: u32, fork: TreeFork)
    requires forkOffset in {192, 272, 352}
    requires HoldsFork(v, signature, blockSize, 1024 + forkOffset + 12, fork)
    ensures LocateBtree(v, forkOffset) == TreeOf(v, signature, blockSize, fork)
  {
    hide Be16, Be32, HoldsFork;
    ForkFields(v, 1024 + forkOffset + 12, signature, blockSize, fork);
    ProductFits(fork.startBlock, blockSize);
  }

  lemma {:induction false} ForkFields(v: Volume, at: nat, signature: u16, blockSize: u32, fork: TreeFork)
    requires HoldsFork(v, signature, blockSize, at, fork)
    ensures 1068 <= |v| && at + 8 <= |v|
    ensures Be16(v, 1024) == signature && Be32(v, 1064) == blockSize
    ensures Be32(v, at) == fork.totalBlocks && Be32(v, at + 4) == fork.startBlock
  {
    hide Be16, Be32;
    ReadBe16(v, 1024, signature);
    ReadBe32(v, 1064, blockSize);
    ReadBe32(v, at, fork.totalBlocks);
    ReadBe32(v, at + 4, fork.startBlock);
  }

  /** Locating the three trees, for every volume: each from its own fork of the volume
      header, or not at all. A volume too short for a fork has no such tree. */
  lemma {:induction false} TreesAreLocated(v: Volume, signature: u16, blockSize: u32, fork: TreeFork)
    ensures HoldsFork(v, signature, blockSize, 1228, fork) ==> LocateExtents(v) == TreeOf(v, signature, blockSize, fork)
    ensures HoldsFork(v, signature, blockSize, 1308, fork) ==> LocateCatalog(v) == TreeOf(v, signature, blockSize, fork)
    ensures HoldsFork(v, signature, blockSize, 1388, fork) ==>
      LocateAttributes(v) == TreeOf(v, signature, blockSize, fork)
    ensures |v| < 1236 ==> LocateExtents(v) == None
    ensures |v| < 1316 ==> LocateCatalog(v) == None
    ensures |v| < 1396 ==> LocateAttributes(v) == None
  {
    hide HoldsFork, TreeOf;
    if HoldsFork(v, signature, blockSize, 1228, fork) {
      LocatesFork(v, 192, signature, blockSize, fork);
    }
    if HoldsFork(v, signature, blockSize, 1308, fork) {
      LocatesFork(v, 272, signature, blockSize, fork);
    }
    if HoldsFork(v, signature, blockSize, 1388, fork) {
      LocatesFork(v, 352, signature, blockSize, fork);
    }
  }

  lemma {:induction false} HeaderHolds(h: VolumeHeader, after: Bytes)
    ensures var v := HeaderBytes(h) + after;
      && Holds(v, 1024, ToBe16(h.signature)) && Holds(v, 1044, ToBe32(h.modified))
      && Holds(v, 1064, ToBe32(h.blockSize))
      && Holds(v, 1228, TreeForkBytes(h.extents)) && Holds(v, 1308, TreeForkBytes(h.catalog))
      && Holds(v, 1388, TreeForkBytes(h.attributes))
  {
    hide TreeForkBytes;
    var v := HeaderBytes(h) + after;
    assert v[1024..1026] == ToBe16(h.signature);
    assert v[1044..1048] == ToBe32(h.modified);
    assert v[1064..1068] == ToBe32(h.blockSize);
    assert v[1228..1236] == TreeForkBytes(h.extents);
    assert v[1308..1316] == TreeForkBytes(h.catalog);
    assert v[1388..1396] == TreeForkBytes(h.attributes);
  }

  lemma {:induction false} HoldsBoth(v: Bytes, at: nat, fork: TreeFork)
    requires Holds(v, at, TreeForkBytes(fork))
    ensures Holds(v, at, ToBe32(fork.totalBlocks)) && Holds(v, at + 4, ToBe32(fork.startBlock))
  {
    var b := TreeForkBytes(fork);
    assert v[at..at + 8][..4] == v[at..at + 4] && v[at..at + 8][4..] == v[at + 4..at + 8];
    assert b[..4] == ToBe32(fork.totalBlocks) && b[4..] == ToBe32(fork.startBlock);
  }

  /** A written header locates every tree it describes, whatever follows it. */
  lemma {:induction false} HeadersLocate(h: VolumeHeader, after: Bytes)
    requires |HeaderBytes(h) + after| <= ISIZE_MAX
    ensures var v := HeaderBytes(h) + after;
      && LocateExtents(v) == TreeOf(v, h.signature, h.blockSize, h.extents)
      && LocateCatalog(v) == TreeOf(v, h.signature, h.blockSize, h.catalog)
      && LocateAttributes(v) == TreeOf(v, h.signature, h.blockSize, h.attributes)
  {
    hide HeaderBytes, Holds, TreeForkBytes, TreeOf, LocateExtents, LocateCatalog, LocateAttributes;
    var v := HeaderBytes(h) + after;
    HeaderHolds(h, after);
    HoldsBoth(v, 1228, h.extents);
    HoldsBoth(v, 1308, h.catalog);
    HoldsBoth(v, 1388, h.attributes);
    TreesAreLocated(v, h.signature, h.blockSize, h.extents);
    TreesAreLocated(v, h.signature, h.blockSize, h.catalog);
    TreesAreLocated(v, h.signature, h.blockSize, h.attributes);
  }

  // ---- a tree behind it ----------------------------------------------------------------

  /** Node 0: the tree's header record carries the first leaf's number and the node size. */
  function HeaderNode(firstLeaf: u32, nodeSize: u16): (b: Bytes)
    requires HEADER_RECORD_END <= nodeSize
    ensures |b| == nodeSize
  {
    Zeros(8) + [1] + Zeros(15) + ToBe32(firstLeaf) + Zeros(4) + ToBe16(nodeSize) + Zeros(nodeSize - HEADER_RECORD_END)
  }

  /** Leaf `i` is node `i + 1`. */
  function NodeNumbers(n: nat): (nodes: seq<u32>)
    requires n < U32_MAX
    ensures |nodes| == n && forall i :: 0 <= i < n ==> nodes[i] == i + 1
  {
    seq(n, i requires 0 <= i < n => i + 1)
  }

  function FirstLeaf(n: nat): u32
    requires n < U32_MAX
  {
    LinkAfter(NodeNumbers(n), 0)
  }

  function LeafOf<T>(bytes: T -> Bytes, leaves: seq<seq<T>>, nodeSize: u16, i: nat): (nd: Bytes)
    requires AllFit(bytes, leaves, nodeSize) && i < |leaves| < U32_MAX
    ensures |nd| == nodeSize
  {
    LeafNodeBytes(Encoded(bytes, leaves[i]), LinkAfter(NodeNumbers(|leaves|), i + 1), i, nodeSize)
  }

  function Leaves<T>(bytes: T -> Bytes, leaves: seq<seq<T>>, nodeSize: u16): (nodes: seq<Bytes>)
    requires AllFit(bytes, leaves, nodeSize) && |leaves| < U32_MAX
    ensures |nodes| == |leaves|
    ensures forall i :: 0 <= i < |leaves| ==> nodes[i] == LeafOf(bytes, leaves, nodeSize, i)
  {
    seq(|leaves|, i requires 0 <= i < |leaves| => LeafOf(bytes, leaves, nodeSize, i))
  }

  /** What comes before the leaves: the volume header, any bytes up to the catalog's start
      block, and the catalog's header node. */
  ghost function Front(h: VolumeHeader, gap: Bytes, n: nat, nodeSize: u16): Bytes
    requires HEADER_RECORD_END <= nodeSize && n < U32_MAX
  {
    HeaderBytes(h) + (gap + HeaderNode(FirstLeaf(n), nodeSize))
  }

  /** `content`, behind the tree, is whatever else the volume holds. */
  ghost function VolumeBytes<T>(
    h: VolumeHeader, gap: Bytes, bytes: T -> Bytes, leaves: seq<seq<T>>, nodeSize: u16, content: Bytes): Bytes
    requires HEADER_RECORD_END <= nodeSize && AllFit(bytes, leaves, nodeSize) && |leaves| < U32_MAX
  {
    Front(h, gap, |leaves|, nodeSize) + (Flatten(Leaves(bytes, leaves, nodeSize)) + content)
  }

  /** Everything that makes a written volume one that the reader can be handed: either
      signature, any block size, and a catalog behind the volume header where its fork
      says. */
  ghost predicate Writable<T>(
    h: VolumeHeader, gap: Bytes, bytes: T -> Bytes, leaves: seq<seq<T>>, nodeSize: u16, content: Bytes)
  {
    && h.signature in {0x482B, 0x4858} && h.blockSize != 0 && h.catalog.totalBlocks != 0
    && h.catalog.startBlock * h.blockSize == HEADER_END + |gap|
    && HEADER_RECORD_END <= nodeSize && AllFit(bytes, leaves, nodeSize) && |leaves| <= 65536
    && |VolumeBytes(h, gap, bytes, leaves, nodeSize, content)| <= ISIZE_MAX
  }

  lemma {:induction false} UniformFlatten(xss: seq<Bytes>, c: nat, i: nat)
    requires i <= |xss| && forall j :: 0 <= j < |xss| ==> |xss[j]| == c
    ensures |Flatten(xss[..i])| == i * c
  {
    if i > 0 {
      UniformFlatten(xss, c, i - 1);
      FlattenTake(xss, i - 1);
      assert i * c == (i - 1) * c + c;
    }
  }

  /** A volume is small enough unless its gap or its content is not. */
  lemma {:induction false} VolumeSize<T>(
    h: VolumeHeader, gap: Bytes, bytes: T -> Bytes, leaves: seq<seq<T>>, nodeSize: u16, content: Bytes)
    requires HEADER_RECORD_END <= nodeSize && AllFit(bytes, leaves, nodeSize) && |leaves| <= 65536
    ensures |VolumeBytes(h, gap, bytes, leaves, nodeSize, content)|
         == HEADER_END + |gap| + nodeSize + |leaves| * nodeSize + |content|
  {
    hide HeaderNode, LeafOf;
    var nodes := Leaves(bytes, leaves, nodeSize);
    UniformFlatten(nodes, nodeSize, |nodes|);
    assert nodes[..|nodes|] == nodes;
  }

  lemma {:induction false} HeaderNodeReads(before: Bytes, firstLeaf: u32, nodeSize: u16, after: Bytes)
    requires HEADER_RECORD_END <= nodeSize
    ensures var v := before + HeaderNode(firstLeaf, nodeSize) + after;
      Be32(v, |before| + 24) == firstLeaf && Be16(v, |before| + 32) == nodeSize
  {
    var node := HeaderNode(firstLeaf, nodeSize);
    var v := before + node + after;
    assert node[24..28] == ToBe32(firstLeaf);
    HoldsInside(before, node, after, 24, ToBe32(firstLeaf));
    ReadBe32(v, |before| + 24, firstLeaf);
    assert node[32..34] == ToBe16(nodeSize);
    HoldsInside(before, node, after, 32, ToBe16(nodeSize));
    ReadBe16(v, |before| + 32, nodeSize);
  }

  lemma {:induction false} AppendIsAssociative(a: Bytes, b: Bytes, c: Bytes)
    ensures (a + b) + c == a + (b + c)
  {
  }

  /** The written volume, as the reader locates its catalog. */
  function WrittenLoc(h: VolumeHeader, n: nat, nodeSize: u16): CatalogLoc
    requires n < U32_MAX
  {
    ProductFits(h.catalog.startBlock, h.blockSize);
    CatalogLoc(h.catalog.startBlock * h.blockSize, nodeSize, FirstLeaf(n), h.blockSize)
  }

  lemma {:induction false} CatalogIsLocated<T>(
    h: VolumeHeader, gap: Bytes, bytes: T -> Bytes, leaves: seq<seq<T>>, nodeSize: u16, content: Bytes)
    requires Writable(h, gap, bytes, leaves, nodeSize, content)
    ensures var v := VolumeBytes(h, gap, bytes, leaves, nodeSize, content);
      && HEADER_END <= |v| && v[..HEADER_END] == HeaderBytes(h)
      && LocateCatalog(v) == Some(WrittenLoc(h, |leaves|, nodeSize))
      && LocateExtents(v) == TreeOf(v, h.signature, h.blockSize, h.extents)
      && LocateAttributes(v) == TreeOf(v, h.signature, h.blockSize, h.attributes)
  {
    hide HeaderBytes, HeaderNode, Leaves, Flatten, AllFit, LocateCatalog, LocateExtents, LocateAttributes, FirstLeaf;
    var node, after := HeaderNode(FirstLeaf(|leaves|), nodeSize), Flatten(Leaves(bytes, leaves, nodeSize)) + content;
    AppendIsAssociative(HeaderBytes(h), gap + node, after);
    HeadersLocate(h, (gap + node) + after);
    AppendIsAssociative(HeaderBytes(h), gap, node);
    HeaderNodeReads(HeaderBytes(h) + gap, FirstLeaf(|leaves|), nodeSize, after);
  }

  /** Part `i` of uniform parts behind a prefix. */
  lemma {:induction false} UniformSlice(before: Bytes, xss: seq<Bytes>, after: Bytes, c: nat, i: nat)
    requires i < |xss| && forall j :: 0 <= j < |xss| ==> |xss[j]| == c
    ensures 0 <= i * c && |before| + i * c + c <= |before + (Flatten(xss) + after)|
    ensures (before + (Flatten(xss) + after))[|before| + i * c..|before| + i * c + c] == xss[i]
  {
    FlattenSlice(xss, i);
    UniformFlatten(xss, c, i);
    HoldsInside(before, Flatten(xss), after, i * c, xss[i]);
    assert before + Flatten(xss) + after == before + (Flatten(xss) + after);
  }

  lemma {:induction false} LeafBytesAt<T>(
    h: VolumeHeader, gap: Bytes, bytes: T -> Bytes, leaves: seq<seq<T>>, nodeSize: u16, content: Bytes, i: nat)
    requires Writable(h, gap, bytes, leaves, nodeSize, content) && i < |leaves|
    ensures var v, loc := VolumeBytes(h, gap, bytes, leaves, nodeSize, content), WrittenLoc(h, |leaves|, nodeSize);
      InBounds(v, loc, i + 1) && NodeBytes(v, loc, i + 1) == LeafOf(bytes, leaves, nodeSize, i)
  {
    hide HeaderBytes, HeaderNode, LeafNodeBytes, AllFit, NodeNumbers, LinkAfter, FirstLeaf;
    var before := Front(h, gap, |leaves|, nodeSize);
    UniformSlice(before, Leaves(bytes, leaves, nodeSize), content, nodeSize, i);
    assert (i + 1) * nodeSize == i * nodeSize + nodeSize;
  }

  lemma {:induction false} HeaderNodeAt<T>(
    h: VolumeHeader, gap: Bytes, bytes: T -> Bytes, leaves: seq<seq<T>>, nodeSize: u16, content: Bytes)
    requires Writable(h, gap, bytes, leaves, nodeSize, content)
    ensures var v, loc := VolumeBytes(h, gap, bytes, leaves, nodeSize, content), WrittenLoc(h, |leaves|, nodeSize);
      InBounds(v, loc, 0) && NodeBytes(v, loc, 0) == HeaderNode(FirstLeaf(|leaves|), nodeSize)
  {
    hide HeaderBytes, HeaderNode, Leaves, Flatten, AllFit, FirstLeaf;
    var node, after := HeaderNode(FirstLeaf(|leaves|), nodeSize), Flatten(Leaves(bytes, leaves, nodeSize)) + content;
    AppendIsAssociative(HeaderBytes(h), gap, node);
    HoldsBehind(HeaderBytes(h) + gap, node, after);
  }

  lemma {:induction false} LeafIsStored<T>(
    h: VolumeHeader, gap: Bytes, bytes: T -> Bytes, leaves: seq<seq<T>>, nodeSize: u16, content: Bytes, i: nat)
    requires Writable(h, gap, bytes, leaves, nodeSize, content) && i < |leaves|
    ensures var v, loc := VolumeBytes(h, gap, bytes, leaves, nodeSize, content), WrittenLoc(h, |leaves|, nodeSize);
      var nodes := NodeNumbers(|leaves|);
      StoresLeaf(v, loc, Encoded(bytes, leaves[i]), nodes[i], LinkAfter(nodes, i + 1))
  {
    hide LeafNodeBytes, VolumeBytes, HeaderNode;
    LeafBytesAt(h, gap, bytes, leaves, nodeSize, content, i);
  }

  /** A written volume stores its catalog's leaves where the reader finds them. */
  lemma {:induction false} ChainIsStored<T>(
    h: VolumeHeader, gap: Bytes, bytes: T -> Bytes, leaves: seq<seq<T>>, nodeSize: u16, content: Bytes)
    requires Writable(h, gap, bytes, leaves, nodeSize, content)
    ensures var v, loc := VolumeBytes(h, gap, bytes, leaves, nodeSize, content), WrittenLoc(h, |leaves|, nodeSize);
      StoresChain(v, loc, bytes, leaves, NodeNumbers(|leaves|))
  {
    hide StoresLeaf, VolumeBytes, HeaderNode;
    var v, loc := VolumeBytes(h, gap, bytes, leaves, nodeSize, content), WrittenLoc(h, |leaves|, nodeSize);
    HeaderNodeAt(h, gap, bytes, leaves, nodeSize, content);
    var nodes := NodeNumbers(|leaves|);
    forall i | 0 <= i < |leaves|
      ensures StoresLeaf(v, loc, Encoded(bytes, leaves[i]), nodes[i], LinkAfter(nodes, i + 1))
    {
      LeafIsStored(h, gap, bytes, leaves, nodeSize, content, i);
    }
  }

  /** Node 0 is the header node, and leaf `i` is node `i + 1`. */
  ghost predicate LaidOut<T>(volume: Volume, loc: CatalogLoc, bytes: T -> Bytes, leaves: seq<seq<T>>, nodeSize: u16) {
    && HEADER_RECORD_END <= nodeSize && loc.nodeSize == nodeSize && Walkable(loc)
    && |leaves| < U32_MAX && AllFit(bytes, leaves, nodeSize)
    && InBounds(volume, loc, 0) && NodeBytes(volume, loc, 0) == HeaderNode(FirstLeaf(|leaves|), nodeSize)
    && forall i :: 0 <= i < |leaves| ==> LeafAt(volume, loc, bytes, leaves, nodeSize, i)
  }

  ghost predicate LeafAt<T>(
    volume: Volume, loc: CatalogLoc, bytes: T -> Bytes, leaves: seq<seq<T>>, nodeSize: u16, i: nat)
    requires AllFit(bytes, leaves, nodeSize) && i < |leaves| < U32_MAX
  {
    InBounds(volume, loc, i + 1) && NodeBytes(volume, loc, i + 1) == LeafOf(bytes, leaves, nodeSize, i)
  }

  lemma {:induction false} WrittenIsLaidOut<T>(
    h: VolumeHeader, gap: Bytes, bytes: T -> Bytes, leaves: seq<seq<T>>, nodeSize: u16, content: Bytes)
    requires Writable(h, gap, bytes, leaves, nodeSize, content)
    ensures LaidOut(VolumeBytes(h, gap, bytes, leaves, nodeSize, content), WrittenLoc(h, |leaves|, nodeSize), bytes,
                    leaves, nodeSize)
  {
    hide LeafNodeBytes, VolumeBytes, HeaderNode;
    var v, loc := VolumeBytes(h, gap, bytes, leaves, nodeSize, content), WrittenLoc(h, |leaves|, nodeSize);
    HeaderNodeAt(h, gap, bytes, leaves, nodeSize, content);
    forall i | 0 <= i < |leaves| ensures LeafAt(v, loc, bytes, leaves, nodeSize, i) {
      LeafBytesAt(h, gap, bytes, leaves, nodeSize, content, i);
    }
  }
}
