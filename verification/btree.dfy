/** Locating a B-tree in the volume and walking its leaf chain. */
module BTree {
  import opened Wrappers
  import opened ByteOrder
  import opened Chains

  const VOLUME_HEADER_OFFSET: usize := 1024
  const SIG_HFS_PLUS: u16 := 0x482B
  const SIG_HFSX: u16 := 0x4858
  const EXTENTS_FORK_OFFSET: usize := 192
  const CATALOG_FORK_OFFSET: usize := 272
  const ATTRIBUTES_FORK_OFFSET: usize := 352
  const MAX_LEAF_NODES: u32 := 65536
  const NODE_DESCRIPTOR: usize := 14

  datatype CatalogLoc = CatalogLoc(catBase: usize, nodeSize: usize, firstLeaf: u32, blockSize: usize)

  /** What every located tree guarantees: node arithmetic cannot leave `usize`. */
  ghost predicate Walkable(loc: CatalogLoc) {
    NODE_DESCRIPTOR <= loc.nodeSize <= U16_MAX && loc.catBase <= ISIZE_MAX
  }

  /** Reads the fork's first extent from the volume header, then the tree's header
      record. The crate-private offset is one of the three constants above. */
  function LocateBtree(volume: Volume, forkOffset: usize): (r: Option<CatalogLoc>)
    requires EXTENTS_FORK_OFFSET <= forkOffset <= ATTRIBUTES_FORK_OFFSET
    ensures r.Some? ==>
      && Walkable(r.value)
      && 0 < r.value.blockSize <= U32_MAX
      && r.value.catBase + 34 <= |volume|
      && VOLUME_HEADER_OFFSET + 24 <= |volume|
  {
    var h := VOLUME_HEADER_OFFSET;
    var fork :- CheckedAdd(h, forkOffset);
    var forkEnd: usize := fork + 20;
    if |volume| < forkEnd then None
    else if Be16(volume, h) != SIG_HFS_PLUS && Be16(volume, h) != SIG_HFSX then None
    else
      var blockSize := Be32(volume, h + 40);
      if blockSize == 0 then None
      else if Be32(volume, fork + 12) == 0 then None
      else
        var startBlock := Be32(volume, fork + 16);
        ProductFits(startBlock, blockSize);
        var catBase :- CheckedMul(startBlock, blockSize);
        var hdr :- CheckedAdd(catBase, NODE_DESCRIPTOR);
        var hdrEnd: usize := hdr + 20;
        if |volume| < hdrEnd then None
        else
          var firstLeaf := Be32(volume, hdr + 10);
          var nodeSize := Be16(volume, hdr + 18);
          if nodeSize < NODE_DESCRIPTOR then None
          else Some(CatalogLoc(catBase, nodeSize, firstLeaf, blockSize))
  }


  function LocateCatalog(volume: Volume): Option<CatalogLoc> {
    LocateBtree(volume, CATALOG_FORK_OFFSET)
  }

  function LocateAttributes(volume: Volume): Option<CatalogLoc> {
    LocateBtree(volume, ATTRIBUTES_FORK_OFFSET)
  }

  function LocateExtents(volume: Volume): Option<CatalogLoc> {
    LocateBtree(volume, EXTENTS_FORK_OFFSET)
  }

  // ---- one node ------------------------------------------------------------

  function NodeOffset(loc: CatalogLoc, node: u32): nat {
    node * loc.nodeSize + loc.catBase
  }

  predicate InBounds(volume: Volume, loc: CatalogLoc, node: u32) {
    NodeOffset(loc, node) + loc.nodeSize <= |volume|
  }

  function NodeBytes(volume: Volume, loc: CatalogLoc, node: u32): (nd: Bytes)
    requires InBounds(volume, loc, node)
    ensures |nd| == loc.nodeSize
  {
    volume[NodeOffset(loc, node)..NodeOffset(loc, node) + loc.nodeSize]
  }

  /** Slot `i` counts backwards from the node's end; it names a record that runs on
      to the end of the node, provided eight bytes of it are there. */
  function SlotRecord(nd: Bytes, i: nat): Option<Bytes>
    requires 2 * (i + 1) <= |nd|
  {
    var rec := Be16(nd, |nd| - 2 * (i + 1));
    if rec + 8 <= |nd| then Some(nd[rec..]) else None
  }

  /** The records named by the first `n` slots. */
  function SlotRecords(nd: Bytes, n: nat): (recs: seq<Bytes>)
    requires 2 * n <= |nd|
    ensures |recs| <= n
  {
    if n == 0 then []
    else SlotRecords(nd, n - 1) + (match SlotRecord(nd, n - 1) case Some(r) => [r] case None => [])
  }

  /** The slots that exist: the declared count, cut where the table would run out of node. */
  function SlotCount(nd: Bytes): (n: nat)
    requires 12 <= |nd|
    ensures 2 * n <= |nd|
  {
    Min(Be16(nd, 10), |nd| / 2)
  }

  function NodeRecords(nd: Bytes): (recs: seq<Bytes>)
    requires 12 <= |nd|
  {
    SlotRecords(nd, SlotCount(nd))
  }

  // ---- the chain -----------------------------------------------------------

  function Link(volume: Volume, loc: CatalogLoc, node: u32): u32
    requires Walkable(loc) && InBounds(volume, loc, node)
  {
    Be32(NodeBytes(volume, loc, node), 0)
  }

  /** The walk enters a node that is not the end marker and lies inside the volume; its
      forward link names the next one. */
  function Next(volume: Volume, loc: CatalogLoc): Successor
    requires Walkable(loc)
  {
    (node: u32) => if node != 0 && InBounds(volume, loc, node) then Some(Link(volume, loc, node)) else None
  }

  function RecordsAt(volume: Volume, loc: CatalogLoc): u32 -> seq<Bytes>
    requires Walkable(loc)
  {
    (node: u32) => if InBounds(volume, loc, node) then NodeRecords(NodeBytes(volume, loc, node)) else []
  }

  /** The nodes the leaf walk visits, in order and with repetitions. */
  function Visits(volume: Volume, loc: CatalogLoc): seq<u32>
    requires Walkable(loc)
  {
    Entered(Next(volume, loc), loc.firstLeaf, MAX_LEAF_NODES)
  }

  /** Every record slice the leaf walk hands to its closure, in order. */
  function Records(volume: Volume, loc: CatalogLoc): seq<Bytes>
    requires Walkable(loc)
  {
    Collected(Next(volume, loc), RecordsAt(volume, loc), loc.firstLeaf, MAX_LEAF_NODES)
  }

  /** Visits is the one bounded walk of the leaf chain. */
  lemma {:induction false} VisitsIsTheLeafWalk(volume: Volume, loc: CatalogLoc, nodes: seq<u32>)
    requires Walkable(loc)
    ensures nodes == Visits(volume, loc)
       <==> IsWalk(Next(volume, loc), loc.firstLeaf, 65536, nodes)
  {
    WalkIsUnique(Next(volume, loc), loc.firstLeaf, MAX_LEAF_NODES, nodes);
  }

  lemma {:induction false} SlotSizes(nd: Bytes, n: nat)
    requires 2 * n <= |nd|
    ensures forall r :: r in SlotRecords(nd, n) ==> 8 <= |r| <= |nd|
  {
    if n > 0 {
      SlotSizes(nd, n - 1);
    }
  }

  lemma {:induction false} SlotsDeliver(nd: Bytes, n: nat, r: Bytes)
    requires 2 * n <= |nd|
    ensures r in SlotRecords(nd, n) <==> exists i: nat :: i < n && NamesRecord(nd, i, r)
  {
    hide NamesRecord, SlotRecord;
    if n > 0 {
      SlotsDeliver(nd, n - 1, r);
      SlotNames(nd, n - 1, r);
    }
  }

  lemma {:induction false} SlotNames(nd: Bytes, i: nat, r: Bytes)
    requires 2 * (i + 1) <= |nd|
    ensures SlotRecord(nd, i) == Some(r) <==> NamesRecord(nd, i, r)
  {
  }

  /** Slot `i`, counted backwards from the node's end, names `r`: the rest of the node from
      an offset that leaves at least eight bytes. */
  ghost predicate NamesRecord(nd: Bytes, i: nat, r: Bytes) {
    && 2 * (i + 1) <= |nd|
    && var off := nd[|nd| - 2 * (i + 1)] as int * 256 + nd[|nd| - 2 * (i + 1) + 1];
    off + 8 <= |nd| && r == nd[off..]
  }

  /** A slice is delivered exactly when a node that the walk visits names it in one of the
      slots it declares, as far as its table fits the node. */
  lemma {:induction false} DeliveredExactly(volume: Volume, loc: CatalogLoc, r: Bytes)
    requires Walkable(loc)
    ensures r in Records(volume, loc) <==>
      exists n: u32, i: nat :: n in Visits(volume, loc) && NamedIn(volume, loc, n, i, r)
  {
    hide NamedIn, Entered, Collected, Next, RecordsAt;
    CollectedMember(Next(volume, loc), RecordsAt(volume, loc), loc.firstLeaf, MAX_LEAF_NODES, r);
    if n: u32 :| n in Visits(volume, loc) && r in RecordsAt(volume, loc)(n) {
      NodeDelivers(volume, loc, n, r);
    }
    if n: u32, i: nat :| n in Visits(volume, loc) && NamedIn(volume, loc, n, i, r) {
      NodeDelivers(volume, loc, n, r);
    }
  }

  /** Node `n` declares more than `i` records, and its slot `i` names `r`. */
  ghost predicate NamedIn(volume: Volume, loc: CatalogLoc, n: u32, i: nat, r: Bytes) {
    && InBounds(volume, loc, n) && 12 <= loc.nodeSize
    && var nd := NodeBytes(volume, loc, n);
    i < nd[10] as int * 256 + nd[11] && NamesRecord(nd, i, r)
  }

  lemma {:induction false} NodeDelivers(volume: Volume, loc: CatalogLoc, n: u32, r: Bytes)
    requires Walkable(loc) && n in Visits(volume, loc)
    ensures r in RecordsAt(volume, loc)(n) <==> exists i: nat :: NamedIn(volume, loc, n, i, r)
  {
    hide NamesRecord, Entered, SlotRecords;
    CollectedMember(Next(volume, loc), RecordsAt(volume, loc), loc.firstLeaf, MAX_LEAF_NODES, r);
    var nd := NodeBytes(volume, loc, n);
    SlotsDeliver(nd, SlotCount(nd), r);
    if i: nat :| NamedIn(volume, loc, n, i, r) {
      TableFits(nd, i, r);
      assert i < SlotCount(nd);
    }
    if i: nat :| i < SlotCount(nd) && NamesRecord(nd, i, r) {
      assert NamedIn(volume, loc, n, i, r);
    }
  }

  lemma {:induction false} TableFits(nd: Bytes, i: nat, r: Bytes)
    requires NamesRecord(nd, i, r)
    ensures i + 1 <= |nd| / 2
  {
  }

  /** A hostile volume cannot make the walk call its closure more often than this, nor
      with a slice shorter than a key or longer than a node. */
  lemma {:induction false} CallbacksAreBounded(volume: Volume, loc: CatalogLoc)
    requires Walkable(loc)
    ensures |Records(volume, loc)| <= 65536 * (loc.nodeSize / 2)
    ensures forall r :: r in Records(volume, loc) ==> 8 <= |r| <= loc.nodeSize
  {
    var next, f := Next(volume, loc), RecordsAt(volume, loc);
    CollectedBound(next, f, loc.firstLeaf, MAX_LEAF_NODES, loc.nodeSize / 2);
    forall r | r in Records(volume, loc) ensures 8 <= |r| <= loc.nodeSize {
      CollectedMember(next, f, loc.firstLeaf, MAX_LEAF_NODES, r);
      var n: u32 :| n in Entered(next, loc.firstLeaf, MAX_LEAF_NODES) && r in f(n);
      SlotSizes(NodeBytes(volume, loc, n), SlotCount(NodeBytes(volume, loc, n)));
    }
  }

  /** Node arithmetic of a located tree never reaches the checked operations' limits. */
  lemma {:induction false} NodeArithmeticFits(loc: CatalogLoc, node: u32)
    requires Walkable(loc)
    ensures 0 <= node * loc.nodeSize <= 0x1_0000_0000_0000
    ensures NodeOffset(loc, node) + loc.nodeSize <= USIZE_MAX
  {
    MulMonotone(node, U32_MAX, loc.nodeSize);
  }

  /** The inner loop of the leaf walk: the records of one node, slot by slot. */
  method ForEachSlot(nd: Bytes) returns (delivered: seq<Bytes>)
    requires 12 <= |nd| <= U16_MAX
    ensures delivered == NodeRecords(nd)
  {
    delivered := [];
    var numRecords := Be16(nd, 10);
    var i := 0;
    while i < numRecords
      invariant 0 <= i <= SlotCount(nd)
      invariant delivered == SlotRecords(nd, i)
    {
      var slot := CheckedSub(|nd|, 2 * (i + 1));
      if slot.None? {
        break;
      }
      var rec := Be16(nd, slot.value);
      if rec + 8 <= |nd| {
        delivered := delivered + [nd[rec..]];
      }
      i := i + 1;
    }
  }

  /** The bounds check of one step: `None` is the walk's early exit. */
  method LeafNode(volume: Volume, loc: CatalogLoc, node: u32) returns (nd: Option<Bytes>)
    requires Walkable(loc)
    ensures nd == if InBounds(volume, loc, node) then Some(NodeBytes(volume, loc, node)) else None
  {
    NodeArithmeticFits(loc, node);
    var scaled := CheckedMul(node, loc.nodeSize);
    if scaled.None? {
      return None;
    }
    var nodeOff := CheckedAdd(scaled.value, loc.catBase);
    if nodeOff.None? {
      return None;
    }
    var nodeEnd: usize := nodeOff.value + loc.nodeSize;
    if |volume| < nodeEnd {
      return None;
    }
    return Some(volume[nodeOff.value..nodeEnd]);
  }

  /** One step of the leaf walk: the node's records and its forward link, or the early exit. */
  method VisitNode(volume: Volume, loc: CatalogLoc, node: u32) returns (r: Option<(seq<Bytes>, u32)>)
    requires Walkable(loc) && node != 0
    ensures r.Some? <==> Next(volume, loc)(node).Some?
    ensures r.Some? ==> RecordsAt(volume, loc)(node) == r.value.0 && Next(volume, loc)(node) == Some(r.value.1)
  {
    var nd := LeafNode(volume, loc, node);
    if nd.None? {
      return None;
    }
    var recs := ForEachSlot(nd.value);
    return Some((recs, Be32(nd.value, 0)));
  }

  /** The leaf walk. The closure of the source is the returned list: each element is
      one call, in call order. */
  method ForEachRecord(volume: Volume, loc: CatalogLoc) returns (delivered: seq<Bytes>)
    requires Walkable(loc)
    ensures delivered == Records(volume, loc)
  {
    hide NodeRecords;
    delivered := [];
    ghost var next, f := Next(volume, loc), RecordsAt(volume, loc);
    var node := loc.firstLeaf;
    var walked: u32 := 0;
    while node != 0 && walked < MAX_LEAF_NODES
      invariant walked <= MAX_LEAF_NODES
      invariant node == Cursor(next, loc.firstLeaf, walked)
      invariant delivered == Collected(next, f, loc.firstLeaf, walked)
      decreases MAX_LEAF_NODES - walked
    {
      var visit := VisitNode(volume, loc, node);
      if visit.None? {
        break;
      }
      EnterStep(next, f, loc.firstLeaf, walked);
      delivered := delivered + visit.value.0;
      node := visit.value.1;
      walked := walked + 1;
    }
    if walked < MAX_LEAF_NODES {
      CollectedStays(next, f, loc.firstLeaf, walked, MAX_LEAF_NODES);
    }
  }
}
