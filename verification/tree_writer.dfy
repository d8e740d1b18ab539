/** Writing B-tree leaves, and reading them back through the leaf walk: whatever the
    records are, and whatever is read of them. */
module TreeWriter {
  import opened Wrappers
  import opened Sequences
  import opened ByteOrder
  import opened Chains
  import opened BTree

  // ---- nodes -------------------------------------------------------------------

  /** `bytes` says how an item of the tree is written. */
  function Encoded<T>(bytes: T -> Bytes, items: seq<T>): (recs: seq<Bytes>)
    ensures |recs| == |items|
    ensures forall i :: 0 <= i < |items| ==> recs[i] == bytes(items[i])
  {
    seq(|items|, i requires 0 <= i < |items| => bytes(items[i]))
  }

  /** Where record `i` starts in its node. */
  function OffsetOf(recs: seq<Bytes>, i: nat): nat
    requires i <= |recs|
  {
    14 + |Flatten(recs[..i])|
  }

  /** The offsets of the first `n` records, written backwards: the first one comes last. */
  function OffsetTable(recs: seq<Bytes>, n: nat): (t: Bytes)
    requires n <= |recs| && OffsetOf(recs, |recs|) <= U16_MAX
    ensures |t| == 2 * n
  {
    if n == 0 then []
    else
      OffsetsGrow(recs, n - 1, |recs|);
      ToBe16(OffsetOf(recs, n - 1)) + OffsetTable(recs, n - 1)
  }

  lemma {:induction false} OffsetsGrow(recs: seq<Bytes>, i: nat, j: nat)
    requires i <= j <= |recs|
    ensures OffsetOf(recs, i) <= OffsetOf(recs, j)
  {
    assert recs[..j][..i] == recs[..i];
    FlattenSplit(recs[..j], i);
  }

  predicate Fits(recs: seq<Bytes>, nodeSize: nat) {
    OffsetOf(recs, |recs|) + 2 * |recs| <= nodeSize <= U16_MAX
  }

  function Descriptor(fLink: u32, bLink: u32, numRecords: u16): (d: Bytes)
    ensures |d| == 14
  {
    ToBe32(fLink) + ToBe32(bLink) + [0xFF, 1] + ToBe16(numRecords) + [0, 0]
  }

  function LeafNodeBytes(recs: seq<Bytes>, fLink: u32, bLink: u32, nodeSize: nat): (nd: Bytes)
    requires Fits(recs, nodeSize)
    ensures |nd| == nodeSize
  {
    assert recs[..|recs|] == recs;
    Descriptor(fLink, bLink, |recs|) + Flatten(recs)
    + Zeros(nodeSize - OffsetOf(recs, |recs|) - 2 * |recs|) + OffsetTable(recs, |recs|)
  }

  lemma {:induction false} DescriptorReads(fLink: u32, bLink: u32, numRecords: u16, after: Bytes)
    ensures var nd := Descriptor(fLink, bLink, numRecords) + after;
      Be32(nd, 0) == fLink && Be16(nd, 10) == numRecords
  {
    var nd := Descriptor(fLink, bLink, numRecords) + after;
    assert nd[0..4] == ToBe32(fLink);
    ReadBe32(nd, 0, fLink);
    assert nd[10..12] == ToBe16(numRecords);
    ReadBe16(nd, 10, numRecords);
  }

  lemma {:induction false} OffsetTableEntry(recs: seq<Bytes>, n: nat, i: nat)
    requires i < n <= |recs| && OffsetOf(recs, |recs|) <= U16_MAX
    ensures OffsetOf(recs, i) <= U16_MAX
    ensures Holds(OffsetTable(recs, n), 2 * n - 2 * (i + 1), ToBe16(OffsetOf(recs, i)))
  {
    OffsetsGrow(recs, i, |recs|);
    if i < n - 1 {
      OffsetTableEntry(recs, n - 1, i);
      OffsetsGrow(recs, n - 1, |recs|);
      HoldsInside(ToBe16(OffsetOf(recs, n - 1)), OffsetTable(recs, n - 1), [], 2 * (n - 1) - 2 * (i + 1),
        ToBe16(OffsetOf(recs, i)));
      assert ToBe16(OffsetOf(recs, n - 1)) + OffsetTable(recs, n - 1) + [] == OffsetTable(recs, n);
    } else {
      HoldsInFront(ToBe16(OffsetOf(recs, i)), OffsetTable(recs, n - 1), 0, ToBe16(OffsetOf(recs, i)));
    }
  }

  lemma {:induction false} SlotOffset(recs: seq<Bytes>, fLink: u32, bLink: u32, nodeSize: nat, i: nat)
    requires Fits(recs, nodeSize) && i < |recs|
    ensures Be16(LeafNodeBytes(recs, fLink, bLink, nodeSize), nodeSize - 2 * (i + 1)) == OffsetOf(recs, i)
  {
    hide Be16, Holds;
    var nd := LeafNodeBytes(recs, fLink, bLink, nodeSize);
    var table := OffsetTable(recs, |recs|);
    assert recs[..|recs|] == recs;
    var gap := Zeros(nodeSize - OffsetOf(recs, |recs|) - 2 * |recs|);
    var before := Descriptor(fLink, bLink, |recs|) + Flatten(recs) + gap;
    OffsetTableEntry(recs, |recs|, i);
    HoldsInside(before, table, [], 2 * |recs| - 2 * (i + 1), ToBe16(OffsetOf(recs, i)));
    assert before + table + [] == nd;
    ReadBe16(nd, nodeSize - 2 * (i + 1), OffsetOf(recs, i));
  }

  /** Slot `i` of a written node names record `i`, followed by the rest of the node. */
  lemma {:induction false} SlotReadsBack(recs: seq<Bytes>, fLink: u32, bLink: u32, nodeSize: nat, i: nat)
    requires Fits(recs, nodeSize) && i < |recs| && 8 <= |recs[i]|
    ensures var nd := LeafNodeBytes(recs, fLink, bLink, nodeSize);
      && SlotRecord(nd, i).Some?
      && |recs[i]| <= |SlotRecord(nd, i).value|
      && SlotRecord(nd, i).value[..|recs[i]|] == recs[i]
  {
    hide LeafNodeBytes, OffsetOf, Be16;
    var nd := LeafNodeBytes(recs, fLink, bLink, nodeSize);
    SlotOffset(recs, fLink, bLink, nodeSize, i);
    RecordInNode(recs, fLink, bLink, nodeSize, i);
    var at := OffsetOf(recs, i);
    assert nd[at..][..|recs[i]|] == nd[at..at + |recs[i]|];
  }

  lemma {:induction false} RecordInNode(recs: seq<Bytes>, fLink: u32, bLink: u32, nodeSize: nat, i: nat)
    requires Fits(recs, nodeSize) && i < |recs|
    ensures Holds(LeafNodeBytes(recs, fLink, bLink, nodeSize), OffsetOf(recs, i), recs[i])
  {
    assert recs[..|recs|] == recs;
    var gap := Zeros(nodeSize - OffsetOf(recs, |recs|) - 2 * |recs|);
    FlattenSlice(recs, i);
    HoldsInside(Descriptor(fLink, bLink, |recs|), Flatten(recs), gap, |Flatten(recs[..i])|, recs[i]);
    var before := Descriptor(fLink, bLink, |recs|) + Flatten(recs) + gap;
    HoldsInFront(before, OffsetTable(recs, |recs|), OffsetOf(recs, i), recs[i]);
  }

  // ---- reading a leaf, whatever is read of its records --------------------------------

  /** `f` reads the written record as `g` says, however much of the node follows it. */
  ghost predicate ReadsAs<T, B>(bytes: T -> Bytes, f: Bytes -> Option<B>, g: T -> Option<B>, item: T) {
    |bytes(item)| >= 8 && forall tail: Bytes :: f(bytes(item) + tail) == g(item)
  }

  ghost predicate AllReadAs<T, B>(bytes: T -> Bytes, f: Bytes -> Option<B>, g: T -> Option<B>, items: seq<T>) {
    forall item :: item in items ==> ReadsAs(bytes, f, g, item)
  }

  /** `f` reads slot `i` of `nd` as `v`. */
  ghost predicate SlotMatches<B>(nd: Bytes, i: nat, f: Bytes -> Option<B>, v: Option<B>) {
    2 * (i + 1) <= |nd| && SlotRecord(nd, i).Some? && f(SlotRecord(nd, i).value) == v
  }

  lemma {:induction false} SlotReadsAs<T, B>(
    bytes: T -> Bytes, items: seq<T>, fLink: u32, bLink: u32, nodeSize: nat,
    f: Bytes -> Option<B>, g: T -> Option<B>, i: nat)
    requires AllReadAs(bytes, f, g, items) && Fits(Encoded(bytes, items), nodeSize) && i < |items|
    ensures SlotMatches(LeafNodeBytes(Encoded(bytes, items), fLink, bLink, nodeSize), i, f, g(items[i]))
  {
    hide SlotRecord, LeafNodeBytes;
    assert ReadsAs(bytes, f, g, items[i]);
    var nd := LeafNodeBytes(Encoded(bytes, items), fLink, bLink, nodeSize);
    SlotReadsBack(Encoded(bytes, items), fLink, bLink, nodeSize, i);
    var rec, own := SlotRecord(nd, i).value, bytes(items[i]);
    assert rec == own + rec[|own|..];
  }

  lemma {:induction false} SlotRecordsSnoc(nd: Bytes, n: nat)
    requires 2 * n <= |nd|
    ensures n == 0 ==> SlotRecords(nd, n) == []
    ensures n > 0 && SlotRecord(nd, n - 1).Some? ==>
      SlotRecords(nd, n) == SlotRecords(nd, n - 1) + [SlotRecord(nd, n - 1).value]
  {
  }

  lemma {:induction false} MatchingSlots<T, B>(
    nd: Bytes, items: seq<T>, f: Bytes -> Option<B>, g: T -> Option<B>, n: nat)
    requires n <= |items| && 2 * n <= |nd|
    requires forall i :: 0 <= i < n ==> SlotMatches(nd, i, f, g(items[i]))
    ensures FilterMap(f, SlotRecords(nd, n)) == FilterMap(g, items[..n])
  {
    hide SlotRecord, SlotRecords;
    if n == 0 {
      SlotRecordsSnoc(nd, n);
    } else {
      MatchingSlots(nd, items, f, g, n - 1);
      assert SlotMatches(nd, n - 1, f, g(items[n - 1]));
      SlotRecordsSnoc(nd, n);
      FilterMapStep(g, items, n - 1);
      FilterMapSnoc(f, SlotRecords(nd, n - 1), SlotRecord(nd, n - 1).value);
    }
  }

  lemma {:induction false} SlotsReadBack<T, B>(
    bytes: T -> Bytes, items: seq<T>, fLink: u32, bLink: u32, nodeSize: nat,
    f: Bytes -> Option<B>, g: T -> Option<B>)
    requires AllReadAs(bytes, f, g, items) && Fits(Encoded(bytes, items), nodeSize)
    ensures FilterMap(f, SlotRecords(LeafNodeBytes(Encoded(bytes, items), fLink, bLink, nodeSize), |items|))
         == FilterMap(g, items)
  {
    hide SlotMatches, LeafNodeBytes, SlotRecords, FilterMap, OffsetOf, AllReadAs;
    var nd := LeafNodeBytes(Encoded(bytes, items), fLink, bLink, nodeSize);
    forall i | 0 <= i < |items| ensures SlotMatches(nd, i, f, g(items[i])) {
      SlotReadsAs(bytes, items, fLink, bLink, nodeSize, f, g, i);
    }
    MatchingSlots(nd, items, f, g, |items|);
    assert items[..|items|] == items;
  }

  lemma {:induction false} FilterMapSnoc<A, B>(f: A -> Option<B>, xs: seq<A>, x: A)
    ensures FilterMap(f, xs + [x]) == FilterMap(f, xs) + Opt(f(x))
  {
    assert DropLast(xs + [x]) == xs;
  }

  lemma {:induction false} LeafDescriptorReads(recs: seq<Bytes>, fLink: u32, bLink: u32, nodeSize: nat)
    requires Fits(recs, nodeSize)
    ensures var nd := LeafNodeBytes(recs, fLink, bLink, nodeSize);
      14 <= |nd| && Be32(nd, 0) == fLink && SlotCount(nd) == |recs|
  {
    hide OffsetTable, Be32, Be16;
    var gap := Zeros(nodeSize - OffsetOf(recs, |recs|) - 2 * |recs|);
    var after := Flatten(recs) + gap + OffsetTable(recs, |recs|);
    assert recs[..|recs|] == recs;
    assert LeafNodeBytes(recs, fLink, bLink, nodeSize) == Descriptor(fLink, bLink, |recs|) + after;
    DescriptorReads(fLink, bLink, |recs|, after);
  }

  /** One written leaf: its forward link, and whatever is read of its records, in order. */
  lemma {:induction false} LeafReadsBack<T, B>(
    bytes: T -> Bytes, items: seq<T>, fLink: u32, bLink: u32, nodeSize: nat,
    f: Bytes -> Option<B>, g: T -> Option<B>)
    requires AllReadAs(bytes, f, g, items) && Fits(Encoded(bytes, items), nodeSize)
    ensures var nd := LeafNodeBytes(Encoded(bytes, items), fLink, bLink, nodeSize);
      && Be32(nd, 0) == fLink
      && FilterMap(f, NodeRecords(nd)) == FilterMap(g, items)
  {
    hide LeafNodeBytes, SlotRecords, FilterMap, Be32, AllReadAs, SlotCount;
    LeafDescriptorReads(Encoded(bytes, items), fLink, bLink, nodeSize);
    SlotsReadBack(bytes, items, fLink, bLink, nodeSize, f, g);
  }

  // ---- chains of leaves ----------------------------------------------------------

  ghost predicate AllFit<T>(bytes: T -> Bytes, leaves: seq<seq<T>>, nodeSize: nat) {
    forall i :: 0 <= i < |leaves| ==> Fits(Encoded(bytes, leaves[i]), nodeSize)
  }

  function LinkAfter(nodes: seq<u32>, i: nat): u32
    requires i <= |nodes|
  {
    if i < |nodes| then nodes[i] else 0
  }

  /** The volume stores `leaves`, in chain order, in the nodes numbered `nodes`, wherever
      these lie; the last one links to 0. */
  ghost predicate StoresChain<T>(
    volume: Volume, loc: CatalogLoc, bytes: T -> Bytes, leaves: seq<seq<T>>, nodes: seq<u32>)
  {
    && Walkable(loc) && AllFit(bytes, leaves, loc.nodeSize) && |nodes| == |leaves|
    && loc.firstLeaf == LinkAfter(nodes, 0)
    && forall i :: 0 <= i < |nodes| ==>
         StoresLeaf(volume, loc, Encoded(bytes, leaves[i]), nodes[i], LinkAfter(nodes, i + 1))
  }

  ghost predicate StoresLeaf(volume: Volume, loc: CatalogLoc, recs: seq<Bytes>, node: u32, fLink: u32)
    requires Fits(recs, loc.nodeSize)
  {
    && node != 0 && InBounds(volume, loc, node)
    && exists bLink: u32 :: NodeBytes(volume, loc, node) == LeafNodeBytes(recs, fLink, bLink, loc.nodeSize)
  }

  /** A stored leaf is entered, and left by its forward link. */
  lemma {:induction false} LeafLinks(volume: Volume, loc: CatalogLoc, recs: seq<Bytes>, node: u32, fLink: u32)
    requires Walkable(loc) && Fits(recs, loc.nodeSize) && StoresLeaf(volume, loc, recs, node, fLink)
    ensures Next(volume, loc)(node) == Some(fLink)
  {
    hide LeafNodeBytes;
    var bLink: u32 :| NodeBytes(volume, loc, node) == LeafNodeBytes(recs, fLink, bLink, loc.nodeSize);
    LeafDescriptorReads(recs, fLink, bLink, loc.nodeSize);
  }

  lemma {:induction false} LeafVisit<T, B>(
    volume: Volume, loc: CatalogLoc, bytes: T -> Bytes, items: seq<T>, node: u32, fLink: u32,
    f: Bytes -> Option<B>, g: T -> Option<B>)
    requires Walkable(loc) && Fits(Encoded(bytes, items), loc.nodeSize)
    requires AllReadAs(bytes, f, g, items)
    requires StoresLeaf(volume, loc, Encoded(bytes, items), node, fLink)
    ensures FilterMap(f, RecordsAt(volume, loc)(node)) == FilterMap(g, items)
  {
    hide NodeRecords, LeafNodeBytes, AllReadAs, FilterMap;
    var bLink: u32 :|
      NodeBytes(volume, loc, node) == LeafNodeBytes(Encoded(bytes, items), fLink, bLink, loc.nodeSize);
    LeafReadsBack(bytes, items, fLink, bLink, loc.nodeSize, f, g);
  }

  lemma {:induction false} ChainReadsBack<T, B>(
    volume: Volume, loc: CatalogLoc, bytes: T -> Bytes, leaves: seq<seq<T>>, nodes: seq<u32>,
    f: Bytes -> Option<B>, g: T -> Option<B>, k: nat)
    requires StoresChain(volume, loc, bytes, leaves, nodes) && k <= |nodes|
    requires forall i :: 0 <= i < k ==> AllReadAs(bytes, f, g, leaves[i])
    ensures Cursor(Next(volume, loc), loc.firstLeaf, k) == LinkAfter(nodes, k)
    ensures FilterMap(f, Collected(Next(volume, loc), RecordsAt(volume, loc), loc.firstLeaf, k))
         == FilterMap(g, Flatten(leaves[..k]))
  {
    hide StoresLeaf, Next, RecordsAt, AllReadAs;
    if k > 0 {
      ChainReadsBack(volume, loc, bytes, leaves, nodes, f, g, k - 1);
      var recs := Encoded(bytes, leaves[k - 1]);
      assert StoresLeaf(volume, loc, recs, nodes[k - 1], LinkAfter(nodes, k));
      LeafLinks(volume, loc, recs, nodes[k - 1], LinkAfter(nodes, k));
      LeafVisit(volume, loc, bytes, leaves[k - 1], nodes[k - 1], LinkAfter(nodes, k), f, g);
      EnterStep(Next(volume, loc), RecordsAt(volume, loc), loc.firstLeaf, k - 1);
      FilterMapAppend(f, Collected(Next(volume, loc), RecordsAt(volume, loc), loc.firstLeaf, k - 1),
                      RecordsAt(volume, loc)(nodes[k - 1]));
      FlattenTake(leaves, k - 1);
      FilterMapAppend(g, Flatten(leaves[..k - 1]), leaves[k - 1]);
    }
  }

  /** Whatever is read of records, reading a tree reads the written ones: records in a
      chain of at most 65536 leaves, anywhere in the volume, give a closure exactly those
      records, in order. */
  lemma {:induction false} RecordsReadBack<T, B>(
    volume: Volume, loc: CatalogLoc, bytes: T -> Bytes, leaves: seq<seq<T>>, nodes: seq<u32>,
    f: Bytes -> Option<B>, g: T -> Option<B>)
    ensures StoresChain(volume, loc, bytes, leaves, nodes) && |nodes| <= 65536
            && AllReadAs(bytes, f, g, Flatten(leaves)) ==>
      FilterMap(f, Records(volume, loc)) == FilterMap(g, Flatten(leaves))
  {
    var n := |nodes|;
    if StoresChain(volume, loc, bytes, leaves, nodes) && n <= 65536 && AllReadAs(bytes, f, g, Flatten(leaves)) {
      forall i | 0 <= i < n ensures AllReadAs(bytes, f, g, leaves[i]) {
        InFlatten(leaves, i);
      }
      ChainReadsBack(volume, loc, bytes, leaves, nodes, f, g, n);
      assert leaves[..n] == leaves;
      CollectedStays(Next(volume, loc), RecordsAt(volume, loc), loc.firstLeaf, n, MAX_LEAF_NODES);
    }
  }

  lemma {:induction false} StoredLink<T>(
    volume: Volume, loc: CatalogLoc, bytes: T -> Bytes, leaves: seq<seq<T>>, nodes: seq<u32>, i: nat)
    requires StoresChain(volume, loc, bytes, leaves, nodes) && i < |nodes|
    ensures Next(volume, loc)(nodes[i]) == Some(LinkAfter(nodes, i + 1))
  {
    hide StoresLeaf, Next;
    LeafLinks(volume, loc, Encoded(bytes, leaves[i]), nodes[i], LinkAfter(nodes, i + 1));
  }

  /** The reader visits exactly the stored leaves, in order. */
  lemma {:induction false} StoredVisits<T>(
    volume: Volume, loc: CatalogLoc, bytes: T -> Bytes, leaves: seq<seq<T>>, nodes: seq<u32>)
    requires StoresChain(volume, loc, bytes, leaves, nodes) && |nodes| <= 65536
    ensures Visits(volume, loc) == nodes
  {
    hide StoresLeaf, Visits, AllFit;
    forall i | 0 <= i < |nodes| ensures Next(volume, loc)(nodes[i]) == Some(LinkAfter(nodes, i + 1)) {
      StoredLink(volume, loc, bytes, leaves, nodes, i);
    }
    VisitsIsTheLeafWalk(volume, loc, nodes);
  }

  lemma {:induction false} InFlatten<T>(xss: seq<seq<T>>, i: nat)
    requires i < |xss|
    ensures forall x :: x in xss[i] ==> x in Flatten(xss)
  {
    FlattenSlice(xss, i);
    var at := |Flatten(xss[..i])|;
    assert forall x :: x in Flatten(xss)[at..at + |xss[i]|] ==> x in Flatten(xss);
  }

  /** Lookups that stop at the first hit agree when the pushing ones do. */
  lemma {:induction false} FirstIsHead<A, B>(f: A -> Option<B>, xs: seq<A>)
    ensures FirstSome(f, xs) == if FilterMap(f, xs) == [] then None else Some(FilterMap(f, xs)[0])
  {
    if xs != [] {
      FirstIsHead(f, DropLast(xs));
    }
  }

  lemma {:induction false} SameFirst<A, B, C>(f: A -> Option<C>, xs: seq<A>, g: B -> Option<C>, ys: seq<B>)
    requires FilterMap(f, xs) == FilterMap(g, ys)
    ensures FirstSome(f, xs) == FirstSome(g, ys)
  {
    FirstIsHead(f, xs);
    FirstIsHead(g, ys);
  }
}
