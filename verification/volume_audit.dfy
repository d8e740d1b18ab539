/** The auditor on written volumes: it finds in the bytes what their writer put there. */
module VolumeAudit {
  import opened Wrappers
  import opened Sequences
  import opened ByteOrder
  import opened Utf16
  import opened Chains
  import opened BTree
  import opened Attributes
  import opened Anomalies
  import opened AuditBtree
  import opened Findings
  import opened TreeWriter
  import opened LeafWriter
  import opened AttributeWriter
  import opened VolumeWriter
  import opened VolumeReads
  import opened WholeAudit

  // ---- the auditor is silent about written trees ----------------------------------

  lemma {:induction false} LeafDescriptorIsClean(
    recs: seq<Bytes>, fLink: u32, bLink: u32, nodeSize: nat, node: u32, rule: NodeDetail)
    requires Fits(recs, nodeSize) && 14 <= nodeSize && node != 0 && fLink != node && bLink != node
    ensures !Violates(LeafNodeBytes(recs, fLink, bLink, nodeSize), node, rule)
  {
    var nd := LeafNodeBytes(recs, fLink, bLink, nodeSize);
    assert recs[..|recs|] == recs;
    var after := Flatten(recs) + Zeros(nodeSize - OffsetOf(recs, |recs|) - 2 * |recs|) + OffsetTable(recs, |recs|);
    assert nd == Descriptor(fLink, bLink, |recs|) + after;
    assert nd[0..4] == ToBe32(fLink) && nd[4..8] == ToBe32(bLink);
    ReadBe32(nd, 0, fLink);
    ReadBe32(nd, 4, bLink);
    assert nd[8] == 0xFF && nd[9] == 1;
  }

  lemma {:induction false} HeaderDescriptorIsClean(firstLeaf: u32, nodeSize: u16, rule: NodeDetail)
    requires HEADER_RECORD_END <= nodeSize
    ensures !Violates(HeaderNode(firstLeaf, nodeSize), 0, rule)
  {
    var nd := HeaderNode(firstLeaf, nodeSize);
    assert nd[8] == 1;
  }

  lemma {:induction false} CleanNode(volume: Volume, loc: CatalogLoc, node: u32, tree: Tree)
    requires Walkable(loc) && InBounds(volume, loc, node)
    requires forall rule :: !Violates(NodeBytes(volume, loc, node), node, rule)
    ensures NodeFindings(volume, loc, node, tree) == []
  {
    FilterMapNone(ViolationOf(NodeBytes(volume, loc, node), node, tree), DESCRIPTOR_RULES);
  }

  lemma {:induction false} LeafIsClean(
    volume: Volume, loc: CatalogLoc, recs: seq<Bytes>, node: u32, fLink: u32, bLink: u32, tree: Tree)
    requires Walkable(loc) && InBounds(volume, loc, node) && node != 0 && fLink != node && bLink != node
    requires Fits(recs, loc.nodeSize) && NodeBytes(volume, loc, node) == LeafNodeBytes(recs, fLink, bLink, loc.nodeSize)
    ensures NodeFindings(volume, loc, node, tree) == []
  {
    hide Violates, LeafNodeBytes;
    forall rule ensures !Violates(NodeBytes(volume, loc, node), node, rule) {
      LeafDescriptorIsClean(recs, fLink, bLink, loc.nodeSize, node, rule);
    }
    CleanNode(volume, loc, node, tree);
  }

  lemma {:induction false} CollectedNothing<T>(next: Successor, f: u32 -> seq<T>, start: u32, d: nat)
    requires forall n :: n in Entered(next, start, d) ==> f(n) == []
    ensures Collected(next, f, start, d) == []
  {
    if Collected(next, f, start, d) != [] {
      var t := Collected(next, f, start, d)[0];
      CollectedMember(next, f, start, d, t);
    }
  }

  /** A tree whose chain visits distinct nodes, all of them clean, audits silently. */
  lemma {:induction false} CleanTree(volume: Volume, loc: CatalogLoc, tree: Tree)
    requires Walkable(loc) && Distinct(Visits(volume, loc)) && NodeFindings(volume, loc, 0, tree) == []
    requires forall n :: n in Visits(volume, loc) ==> NodeFindings(volume, loc, n, tree) == []
    ensures TreeFindings(volume, loc, tree) == []
  {
    hide NodeFindings;
    var next, f, start := Next(volume, loc), FindingsAt(volume, loc, tree), loc.firstLeaf;
    AuditorAgreesWithReader(volume, loc, tree);
    TreeLoops(volume, loc, tree);
    CollectedNothing(next, f, start, FreshSteps(next, start, MAX_LEAF_NODES));
  }

  lemma {:induction false} LaidOutLeafIsClean<T>(
    volume: Volume, loc: CatalogLoc, bytes: T -> Bytes, leaves: seq<seq<T>>, nodeSize: u16, i: nat)
    requires LaidOut(volume, loc, bytes, leaves, nodeSize) && i < |leaves|
    ensures NodeFindings(volume, loc, NodeNumbers(|leaves|)[i], CatalogTree) == []
  {
    hide LeafNodeBytes, NodeFindings, HeaderNode, NodeBytes, InBounds, Encoded, Fits;
    assert LeafAt(volume, loc, bytes, leaves, nodeSize, i);
    var nodes := NodeNumbers(|leaves|);
    LeafIsClean(volume, loc, Encoded(bytes, leaves[i]), nodes[i], LinkAfter(nodes, i + 1), i, CatalogTree);
  }

  lemma {:induction false} LaidOutNodesAreClean<T>(
    volume: Volume, loc: CatalogLoc, bytes: T -> Bytes, leaves: seq<seq<T>>, nodeSize: u16)
    requires LaidOut(volume, loc, bytes, leaves, nodeSize)
    ensures NodeFindings(volume, loc, 0, CatalogTree) == []
    ensures forall n :: n in NodeNumbers(|leaves|) ==> NodeFindings(volume, loc, n, CatalogTree) == []
  {
    hide NodeFindings, HeaderNode, Violates, LeafAt, AllFit;
    forall n | n in NodeNumbers(|leaves|) ensures NodeFindings(volume, loc, n, CatalogTree) == [] {
      var i :| 0 <= i < |leaves| && NodeNumbers(|leaves|)[i] == n;
      LaidOutLeafIsClean(volume, loc, bytes, leaves, nodeSize, i);
    }
    forall rule ensures !Violates(NodeBytes(volume, loc, 0), 0, rule) {
      HeaderDescriptorIsClean(FirstLeaf(|leaves|), nodeSize, rule);
    }
    CleanNode(volume, loc, 0, CatalogTree);
  }

  /** No false alarm: the auditor has nothing to say about the catalog tree of a written
      volume, and the reader visits each of its leaves once. */
  lemma {:induction false} WrittenTreeAuditsClean<T>(
    h: VolumeHeader, gap: Bytes, bytes: T -> Bytes, leaves: seq<seq<T>>, nodeSize: u16, content: Bytes)
    requires Writable(h, gap, bytes, leaves, nodeSize, content)
    ensures var volume, loc := VolumeBytes(h, gap, bytes, leaves, nodeSize, content), WrittenLoc(h, |leaves|, nodeSize);
      && LocateCatalog(volume) == Some(loc)
      && Visits(volume, loc) == NodeNumbers(|leaves|)
      && TreeFindings(volume, loc, CatalogTree) == []
  {
    hide VolumeBytes, TreeFindings, NodeFindings, LocateBtree, AllFit, StoresChain, Visits, TreeOf, HeaderBytes,
      LaidOut;
    CatalogIsLocated(h, gap, bytes, leaves, nodeSize, content);
    ChainIsStored(h, gap, bytes, leaves, nodeSize, content);
    WrittenIsLaidOut(h, gap, bytes, leaves, nodeSize, content);
    var v, loc := VolumeBytes(h, gap, bytes, leaves, nodeSize, content), WrittenLoc(h, |leaves|, nodeSize);
    StoredVisits(v, loc, bytes, leaves, NodeNumbers(|leaves|));
    LaidOutNodesAreClean(v, loc, bytes, leaves, nodeSize);
    CleanTree(v, loc, CatalogTree);
  }

  // ---- what the auditor's node check leaves out -------------------------------------

  const STRAY: u32 := 9

  /** A leaf that claims height 5 and links to node 9. */
  function StrayLeaf(nodeSize: u16): (nd: Bytes)
    requires HEADER_RECORD_END <= nodeSize
    ensures |nd| == nodeSize
  {
    ToBe32(STRAY) + ToBe32(0) + [0xFF, 5] + Zeros(nodeSize - 10)
  }

  const STRAY_HEADER: VolumeHeader :=
    VolumeHeader(0x482B, 0, 512, TreeFork(0, 0), TreeFork(1, 3), TreeFork(0, 0))

  /** A volume whose catalog is a header node and that leaf. */
  ghost function StrayVolume(nodeSize: u16): (v: Volume)
    requires HEADER_RECORD_END <= nodeSize
    ensures |v| == HEADER_END + 2 * nodeSize
  {
    HeaderBytes(STRAY_HEADER) + HeaderNode(1, nodeSize) + StrayLeaf(nodeSize)
  }

  ghost function StrayLoc(nodeSize: u16): CatalogLoc {
    CatalogLoc(1536, nodeSize, 1, 512)
  }

  lemma {:induction false} StrayNodes(nodeSize: u16)
    requires HEADER_RECORD_END <= nodeSize
    ensures var v, loc := StrayVolume(nodeSize), StrayLoc(nodeSize);
      && LocateCatalog(v) == Some(loc) && LocateExtents(v) == None
      && InBounds(v, loc, 0) && NodeBytes(v, loc, 0) == HeaderNode(1, nodeSize)
      && InBounds(v, loc, 1) && NodeBytes(v, loc, 1) == StrayLeaf(nodeSize)
      && !InBounds(v, loc, STRAY)
  {
    hide HeaderBytes, HeaderNode, StrayLeaf, LocateCatalog, LocateExtents;
    var front, node, leaf := HeaderBytes(STRAY_HEADER), HeaderNode(1, nodeSize), StrayLeaf(nodeSize);
    AppendIsAssociative(front, node, leaf);
    HeadersLocate(STRAY_HEADER, node + leaf);
    HeaderNodeReads(front, 1, nodeSize, leaf);
    HoldsBehind(front, node, leaf);
    HoldsBehind(front + node, leaf, []);
    assert StrayVolume(nodeSize) + [] == StrayVolume(nodeSize);
  }

  lemma {:induction false} StrayLeafIsClean(nodeSize: u16, rule: NodeDetail)
    requires HEADER_RECORD_END <= nodeSize
    ensures !Violates(StrayLeaf(nodeSize), 1, rule)
    ensures Be32(StrayLeaf(nodeSize), 0) == STRAY && StrayLeaf(nodeSize)[8..10] == [0xFF, 5]
    ensures NodeRecords(StrayLeaf(nodeSize)) == []
  {
    var nd := StrayLeaf(nodeSize);
    assert nd[0..4] == ToBe32(STRAY) && nd[4..8] == ToBe32(0);
    ReadBe32(nd, 0, STRAY);
    ReadBe32(nd, 4, 0);
    assert nd[10] == 0 && nd[11] == 0;
  }

  lemma {:induction false} StrayWalk(nodeSize: u16)
    requires HEADER_RECORD_END <= nodeSize
    ensures var v, loc := StrayVolume(nodeSize), StrayLoc(nodeSize);
      Visits(v, loc) == [1] && Records(v, loc) == []
  {
    hide StrayLeaf, StrayVolume, InBounds, NodeRecords, LocateCatalog, LocateExtents, Entered, Collected;
    var v, loc := StrayVolume(nodeSize), StrayLoc(nodeSize);
    StrayNodes(nodeSize);
    StrayLeafIsClean(nodeSize, ChainLoopsBack);
    WalkIsUnique(Next(v, loc), 1, MAX_LEAF_NODES, [1]);
    CollectedNothing(Next(v, loc), RecordsAt(v, loc), 1, MAX_LEAF_NODES);
  }

  /** The documented conditions "a leaf at a leaf's height" and "links inside the tree"
      are not checked: a located volume that breaks both audits without any finding. */
  lemma {:induction false} StrayLinkAndHeightPass(nodeSize: u16)
    requires HEADER_RECORD_END <= nodeSize
    ensures var v, loc := StrayVolume(nodeSize), StrayLoc(nodeSize);
      && LocateCatalog(v) == Some(loc) && Visits(v, loc) == [1] && InBounds(v, loc, 1)
      && NodeBytes(v, loc, 1)[8..10] == [0xFF, 5]
      && Be32(NodeBytes(v, loc, 1), 0) == STRAY && !InBounds(v, loc, STRAY)
      && AuditFindings(v) == []
  {
    hide StrayVolume, HeaderNode, StrayLeaf, InBounds, Violates, TreeFindings, LocateCatalog, LocateExtents, Visits,
      Records;
    var v, loc := StrayVolume(nodeSize), StrayLoc(nodeSize);
    StrayNodes(nodeSize);
    StrayWalk(nodeSize);
    forall rule ensures !Violates(NodeBytes(v, loc, 0), 0, rule) && !Violates(NodeBytes(v, loc, 1), 1, rule) {
      HeaderDescriptorIsClean(1, nodeSize, rule);
      StrayLeafIsClean(nodeSize, rule);
    }
    StrayLeafIsClean(nodeSize, ChainLoopsBack);
    CleanNode(v, loc, 0, CatalogTree);
    CleanNode(v, loc, 1, CatalogTree);
    CleanTree(v, loc, CatalogTree);
  }

  // ---- the whole audit of a written volume -----------------------------------------

  lemma {:induction false} RecordsForAudit(volume: Volume, blockSize: u32, items: seq<Item>)
    requires StoresCatalog(volume, blockSize, items) && AllComplete(items)
    ensures var recs := Records(volume, LocateCatalog(volume).value);
      && FilterMap(FileRecordOf(), recs) == FilterMap(ItemFileOf(), items)
      && FilterMap(EntryCnidOf(), recs) == FilterMap(ItemCnidOf(), items)
      && FilterMap(ThreadRecordOf(), recs) == FilterMap(ItemThreadOf(), items)
  {
    hide LocateBtree, StoresChain, ReadsAs, Records, Complete, FilterMap;
    hide FileRecordOf, EntryCnidOf, ThreadRecordOf, ItemFileOf, ItemCnidOf, ItemThreadOf;
    var loc := LocateCatalog(volume).value;
    var leaves: seq<seq<Item>>, nodes: seq<u32> :| CatalogChain(volume, loc, leaves, nodes) && items == Flatten(leaves);
    forall item | item in items
      ensures ReadsAs(ItemBytes, FileRecordOf(), ItemFileOf(), item)
      ensures ReadsAs(ItemBytes, EntryCnidOf(), ItemCnidOf(), item)
      ensures ReadsAs(ItemBytes, ThreadRecordOf(), ItemThreadOf(), item)
    {
      FilesRead(item);
      CnidsRead(item);
      ThreadsRead(item);
    }
    RecordsReadBack(volume, loc, ItemBytes, leaves, nodes, FileRecordOf(), ItemFileOf());
    RecordsReadBack(volume, loc, ItemBytes, leaves, nodes, EntryCnidOf(), ItemCnidOf());
    RecordsReadBack(volume, loc, ItemBytes, leaves, nodes, ThreadRecordOf(), ItemThreadOf());
  }

  /** An audit of a stored catalog reports of its threads and files what the written
      records say: the findings behind those of the trees are the written threads against
      the written CNIDs, and then the written files one by one. */
  lemma {:induction false} AuditReadsBack(volume: Volume, blockSize: u32, items: seq<Item>)
    requires StoresCatalog(volume, blockSize, items) && AllComplete(items)
    ensures var loc := LocateCatalog(volume).value;
      AuditFindings(volume)
      == TreesFindings(volume, loc)
         + FilterMap(DanglingOf(FilterMap(ItemCnidOf(), items)), FilterMap(ItemThreadOf(), items))
         + FileFindings(volume, ScopeOf(volume, loc), FilterMap(ItemFileOf(), items))
  {
    hide LocateBtree, Records, TreesFindings, FileFindings, FilterMap, AllComplete, ScopeOf, DanglingOf, StoresChain;
    hide FileRecordOf, EntryCnidOf, ThreadRecordOf, ItemFileOf, ItemCnidOf, ItemThreadOf;
    RecordsForAudit(volume, blockSize, items);
  }

  /** A thread record without the file or folder it names. */
  ghost predicate Dangles(items: seq<Item>, item: Item) {
    && item.body.ThreadTo?
    && forall other :: other in items && !other.body.ThreadTo? ==> other.body.cnid != item.parent
  }

  lemma {:induction false} CnidIsWritten(items: seq<Item>, cnid: u32)
    ensures cnid in FilterMap(ItemCnidOf(), items) <==>
      exists other :: other in items && !other.body.ThreadTo? && other.body.cnid == cnid
  {
    hide FilterMap;
    FilterMapMember(ItemCnidOf(), items, cnid);
    if other :| other in items && !other.body.ThreadTo? && other.body.cnid == cnid {
      var i :| 0 <= i < |items| && items[i] == other;
      assert ItemCnidOf()(items[i]) == Some(cnid);
    }
  }

  lemma {:induction false} DanglingItems(items: seq<Item>)
    ensures FilterMap(DanglingOf(FilterMap(ItemCnidOf(), items)), FilterMap(ItemThreadOf(), items)) == []
       <==> forall item :: item in items ==> !Dangles(items, item)
  {
    hide FilterMap, ItemCnidOf, DecodeUtf16;
    var cnids, threads := FilterMap(ItemCnidOf(), items), FilterMap(ItemThreadOf(), items);
    var f := DanglingOf(cnids);
    if item :| item in items && Dangles(items, item) {
      CnidIsWritten(items, item.parent);
      var i :| 0 <= i < |items| && items[i] == item;
      var t := ItemThreadOf()(item).value;
      FilterMapMember(ItemThreadOf(), items, t);
      var j :| 0 <= j < |threads| && threads[j] == t;
      FilterMapMember(f, threads, f(t).value);
    }
    if FilterMap(f, threads) != [] {
      var a := FilterMap(f, threads)[0];
      FilterMapMember(f, threads, a);
      var j :| 0 <= j < |threads| && f(threads[j]) == Some(a);
      FilterMapMember(ItemThreadOf(), items, threads[j]);
      var i :| 0 <= i < |items| && ItemThreadOf()(items[i]) == Some(threads[j]);
      CnidIsWritten(items, items[i].parent);
      assert Dangles(items, items[i]);
    }
  }

  /** A written file in which none of the three checks finds anything: its times pass, its
      blocks cover its size, and what its compression attribute promises is there. */
  ghost predicate Sound(h: VolumeHeader, attrs: seq<Attr>, f: CatalogFile)
    requires h.blockSize > 0
  {
    && TimesPass(f.create, f.contentMod, h.modified)
    && (f.inlineBlocks == U32_MAX || f.inlineBlocks * h.blockSize >= f.logical)
    && match CompressionOf(attrs, f.cnid)
       case None => true
       case Some(xattr) => PayloadIsThere(xattr, f)
  }

  lemma {:induction false} SoundFile(volume: Volume, h: VolumeHeader, attrs: seq<Attr>, f: CatalogFile)
    requires StoresAttributes(volume, attrs) && h.blockSize > 0
    ensures FindingsOfFile(volume, Scope(h.modified, h.blockSize, None), f) == [] <==> Sound(h, attrs, f)
  {
    hide StoresAttributes, DecmpfsAttribute, PayloadProblem, PayloadIsThere, TimesPass, CompressionOf, TimeProblem;
    DecmpfsReadsBack(volume, f.cnid, attrs);
    TimesPassExactly(f, h.modified);
    EnoughBlocks(f.logical, h.blockSize, f.inlineBlocks);
    if DecmpfsAttribute(volume, f.cnid).Some? {
      PayloadIsThereExactly(DecmpfsAttribute(volume, f.cnid).value, f);
    }
  }

  lemma {:induction false} SoundFiles(volume: Volume, h: VolumeHeader, attrs: seq<Attr>, files: seq<CatalogFile>)
    requires StoresAttributes(volume, attrs) && h.blockSize > 0
    ensures FileFindings(volume, Scope(h.modified, h.blockSize, None), files) == []
       <==> forall f :: f in files ==> Sound(h, attrs, f)
  {
    hide FindingsOfFile, Sound, StoresAttributes;
    if files != [] {
      SoundFiles(volume, h, attrs, DropLast(files));
      SoundFile(volume, h, attrs, Last(files));
      assert files == DropLast(files) + [Last(files)];
    }
  }

  lemma {:induction false} WrittenScope(
    h: VolumeHeader, gap: Bytes, leaves: seq<seq<Item>>, nodeSize: u16, content: Bytes)
    requires Writable(h, gap, ItemBytes, leaves, nodeSize, content) && h.extents.totalBlocks == 0
    ensures var v, loc := VolumeBytes(h, gap, ItemBytes, leaves, nodeSize, content), WrittenLoc(h, |leaves|, nodeSize);
      && LocateCatalog(v) == Some(loc) && LocateExtents(v) == None
      && ScopeOf(v, loc) == Scope(h.modified, h.blockSize, None)
  {
    hide HeaderBytes, VolumeBytes, LocateCatalog, LocateExtents, LocateAttributes, Be32, Holds;
    var v := VolumeBytes(h, gap, ItemBytes, leaves, nodeSize, content);
    CatalogIsLocated(h, gap, ItemBytes, leaves, nodeSize, content);
    assert v == HeaderBytes(h) + v[HEADER_END..];
    HeaderHolds(h, v[HEADER_END..]);
    ReadBe32(v, 1044, h.modified);
  }

  /** Neither false alarm nor oversight: the audit of a written volume without an overflow
      tree is empty exactly when every written thread has its file or folder and every
      written file is sound. */
  lemma {:induction false} AuditsCleanExactly(
    h: VolumeHeader, gap: Bytes, leaves: seq<seq<Item>>, nodeSize: u16, content: Bytes, attrs: seq<Attr>)
    requires Writable(h, gap, ItemBytes, leaves, nodeSize, content) && AllComplete(Flatten(leaves))
    requires h.extents.totalBlocks == 0
    ensures var volume, items := VolumeBytes(h, gap, ItemBytes, leaves, nodeSize, content), Flatten(leaves);
      StoresAttributes(volume, attrs) ==>
        (AuditFindings(volume) == [] <==>
         && (forall item :: item in items ==> !Dangles(items, item))
         && (forall f :: f in FilterMap(ItemFileOf(), items) ==> Sound(h, attrs, f)))
  {
    hide VolumeBytes, AuditFindings, FileFindings, FilterMap, AllComplete, LocateBtree, AllFit, Dangles, Sound,
      StoresAttributes, StoresCatalog, TreeFindings, ScopeOf;
    var volume := VolumeBytes(h, gap, ItemBytes, leaves, nodeSize, content);
    WrittenVolumeStores(h, gap, leaves, nodeSize, content);
    WrittenScope(h, gap, leaves, nodeSize, content);
    WrittenTreeAuditsClean(h, gap, ItemBytes, leaves, nodeSize, content);
    AuditReadsBack(volume, h.blockSize, Flatten(leaves));
    DanglingItems(Flatten(leaves));
    if StoresAttributes(volume, attrs) {
      SoundFiles(volume, h, attrs, FilterMap(ItemFileOf(), Flatten(leaves)));
    }
  }
}
