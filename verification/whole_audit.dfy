/** What a whole audit reports, finding by finding, in terms of the volume's bytes. */
module WholeAudit {
  import opened Wrappers
  import opened Sequences
  import opened ByteOrder
  import opened Chains
  import opened BTree
  import opened Attributes
  import opened Anomalies
  import opened AuditBtree
  import opened Findings
  import opened AuditorSoundness

  // ---- trees -------------------------------------------------------------------------

  /** The tree is there to be audited: the extents tree only beside a catalog. */
  function Audited(volume: Volume, tree: Tree): Option<CatalogLoc> {
    match tree
    case CatalogTree => LocateCatalog(volume)
    case ExtentsTree => if LocateCatalog(volume).Some? then LocateExtents(volume) else None
  }

  /** What TN1150 rules out for node `n`, in the bytes of its descriptor. */
  ghost predicate Breaks(nd: Bytes, n: u32, rule: NodeDetail)
    requires 14 <= |nd|
  {
    match rule
    case UndocumentedKind => nd[8] !in {0xFF, 0, 1, 2}
    case LeafAtHeightZero => nd[8] == 0xFF && nd[9] == 0
    case HeaderKindElsewhere => nd[8] == 1 && n != 0
    case LinksToItself => n != 0 && (nd[0..4] == ToBe32(n) || nd[4..8] == ToBe32(n))
    case ChainLoopsBack => false
  }

  lemma {:induction false} ViolatingIsBreaking(nd: Bytes, n: u32, rule: NodeDetail)
    requires 14 <= |nd|
    ensures Violates(nd, n, rule) <==> Breaks(nd, n, rule)
  {
    if nd[0..4] == ToBe32(n) {
      ReadBe32(nd, 0, n);
    }
    if nd[4..8] == ToBe32(n) {
      ReadBe32(nd, 4, n);
    }
    WordIsItsBytes(nd, 0);
    WordIsItsBytes(nd, 4);
  }

  lemma {:induction false} WordIsItsBytes(b: Bytes, off: nat)
    requires off + 4 <= |b|
    ensures b[off..off + 4] == ToBe32(Be32(b, off))
  {
    var hi: int, lo: int := Be16(b, off) as int, Be16(b, off + 2) as int;
    assert Be32(b, off) / 0x1_0000 == hi && Be32(b, off) % 0x1_0000 == lo;
    assert ToBe16(hi) == b[off..off + 2] && ToBe16(lo) == b[off + 2..off + 4];
  }

  lemma {:induction false} TreeFindingsStay(volume: Volume, tree: Tree, other: Tree, n: u32, rule: NodeDetail)
    requires Audited(volume, other).Some? && tree != other
    ensures BtreeNodeInvalid(tree, n, rule) !in TreeFindings(volume, Audited(volume, other).value, other)
  {
    hide NodeFindings;
    var loc, a := Audited(volume, other).value, BtreeNodeInvalid(tree, n, rule);
    var next, f := Next(volume, loc), FindingsAt(volume, loc, other);
    var d := FreshSteps(next, loc.firstLeaf, MAX_LEAF_NODES);
    NodeFindingsStay(volume, loc, 0, tree, other, n, rule);
    CollectedMember(next, f, loc.firstLeaf, d, a);
    if m: u32 :| m in Entered(next, loc.firstLeaf, d) && a in f(m) {
      NodeFindingsStay(volume, loc, m, tree, other, n, rule);
    }
  }

  lemma {:induction false} NodeFindingsStay(
    volume: Volume, loc: CatalogLoc, m: u32, tree: Tree, other: Tree, n: u32, rule: NodeDetail)
    requires Walkable(loc) && tree != other
    ensures BtreeNodeInvalid(tree, n, rule) !in NodeFindings(volume, loc, m, other)
  {
    if InBounds(volume, loc, m) {
      FilterMapMember(ViolationOf(NodeBytes(volume, loc, m), m, other), DESCRIPTOR_RULES,
                      BtreeNodeInvalid(tree, n, rule));
    }
  }

  /** A whole audit says of a tree what the audit of that tree says, and nothing else. */
  lemma {:induction false} AuditOfTree(volume: Volume, tree: Tree, n: u32, rule: NodeDetail)
    ensures BtreeNodeInvalid(tree, n, rule) in AuditFindings(volume)
       <==> Audited(volume, tree).Some?
            && BtreeNodeInvalid(tree, n, rule) in TreeFindings(volume, Audited(volume, tree).value, tree)
  {
    hide TreeFindings, ThreadFindings, FindingsOfFile, FileFindings, LocateBtree, Records;
    var a, located := BtreeNodeInvalid(tree, n, rule), LocateCatalog(volume);
    if located.Some? {
      var loc, scope := located.value, ScopeOf(volume, located.value);
      var recs := Records(volume, loc);
      var files := FilterMap(FileRecordOf(), recs);
      FileFindingsMember(volume, scope, files, a);
      if f :| f in files && a in FindingsOfFile(volume, scope, f) {
        FindingsOfFileAreAboutFiles(volume, scope, f, a);
      }
      if a in ThreadFindings(recs) {
        ThreadFindingsAreDeletions(recs, a);
      }
      if tree == ExtentsTree {
        TreeFindingsStay(volume, tree, CatalogTree, n, rule);
      } else if LocateExtents(volume).Some? {
        TreeFindingsStay(volume, tree, ExtentsTree, n, rule);
      }
    }
  }

  /** Node `n` of a tree, cut out of the volume: its descriptor breaks the rule. */
  ghost predicate BreaksAt(volume: Volume, loc: CatalogLoc, n: u32, rule: NodeDetail) {
    var at: nat := loc.catBase + n as nat * loc.nodeSize;
    14 <= loc.nodeSize && at + loc.nodeSize <= |volume| && Breaks(volume[at..at + loc.nodeSize], n, rule)
  }

  /** A whole audit reports a descriptor rule for a node of a located tree exactly when
      the node is node 0 or one the reader visits, lies in the volume, and breaks it; and
      it reports a loop exactly for the first node the reader comes back to. */
  lemma {:induction false} TreeReportsExactly(volume: Volume, tree: Tree, n: u32, rule: NodeDetail)
    ensures BtreeNodeInvalid(tree, n, rule) in AuditFindings(volume) <==>
      match Audited(volume, tree)
      case None => false
      case Some(loc) =>
        if rule == ChainLoopsBack then FirstRepeat(Visits(volume, loc), n)
        else (n == 0 || n in Visits(volume, loc)) && BreaksAt(volume, loc, n, rule)
  {
    hide TreeFindings, AuditFindings, Violates, Breaks, LocateBtree, FirstRepeat, Visits;
    AuditOfTree(volume, tree, n, rule);
    var located := Audited(volume, tree);
    if located.Some? {
      var loc := located.value;
      if rule == ChainLoopsBack {
        LoopFindingExact(volume, loc, tree, n);
      } else {
        TreeFindingsExact(volume, loc, tree, n, rule);
        if InBounds(volume, loc, n) {
          ViolatingIsBreaking(NodeBytes(volume, loc, n), n, rule);
        }
      }
    }
  }

  // ---- files ---------------------------------------------------------------------------

  /** Each time is unset or not before 1970, they are in order, and none is later than the
      last write of a volume that records one. */
  ghost predicate TimesPass(create: u32, contentMod: u32, volumeModify: u32) {
    && (create == 0 || 2082844800 <= create)
    && (contentMod == 0 || (2082844800 <= contentMod && create <= contentMod))
    && (volumeModify == 0 || (create <= volumeModify && contentMod <= volumeModify))
  }

  lemma {:induction false} TimesPassExactly(f: CatalogFile, volumeModify: u32)
    ensures TimeFindings(f, volumeModify) == [] <==> TimesPass(f.create, f.contentMod, volumeModify)
  {
  }

  /** The relation `t` is the first that fails. */
  ghost predicate TimeFails(create: u32, contentMod: u32, volumeModify: u32, t: TimeDetail) {
    var ordered := contentMod == 0 || create <= contentMod;
    var tooOld, tooNew := (s: u32) => 0 < s < 2082844800, (s: u32) => 0 < volumeModify < s;
    match t
    case ModifiedBeforeCreation => !ordered
    case BeforeBoundary(Creation) => ordered && tooOld(create)
    case BeforeBoundary(ContentModification) => ordered && !tooOld(create) && tooOld(contentMod)
    case AfterVolume(Creation) => ordered && !tooOld(create) && !tooOld(contentMod) && tooNew(create)
    case AfterVolume(ContentModification) =>
      ordered && !tooOld(create) && !tooOld(contentMod) && !tooNew(create) && tooNew(contentMod)
  }

  /** What a type promises is there: bytes behind the header of an inline type, blocks and
      a size of the resource fork of the others. */
  ghost predicate PayloadIsThere(xattr: Bytes, f: CatalogFile) {
    && 16 <= |xattr|
    && var kind := Le32(xattr, 4);
    || (kind in {1, 3, 7, 9, 11, 13} && |xattr| > 16)
    || (kind in {4, 8, 10, 12, 14} && f.hasResourceFork && f.resourceLogical > 0 && f.resourceBlocks > 0)
  }

  ghost predicate PayloadFails(xattr: Bytes, f: CatalogFile, kind: u32, problem: PayloadDetail) {
    if |xattr| < 16 then kind == 0 && problem == ShortHeader
    else
      && kind == Le32(xattr, 4)
      && match problem
         case ShortHeader => false
         case UndocumentedType => kind !in {1, 3, 4, 7, 8, 9, 10, 11, 12, 13, 14}
         case EmptyResourceFork => kind in {4, 8, 10, 12, 14} && (!f.hasResourceFork || f.resourceLogical == 0)
         case ResourceWithoutBlocks =>
           kind in {4, 8, 10, 12, 14} && f.hasResourceFork && f.resourceLogical > 0 && f.resourceBlocks == 0
         case NoInlinePayload => kind in {1, 3, 7, 9, 11, 13} && |xattr| == 16
  }

  lemma {:induction false} PayloadIsThereExactly(xattr: Bytes, f: CatalogFile)
    ensures PayloadProblem(xattr, f) == None <==> PayloadIsThere(xattr, f)
  {
  }

  /** Blocks enough for a size, up to the cap that the auditor counts to. */
  lemma {:induction false} EnoughBlocks(logical: u64, blockSize: u32, blocks: u32)
    requires blockSize > 0
    ensures blocks >= NeededBlocks(logical, blockSize) <==> blocks == U32_MAX || blocks * blockSize >= logical
  {
    CeilDivIsEnough(logical, blockSize, blocks);
  }

  /** The blocks of a file's data fork that the volume records, up to the cap: those of its
      own extents and, when its slots are full, those of the overflow tree. */
  ghost function RecordedBlocks(volume: Volume, f: CatalogFile): nat {
    var beyond := match LocateExtents(volume)
      case Some(ext) => if f.extentsFull then OverflowTotal(Records(volume, ext), f.cnid, 0) else 0
      case None => 0;
    Min(f.inlineBlocks + beyond, 0xFFFF_FFFF)
  }

  /** The file record `f` of a volume deserves the finding `a`. */
  ghost predicate Deserves(volume: Volume, blockSize: u32, f: CatalogFile, a: Anomaly)
    requires |volume| >= 1048 && blockSize > 0
  {
    match a
    case TimeAnomaly(cnid, name, t) =>
      cnid == f.cnid && name == f.name && TimeFails(f.create, f.contentMod, Be32(volume, 1044), t)
    case CatalogExtentsMismatch(cnid, name, logical, blocks, needed) =>
      && cnid == f.cnid && name == f.name && logical == f.logical && blocks == RecordedBlocks(volume, f)
      && blocks < needed == Min((f.logical + blockSize - 1) / blockSize, 0xFFFF_FFFF)
    case DecmpfsMissingResource(cnid, name, kind, problem) =>
      && cnid == f.cnid && name == f.name && DecmpfsAttribute(volume, cnid).Some?
      && PayloadFails(DecmpfsAttribute(volume, cnid).value, f, kind, problem)
    case _ => false
  }

  lemma {:induction false} RoundedUp(a: nat, b: nat)
    requires b > 0
    ensures CeilDiv(a, b) == (a + b - 1) / b
  {
    var q, r := a / b, a % b;
    assert a == q * b + r;
    if r == 0 {
      QuotientIs(a + b - 1, b, q, b - 1);
    } else {
      assert (q + 1) * b == q * b + b;
      QuotientIs(a + b - 1, b, q + 1, r - 1);
    }
  }

  lemma {:induction false} QuotientIs(n: nat, b: nat, q: nat, r: nat)
    requires b > 0 && n == q * b + r && r < b
    ensures n / b == q
  {
    var d := n / b;
    assert n == d * b + n % b;
    assert (d + 1) * b == d * b + b && (q + 1) * b == q * b + b;
    if d < q {
      MulMonotone(d + 1, q, b);
    } else if q < d {
      MulMonotone(q + 1, d, b);
    }
  }

  lemma {:induction false} TimeDeserved(f: CatalogFile, volumeModify: u32, t: TimeDetail)
    ensures TimeProblem(f, volumeModify) == Some(t) <==> TimeFails(f.create, f.contentMod, volumeModify, t)
  {
  }

  lemma {:induction false} PayloadDeserved(xattr: Bytes, f: CatalogFile, kind: u32, problem: PayloadDetail)
    ensures PayloadProblem(xattr, f) == Some((kind, problem)) <==> PayloadFails(xattr, f, kind, problem)
  {
  }

  lemma {:induction false} FileDeserves(volume: Volume, scope: Scope, f: CatalogFile, a: Anomaly)
    requires |volume| >= 1048 && 0 < scope.blockSize <= U32_MAX && Usable(scope)
    requires scope.volumeModify == Be32(volume, 1044) && scope.ext == LocateExtents(volume)
    ensures a in FindingsOfFile(volume, scope, f) <==> Deserves(volume, scope.blockSize, f, a)
  {
    hide TimeProblem, PayloadProblem, PayloadFails, TimeFails, OverflowTotal, LocateBtree, DecmpfsAttribute, Be32;
    RoundedUp(f.logical, scope.blockSize);
    match a {
      case TimeAnomaly(cnid, name, t) => TimeDeserved(f, scope.volumeModify, t);
      case DecmpfsMissingResource(cnid, name, kind, problem) =>
        if DecmpfsAttribute(volume, f.cnid).Some? {
          PayloadDeserved(DecmpfsAttribute(volume, f.cnid).value, f, kind, problem);
        }
      case _ =>
    }
  }

  /** A whole audit reports about files exactly what a file record of the catalog deserves. */
  lemma {:induction false} FileReportsExactly(volume: Volume, a: Anomaly)
    requires IsAboutFile(a)
    ensures a in AuditFindings(volume) <==>
      match LocateCatalog(volume)
      case None => false
      case Some(loc) =>
        exists f :: f in FilterMap(FileRecordOf(), Records(volume, loc)) && Deserves(volume, loc.blockSize, f, a)
  {
    hide FindingsOfFile, Deserves, Records, FilterMap, Be32;
    var located := LocateCatalog(volume);
    if located.Some? {
      var loc := located.value;
      AuditOfFiles(volume, loc, a);
      forall f | f in FilterMap(FileRecordOf(), Records(volume, loc))
        ensures a in FindingsOfFile(volume, ScopeOf(volume, loc), f) <==> Deserves(volume, loc.blockSize, f, a)
      {
        FileDeserves(volume, ScopeOf(volume, loc), f, a);
      }
    }
  }

  // ---- the order of the report ---------------------------------------------------------

  function Rank(a: Anomaly): nat {
    match a
    case BtreeNodeInvalid(CatalogTree, _, _) => 0
    case BtreeNodeInvalid(ExtentsTree, _, _) => 1
    case DeletedButReferenced(_, _, _) => 2
    case TimeAnomaly(_, _, _) => 3
    case CatalogExtentsMismatch(_, _, _, _, _) => 3
    case DecmpfsMissingResource(_, _, _, _) => 3
  }

  ghost predicate Ordered(found: seq<Anomaly>) {
    forall i, j :: 0 <= i < j < |found| ==> Rank(found[i]) <= Rank(found[j])
  }

  lemma {:induction false} OrderedAppend(a: seq<Anomaly>, b: seq<Anomaly>, r: nat)
    requires Ordered(a) && Ordered(b)
    requires forall x :: x in a ==> Rank(x) <= r
    requires forall x :: x in b ==> Rank(x) >= r
    ensures Ordered(a + b)
  {
  }

  lemma {:induction false} OneRank(found: seq<Anomaly>, r: nat)
    requires forall x :: x in found ==> Rank(x) == r
    ensures Ordered(found)
  {
  }

  lemma {:induction false} TreeRank(volume: Volume, tree: Tree)
    requires Audited(volume, tree).Some?
    ensures forall x :: x in TreeFindings(volume, Audited(volume, tree).value, tree) ==>
      Rank(x) == if tree == CatalogTree then 0 else 1
  {
    hide TreeFindings, LocateBtree;
    var loc := Audited(volume, tree).value;
    TreeFindingsAreAboutNodes(volume, loc, tree);
    forall x: Anomaly | x in TreeFindings(volume, loc, tree) ensures x.tree == tree {
      if x.tree != tree {
        TreeFindingsStay(volume, x.tree, tree, x.node, x.detail);
      }
    }
  }

  /** The report begins with the catalog's tree, goes on with the extents tree, then the
      dangling threads, and ends with the files. */
  lemma {:induction false} ReportIsOrdered(volume: Volume)
    ensures Ordered(AuditFindings(volume))
  {
    hide TreeFindings, ThreadFindings, FileFindings, LocateBtree, Records, Rank, Ordered;
    var located := LocateCatalog(volume);
    if located.Some? {
      var loc, recs := located.value, Records(volume, located.value);
      var cat := TreeFindings(volume, loc, CatalogTree);
      var ext := if LocateExtents(volume).Some? then TreeFindings(volume, LocateExtents(volume).value,
        ExtentsTree) else [];
      var threads := ThreadFindings(recs);
      var files := FileFindings(volume, ScopeOf(volume, loc), FilterMap(FileRecordOf(), recs));
      PartsAreRanked(volume, loc, cat, ext, threads, files);
      OrderedAppend(cat, ext, 0);
      OrderedAppend(cat + ext, threads, 1);
      OrderedAppend(cat + ext + threads, files, 2);
      assert AuditFindings(volume) == cat + ext + threads + files;
    } else {
      NothingIsOrdered();
    }
  }

  lemma {:induction false} NothingIsOrdered()
    ensures Ordered([])
  {
  }

  lemma {:induction false} PartsAreRanked(
    volume: Volume, loc: CatalogLoc, cat: seq<Anomaly>, ext: seq<Anomaly>, threads: seq<Anomaly>, files: seq<Anomaly>)
    requires LocateCatalog(volume) == Some(loc) && cat == TreeFindings(volume, loc, CatalogTree)
    requires ext
          == if LocateExtents(volume).Some? then TreeFindings(volume, LocateExtents(volume).value, ExtentsTree) else []
    requires threads == ThreadFindings(Records(volume, loc))
    requires files == FileFindings(volume, ScopeOf(volume, loc), FilterMap(FileRecordOf(), Records(volume, loc)))
    ensures (forall x :: x in cat ==> Rank(x) == 0) && (forall x :: x in ext ==> Rank(x) == 1)
    ensures (forall x :: x in threads ==> Rank(x) == 2) && (forall x :: x in files ==> Rank(x) == 3)
    ensures Ordered(cat) && Ordered(ext) && Ordered(threads) && Ordered(files)
  {
    hide TreeFindings, ThreadFindings, FileFindings, LocateBtree, Records, FindingsOfFile;
    TreeRank(volume, CatalogTree);
    if LocateExtents(volume).Some? {
      TreeRank(volume, ExtentsTree);
    }
    forall x: Anomaly | x in threads ensures Rank(x) == 2 {
      ThreadFindingsAreDeletions(Records(volume, loc), x);
    }
    var scope, list := ScopeOf(volume, loc), FilterMap(FileRecordOf(), Records(volume, loc));
    forall x: Anomaly | x in files ensures Rank(x) == 3 {
      FileFindingsMember(volume, scope, list, x);
      var f :| f in list && x in FindingsOfFile(volume, scope, f);
      FindingsOfFileAreAboutFiles(volume, scope, f, x);
    }
    OneRank(cat, 0);
    OneRank(ext, 1);
    OneRank(threads, 2);
    OneRank(files, 3);
  }

  /** Files are reported in the order of their records, */
  lemma {:induction false} FilesInOrder(volume: Volume, scope: Scope, a: seq<CatalogFile>, b: seq<CatalogFile>)
    requires Usable(scope)
    ensures FileFindings(volume, scope, a + b) == FileFindings(volume, scope, a) + FileFindings(volume, scope, b)
  {
    hide FindingsOfFile;
    if b == [] {
      assert a + b == a;
    } else {
      FilesInOrder(volume, scope, a, DropLast(b));
      assert DropLast(a + b) == a + DropLast(b);
    }
  }

  /** and of one file its times, then its extents, then its payload, each at most once. */
  lemma {:induction false} ChecksInOrder(volume: Volume, scope: Scope, f: CatalogFile, i: nat, j: nat)
    requires Usable(scope) && i < j < |FindingsOfFile(volume, scope, f)|
    ensures var x, y := FindingsOfFile(volume, scope, f)[i], FindingsOfFile(volume, scope, f)[j];
      (x.TimeAnomaly? && !y.TimeAnomaly?) || (x.CatalogExtentsMismatch? && y.DecmpfsMissingResource?)
  {
    hide TimeProblem, PayloadProblem, CoveredBlocks, NeededBlocks;
  }
}
