/** What the auditor's findings mean for the reader, over the same bytes. */
module AuditorSoundness {
  import opened Wrappers
  import opened Sequences
  import opened ByteOrder
  import opened BTree
  import opened Forks
  import opened ExtentMap
  import opened Catalog
  import opened Attributes
  import opened Anomalies
  import opened AuditBtree
  import opened Findings
  import opened Reader
  import Chains
  import Decmpfs
  import LeafWriter

  /** Record `k` is the file record a read of `cnid` selects, and the auditor sees it as `f`. */
  ghost predicate Selects(recs: seq<Bytes>, cnid: u32, k: nat, f: CatalogFile) {
    && k < |recs| && FirstHit(ForksOf(cnid), recs, k)
    && ClassifyRecord(recs[k]) == Some(Entry(cnid, Some(f)))
  }

  lemma {:induction false} SelectedForks(recs: seq<Bytes>, cnid: u32, k: nat, f: CatalogFile)
    requires Selects(recs, cnid, k, f)
    ensures FirstSome(ForksOf(cnid), recs) == FileForks(recs[k], cnid)
    ensures FileForks(recs[k], cnid).Some?
  {
    FirstSomeIsFirstHit(ForksOf(cnid), recs, k);
    assert ForksOf(cnid)(recs[k]) == FileForks(recs[k], cnid);
  }

  /** The auditor's fields are the reader's forks. */
  lemma {:induction false} FieldsAreForks(rec: Bytes, cnid: u32, f: CatalogFile)
    requires FileForks(rec, cnid).Some? && ClassifyRecord(rec) == Some(Entry(cnid, Some(f)))
    ensures var forks := FileForks(rec, cnid).value;
      && f.cnid == cnid
      && f.logical == forks.data.logical
      && f.inlineBlocks == Min(TotalBlocks(forks.data.extents), U32_MAX)
      && (f.extentsFull <==> |forks.data.extents| == EXTENT_SLOTS)
      && f.hasResourceFork == (forks.resource.logical > 0)
      && f.resourceLogical == forks.resource.logical
      && f.resourceBlocks == Min(TotalBlocks(forks.resource.extents), U32_MAX)
  {
    var data := 2 + Be16(rec, 0) as int;
    AuditorReadsTheReadersExtents(rec[data + 88..]);
    AuditorReadsTheReadersExtents(rec[data + 168..]);
    SameBe64(rec, data + 88);
    SameBe64(rec, data + 168);
  }

  // ---- extents: silence means a full read ------------------------------------------

  lemma {:induction false} CeilDivIsEnough(a: nat, b: nat, n: nat)
    requires b > 0
    ensures n >= CeilDiv(a, b) <==> n * b >= a
  {
    var q := a / b;
    assert a == q * b + a % b;
    if n >= q + 1 {
      MulMonotone(q + 1, n, b);
      assert (q + 1) * b == q * b + b;
    } else {
      MulMonotone(n, q, b);
      assert n < q ==> n * b + b <= q * b by {
        if n < q {
          MulMonotone(n + 1, q, b);
          assert (n + 1) * b == n * b + b;
        }
      }
    }
  }

  /** The blocks the catalog record and, when its slots are full, the overflow tree
      allocate to the data fork, without any cap. */
  ghost function Allocated(volume: Volume, ext: Option<CatalogLoc>, f: CatalogFile, fork: Fork): nat
    requires ext.Some? ==> Walkable(ext.value)
  {
    TotalBlocks(fork.extents)
    + if f.extentsFull && ext.Some? then OverflowTotal(Records(volume, ext.value), f.cnid, 0) else 0
  }

  /** For the file record a read selects, outside decmpfs, with every extent inside the
      volume: the read is full exactly when the record's own extents cover the size; the
      auditor reports exactly when those and the overflow extents cover less than the
      need, capped at 32 bits; and a finding always means a short read. */
  lemma {:induction false} ExtentsFindingMeansShortRead(
    codecs: Decmpfs.Codecs, volume: Volume, blockSize: u32, recs: seq<Bytes>, cnid: u32, k: nat, f: CatalogFile,
    ext: Option<CatalogLoc>)
    requires 0 < blockSize && (ext.Some? ==> Walkable(ext.value))
    requires Selects(recs, cnid, k, f)
    requires ExtentsInside(volume, blockSize, SelectedData(recs, cnid, k, f).extents)
    ensures var r := ReadAmong(codecs, volume, blockSize, recs, None, cnid);
      var findings, fork := ExtentFindings(volume, f, blockSize, ext), SelectedData(recs, cnid, k, f);
      var needed := CeilDiv(f.logical, blockSize);
      && r.Some? && |r.value| <= f.logical
      && (|r.value| == f.logical <==> TotalBlocks(fork.extents) >= needed)
      && (findings != [] <==> Allocated(volume, ext, f, fork) < Min(needed, U32_MAX))
      && (findings != [] ==> |r.value| < f.logical)
  {
    hide ClassifyRecord, FileForks, OverflowTotal;
    SelectedForks(recs, cnid, k, f);
    FieldsAreForks(recs[k], cnid, f);
    var fork := SelectedData(recs, cnid, k, f);
    ForkReadsItsBlocks(volume, blockSize, fork);
    CeilDivIsEnough(f.logical, blockSize, TotalBlocks(fork.extents));
  }

  /** The data fork of the selected record. */
  ghost function SelectedData(recs: seq<Bytes>, cnid: u32, k: nat, f: CatalogFile): Fork
    requires Selects(recs, cnid, k, f)
  {
    SelectedForks(recs, cnid, k, f);
    FileForks(recs[k], cnid).value.data
  }

  // ---- what a whole audit says about files -------------------------------------------

  ghost predicate IsAboutFile(a: Anomaly) {
    a.CatalogExtentsMismatch? || a.TimeAnomaly? || a.DecmpfsMissingResource?
  }

  lemma {:induction false} FileFindingsMember(volume: Volume, scope: Scope, files: seq<CatalogFile>, a: Anomaly)
    requires Usable(scope)
    ensures a in FileFindings(volume, scope, files) <==> exists f :: f in files && a in FindingsOfFile(volume, scope, f)
  {
    hide FindingsOfFile;
    if files != [] {
      FileFindingsMember(volume, scope, DropLast(files), a);
      assert files == DropLast(files) + [Last(files)];
    }
  }

  lemma {:induction false} FindingsOfFileAreAboutFiles(volume: Volume, scope: Scope, f: CatalogFile, a: Anomaly)
    requires Usable(scope) && a in FindingsOfFile(volume, scope, f)
    ensures IsAboutFile(a)
  {
    hide PayloadProblem, TimeProblem, CoveredBlocks;
  }

  lemma {:induction false} ThreadFindingsAreDeletions(recs: seq<Bytes>, a: Anomaly)
    requires a in ThreadFindings(recs)
    ensures a.DeletedButReferenced?
  {
    FilterMapMember(DanglingOf(FilterMap(EntryCnidOf(), recs)), FilterMap(ThreadRecordOf(), recs), a);
  }

  /** A whole audit reports about files exactly what its three checks say of the
      catalog's file records. */
  lemma {:induction false} AuditOfFiles(volume: Volume, loc: CatalogLoc, a: Anomaly)
    requires LocateCatalog(volume) == Some(loc) && IsAboutFile(a)
    ensures a in AuditFindings(volume) <==>
      exists f :: f in FilterMap(FileRecordOf(), Records(volume, loc))
               && a in FindingsOfFile(volume, ScopeOf(volume, loc), f)
  {
    hide TreeFindings, ThreadFindings, FindingsOfFile;
    var recs := Records(volume, loc);
    FileFindingsMember(volume, ScopeOf(volume, loc), FilterMap(FileRecordOf(), recs), a);
    TreeFindingsAreAboutNodes(volume, loc, CatalogTree);
    if LocateExtents(volume).Some? {
      TreeFindingsAreAboutNodes(volume, LocateExtents(volume).value, ExtentsTree);
    }
    if a in ThreadFindings(recs) {
      ThreadFindingsAreDeletions(recs, a);
    }
  }

  /** The mismatch that the audit reports for `f`, when it reports one. */
  ghost function MismatchOf(volume: Volume, scope: Scope, f: CatalogFile): Anomaly
    requires Usable(scope)
  {
    CatalogExtentsMismatch(f.cnid, f.name, f.logical, CoveredBlocks(volume, f, scope.ext),
                           NeededBlocks(f.logical, scope.blockSize))
  }

  lemma {:induction false} MismatchSaysItself(volume: Volume, scope: Scope, f: CatalogFile, g: CatalogFile)
    requires Usable(scope)
    ensures MismatchOf(volume, scope, f) in FindingsOfFile(volume, scope, g) ==>
      ExtentFindings(volume, f, scope.blockSize, scope.ext) != []
    ensures ExtentFindings(volume, f, scope.blockSize, scope.ext) != [] ==>
      MismatchOf(volume, scope, f) in FindingsOfFile(volume, scope, f)
  {
    hide PayloadProblem, TimeProblem, CoveredBlocks, NeededBlocks;
  }

  lemma {:induction false} MismatchIsReported(volume: Volume, loc: CatalogLoc, f: CatalogFile)
    requires LocateCatalog(volume) == Some(loc) && f in FilterMap(FileRecordOf(), Records(volume, loc))
    ensures var scope := ScopeOf(volume, loc);
      MismatchOf(volume, scope, f) in AuditFindings(volume)
      <==> ExtentFindings(volume, f, scope.blockSize, scope.ext) != []
  {
    hide AuditFindings, FindingsOfFile, ExtentFindings;
    var scope := ScopeOf(volume, loc);
    AuditOfFiles(volume, loc, MismatchOf(volume, scope, f));
    MismatchSaysItself(volume, scope, f, f);
    if g :| g in FilterMap(FileRecordOf(), Records(volume, loc))
            && MismatchOf(volume, scope, f) in FindingsOfFile(volume, scope, g) {
      MismatchSaysItself(volume, scope, f, g);
    }
  }

  /** The whole audit against the whole read of an uncompressed file whose extents lie
      inside the volume: it is reported exactly when all its extents, overflow included,
      cover less than the capped need; a reported file reads short; and with a free slot
      and a need of 32 bits it is reported exactly when it reads short. */
  lemma {:induction false} ReportedExactlyWhenShort(
    codecs: Decmpfs.Codecs, volume: Volume, cnid: u32, k: nat, f: CatalogFile)
    ensures match LocateCatalog(volume)
      case None => AuditFindings(volume) == []
      case Some(loc) =>
        var recs, scope := Records(volume, loc), ScopeOf(volume, loc);
        && Selects(recs, cnid, k, f)
        && ExtentsInside(volume, loc.blockSize, SelectedData(recs, cnid, k, f).extents)
        && DecmpfsAttribute(volume, cnid).None? ==>
        var r, reported := FileContents(codecs, volume, cnid), MismatchOf(volume, scope, f) in AuditFindings(volume);
        var needed := CeilDiv(f.logical, loc.blockSize);
        && r.Some?
        && (reported <==> Allocated(volume, scope.ext, f, SelectedData(recs, cnid, k, f)) < Min(needed, U32_MAX))
        && (reported ==> |r.value| < f.logical)
        && (!f.extentsFull && needed <= U32_MAX ==> (reported <==> |r.value| < f.logical))
  {
    hide ClassifyRecord, FileForks, ReadAmong, DecmpfsAttribute, ExtentsInside, SelectedData, ExtentFindings, Records,
      TreesFindings, FileFindings, ThreadFindings;
    var located := LocateCatalog(volume);
    if located.Some? {
      var loc, recs := located.value, Records(volume, located.value);
      if Selects(recs, cnid, k, f)
         && ExtentsInside(volume, loc.blockSize, SelectedData(recs, cnid, k, f).extents) {
        SelectedCnid(recs, cnid, k, f);
        ExtentsFindingMeansShortRead(codecs, volume, loc.blockSize, recs, cnid, k, f, LocateExtents(volume));
        FilterMapMember(FileRecordOf(), recs, f);
        assert FileRecordOf()(recs[k]) == Some(f);
        MismatchIsReported(volume, loc, f);
      }
    }
  }

  /** The limit is real: where the block count needed exceeds 32 bits, a written file one
      byte larger than all its blocks is not reported, and reads short. */
  lemma {:induction false} CappedNeedHidesShortfall(
    codecs: Decmpfs.Codecs, volume: Volume, ext: Option<CatalogLoc>, recs: seq<Bytes>, k: nat,
    item: LeafWriter.Item, tail: Bytes, data: LeafWriter.ForkImage, resource: LeafWriter.ForkImage)
    returns (f: CatalogFile)
    requires |volume| == U32_MAX && (ext.Some? ==> Walkable(ext.value))
    requires item.body.File?
    requires LeafWriter.ImageOk(data) && LeafWriter.ImageOk(resource)
    requires Holds(item.body.rest, 76, LeafWriter.ImageBytes(data))
    requires Holds(item.body.rest, 156, LeafWriter.ImageBytes(resource))
    requires data.fork == Fork(U32_MAX as int + 1, [Extent(0, U32_MAX)])
    requires k < |recs| && recs[k] == LeafWriter.ItemBytes(item) + tail
    requires forall h :: 0 <= h < k ==> FileForks(recs[h], item.body.cnid).None?
    ensures Selects(recs, item.body.cnid, k, f)
    ensures ExtentsInside(volume, 1, SelectedData(recs, item.body.cnid, k, f).extents)
    ensures ExtentFindings(volume, f, 1, ext) == []
    ensures var r := ReadAmong(codecs, volume, 1, recs, None, item.body.cnid); r.Some? && |r.value| < f.logical
  {
    hide ClassifyRecord, FileForks, LeafWriter.ItemBytes, LeafWriter.ImageBytes, ReadAmong, ExtentFindings;
    var cnid := item.body.cnid;
    LeafWriter.ForksReadBack(item, tail, data, resource);
    f := LeafWriter.FileClassifies(item, tail, resource);
    FieldsAreForks(recs[k], cnid, f);
    assert SelectedData(recs, cnid, k, f) == data.fork;
    assert TotalBlocks(data.fork.extents) == U32_MAX;
    ExtentsFindingMeansShortRead(codecs, volume, 1, recs, cnid, k, f, ext);
  }

  // ---- decmpfs: a finding means the read fails --------------------------------------

  /** No codec invents bytes from an empty stream. */
  ghost predicate NothingFromNothing(codecs: Decmpfs.Codecs) {
    && (codecs.inflate([]).Some? ==> codecs.inflate([]).value == [])
    && (codecs.lzfse([]).Some? ==> codecs.lzfse([]).value == [])
    && forall n: nat {:trigger codecs.lzvn([], n)} :: codecs.lzvn([], n).Some? ==> codecs.lzvn([], n).value == []
  }

  /** A bare 16-byte header that declares an empty inline file, accepted by its codec. */
  ghost predicate EmptyByDeclaration(codecs: Decmpfs.Codecs, xattr: Bytes) {
    && |xattr| == Decmpfs.HEADER_LEN
    && Le32(xattr, 0) == Decmpfs.MAGIC
    && Le64(xattr, Decmpfs.UNCOMPRESSED_SIZE_OFFSET) == 0
    && var kind := Le32(xattr, Decmpfs.COMPRESSION_TYPE_OFFSET);
    && Decmpfs.Classify(kind).Some? && Decmpfs.Classify(kind).value.storage == Decmpfs.Inline
    && Decmpfs.DecodeInline(codecs, Decmpfs.Classify(kind).value.algorithm, [], 0, kind).Ok?
  }

  /** An empty resource fork decodes to nothing, for every algorithm. */
  lemma {:induction false} EmptyForkFails(codecs: Decmpfs.Codecs, algorithm: Decmpfs.Algorithm, size: usize)
    ensures Decmpfs.ResourceForkContent(codecs, algorithm, [], size).Err?
  {
  }

  lemma {:induction false} NoInlinePayloadDecode(
    codecs: Decmpfs.Codecs, algorithm: Decmpfs.Algorithm, size: usize, kind: u32)
    requires NothingFromNothing(codecs)
    ensures var r := Decmpfs.DecodeInline(codecs, algorithm, [], size, kind);
      r.Ok? ==> r.value == [] && algorithm != Decmpfs.LzBitmap
  {
  }

  lemma {:induction false} ExtentsHaveBlocks(extents: seq<Extent>)
    requires forall e :: e in extents ==> e.count != 0
    ensures extents != [] ==> TotalBlocks(extents) > 0
  {
    assert extents != [] ==> extents[0] in extents;
  }

  /** Whatever problem the auditor names, the decoder fails, unless the file is empty and
      says so. */
  lemma {:induction false} ProblemMeansNoDecode(
    codecs: Decmpfs.Codecs, volume: Volume, blockSize: u32, xattr: Bytes, f: CatalogFile, resource: Fork)
    requires NothingFromNothing(codecs) && PayloadProblem(xattr, f).Some?
    requires f.hasResourceFork == (resource.logical > 0) && f.resourceLogical == resource.logical
    requires f.resourceBlocks == Min(TotalBlocks(resource.extents), U32_MAX)
    requires forall e :: e in resource.extents ==> e.count != 0
    ensures Decmpfs.Decoded(codecs, xattr, ResourceOf(volume, blockSize, resource)).Ok?
       <==> EmptyByDeclaration(codecs, xattr)
  {
    hide Decmpfs.ResourceForkContent, Decmpfs.DecodeInline;
    if f.resourceBlocks == 0 && resource.logical > 0 {
      ExtentsHaveBlocks(resource.extents);
      assert Runs(blockSize, resource.extents) == [];
      assert ForkContent(volume, blockSize, resource) == Some([]);
    }
    if |xattr| >= Decmpfs.HEADER_LEN {
      var kind := Le32(xattr, Decmpfs.COMPRESSION_TYPE_OFFSET);
      var size := Le64(xattr, Decmpfs.UNCOMPRESSED_SIZE_OFFSET);
      var c := Decmpfs.Classify(kind);
      if c.Some? {
        EmptyForkFails(codecs, c.value.algorithm, size);
        NoInlinePayloadDecode(codecs, c.value.algorithm, size, kind);
        assert |xattr| == Decmpfs.HEADER_LEN ==> xattr[Decmpfs.HEADER_LEN..] == [];
      }
    }
  }

  /** A file whose payload the auditor finds wrong cannot be read: the read is `None`,
      with one exception, which the header states by itself. */
  lemma {:induction false} FlaggedFilesDoNotRead(
    codecs: Decmpfs.Codecs, volume: Volume, blockSize: u32, recs: seq<Bytes>, xattr: Bytes, cnid: u32, k: nat,
    f: CatalogFile)
    requires NothingFromNothing(codecs)
    requires Selects(recs, cnid, k, f)
    requires PayloadProblem(xattr, f).Some?
    ensures ReadAmong(codecs, volume, blockSize, recs, Some(xattr), cnid).Some? <==> EmptyByDeclaration(codecs, xattr)
  {
    hide ClassifyRecord, FileForks, PayloadProblem, Decmpfs.Decoded, EmptyByDeclaration, NothingFromNothing;
    SelectedForks(recs, cnid, k, f);
    FieldsAreForks(recs[k], cnid, f);
    NoEmptyExtents(recs[k], cnid);
    ProblemMeansNoDecode(codecs, volume, blockSize, xattr, f, FileForks(recs[k], cnid).value.resource);
  }

  /** The volume's own records and attribute: a decmpfs finding about the file record
      that a read selects means the read fails, but for that exception. */
  lemma {:induction false} FindingMeansNoRead(codecs: Decmpfs.Codecs, volume: Volume, cnid: u32, k: nat, f: CatalogFile)
    ensures match CatalogRecords(volume)
      case None => true
      case Some(recs) =>
        NothingFromNothing(codecs) && Selects(recs, cnid, k, f) && PayloadFindings(volume, f) != [] ==>
        && DecmpfsAttribute(volume, cnid).Some?
        && (FileContents(codecs, volume, cnid).Some?
            <==> EmptyByDeclaration(codecs, DecmpfsAttribute(volume, cnid).value))
  {
    hide ReadAmong, DecmpfsAttribute, EmptyByDeclaration, NothingFromNothing, Selects, PayloadProblem;
    var located := LocateCatalog(volume);
    if located.Some? && NothingFromNothing(codecs) && PayloadFindings(volume, f) != [] {
      var loc, recs := located.value, Records(volume, located.value);
      if Selects(recs, cnid, k, f) {
        SelectedCnid(recs, cnid, k, f);
        FlaggedFilesDoNotRead(codecs, volume, loc.blockSize, recs, DecmpfsAttribute(volume, cnid).value, cnid, k, f);
      }
    }
  }

  lemma {:induction false} SelectedCnid(recs: seq<Bytes>, cnid: u32, k: nat, f: CatalogFile)
    requires Selects(recs, cnid, k, f)
    ensures f.cnid == cnid
  {
    hide ClassifyRecord, FileForks;
    SelectedForks(recs, cnid, k, f);
    FieldsAreForks(recs[k], cnid, f);
  }

  lemma {:induction false} NoEmptyExtents(rec: Bytes, cnid: u32)
    requires FileForks(rec, cnid).Some?
    ensures forall e :: e in FileForks(rec, cnid).value.resource.extents ==> e.count != 0
    ensures forall e :: e in FileForks(rec, cnid).value.data.extents ==> e.count != 0
  {
  }

  /** The exception is real: a bare type-1 header of size 0 is flagged and decodes. */
  lemma {:induction false} FlaggedEmptyFileDecodes(codecs: Decmpfs.Codecs, f: CatalogFile, xattr: Bytes)
    requires xattr == [0x66, 0x70, 0x6D, 0x63] + ToLe32(1) + ToLe64(0)
    ensures PayloadProblem(xattr, f) == Some((1, NoInlinePayload))
    ensures Decmpfs.Decoded(codecs, xattr, None) == Ok([])
  {
    assert xattr[0..4] == [0x66, 0x70, 0x6D, 0x63];
    assert xattr[4..8] == ToLe32(1);
    assert xattr[8..16] == ToLe64(0);
    ReadLe32(xattr, 4, 1);
    ReadLe64(xattr, 8, 0);
  }

  // ---- threads: dangling exactly when no directory lists the CNID ---------------------

  /** The auditor and the reader accept the same entries, with the same CNID. */
  lemma {:induction false} SameEntries(rec: Bytes)
    ensures (exists cnid, file :: ClassifyRecord(rec) == Some(Entry(cnid, file))) <==> RecordEntry(rec).Some?
    ensures EntryCnidOf()(rec) == if RecordEntry(rec).Some? then Some(RecordEntry(rec).value.1.cnid) else None
    ensures FileRecordOf()(rec).Some? ==>
      && RecordEntry(rec).Some? && !RecordEntry(rec).value.1.isDir
      && FileRecordOf()(rec).value.name == RecordEntry(rec).value.1.name
      && FileRecordOf()(rec).value.cnid == RecordEntry(rec).value.1.cnid
  {
    var r := ClassifyRecord(rec);
    if r.Some? && r.value.Entry? {
      assert r == Some(Entry(r.value.cnid, r.value.file));
    }
  }

  /** Some directory lists an entry with this CNID. */
  ghost predicate ListedSomewhere(volume: Volume, cnid: u32) {
    exists p: u32, e: HfsEntry :: Lists(volume, p, e) && e.cnid == cnid
  }

  ghost predicate Lists(volume: Volume, p: u32, e: HfsEntry) {
    Directory(volume, p).Some? && e in Directory(volume, p).value
  }

  lemma {:induction false} EntryIsListed(volume: Volume, loc: CatalogLoc, i: nat)
    requires LocateCatalog(volume) == Some(loc) && i < |Records(volume, loc)|
    requires RecordEntry(Records(volume, loc)[i]).Some?
    ensures var pe := RecordEntry(Records(volume, loc)[i]).value; Lists(volume, pe.0, pe.1)
  {
    hide RecordEntry;
    var recs := Records(volume, loc);
    var pe := RecordEntry(recs[i]).value;
    assert ChildOf(pe.0)(recs[i]) == Some(pe.1);
    FilterMapMember(ChildOf(pe.0), recs, pe.1);
  }

  lemma {:induction false} EntryCnidsAreListed(volume: Volume, loc: CatalogLoc, cnid: u32)
    requires LocateCatalog(volume) == Some(loc)
    ensures cnid in FilterMap(EntryCnidOf(), Records(volume, loc)) <==> ListedSomewhere(volume, cnid)
  {
    hide RecordEntry, ClassifyRecord;
    var recs := Records(volume, loc);
    FilterMapMember(EntryCnidOf(), recs, cnid);
    if cnid in FilterMap(EntryCnidOf(), recs) {
      var i :| 0 <= i < |recs| && EntryCnidOf()(recs[i]) == Some(cnid);
      SameEntries(recs[i]);
      EntryIsListed(volume, loc, i);
    }
    if ListedSomewhere(volume, cnid) {
      var p: u32, e: HfsEntry :| Lists(volume, p, e) && e.cnid == cnid;
      FilterMapMember(ChildOf(p), recs, e);
      var i :| 0 <= i < |recs| && ChildOf(p)(recs[i]) == Some(e);
      SameEntries(recs[i]);
    }
  }

  lemma {:induction false} CountSnoc<T>(xs: seq<T>, x: T, y: T)
    ensures multiset(xs + [x])[y] == multiset(xs)[y] + if x == y then 1 else 0
  {
    assert multiset(xs + [x]) == multiset(xs) + multiset{x};
  }

  /** A value that only `x` produces is produced as often as `x` occurs. */
  lemma {:induction false} FilterMapCount<X, Y>(f: X -> Option<Y>, xs: seq<X>, x: X, y: Y)
    requires forall t :: f(t) == Some(y) <==> t == x
    ensures multiset(FilterMap(f, xs))[y] == multiset(xs)[x]
  {
    if xs != [] {
      var init, t := DropLast(xs), Last(xs);
      FilterMapCount(f, init, x, y);
      assert xs == init + [t];
      CountSnoc(init, t, x);
      match f(t) {
        case Some(b) => CountSnoc(FilterMap(f, init), b, y);
        case None => assert FilterMap(f, xs) == FilterMap(f, init);
      }
    }
  }

  lemma {:induction false} DanglingCount(
    cnids: seq<u32>, threads: seq<CatalogRecord>, cnid: u32, parent: u32, name: string)
    ensures multiset(FilterMap(DanglingOf(cnids), threads))[DeletedButReferenced(cnid, parent, name)]
         == if cnid in cnids then 0 else multiset(threads)[Thread(cnid, parent, name)]
  {
    var f, y := DanglingOf(cnids), DeletedButReferenced(cnid, parent, name);
    if cnid in cnids {
      FilterMapMember(f, threads, y);
    } else {
      FilterMapCount(f, threads, Thread(cnid, parent, name), y);
    }
  }

  lemma {:induction false} TreeFindingsAreAboutNodes(volume: Volume, loc: CatalogLoc, tree: Tree)
    requires Walkable(loc)
    ensures forall a :: a in TreeFindings(volume, loc, tree) ==> a.BtreeNodeInvalid?
  {
    var next, f := Next(volume, loc), FindingsAt(volume, loc, tree);
    var d := Chains.FreshSteps(next, loc.firstLeaf, MAX_LEAF_NODES);
    NodeFindingsAreAboutNodes(volume, loc, 0, tree);
    forall a: Anomaly | a in Chains.Collected(next, f, loc.firstLeaf, d) ensures a.BtreeNodeInvalid? {
      Chains.CollectedMember(next, f, loc.firstLeaf, d, a);
      var n: u32 :| n in Chains.Entered(next, loc.firstLeaf, d) && a in f(n);
      NodeFindingsAreAboutNodes(volume, loc, n, tree);
    }
  }

  lemma {:induction false} NodeFindingsAreAboutNodes(volume: Volume, loc: CatalogLoc, node: u32, tree: Tree)
    requires Walkable(loc)
    ensures forall a :: a in NodeFindings(volume, loc, node, tree) ==> a.BtreeNodeInvalid?
  {
    if InBounds(volume, loc, node) {
      var f := ViolationOf(NodeBytes(volume, loc, node), node, tree);
      forall a | a in NodeFindings(volume, loc, node, tree) ensures a.BtreeNodeInvalid? {
        FilterMapMember(f, DESCRIPTOR_RULES, a);
      }
    }
  }

  lemma {:induction false} CountAround(a: seq<Anomaly>, b: seq<Anomaly>, c: seq<Anomaly>, x: Anomaly)
    requires x !in a && x !in c
    ensures multiset(a + b + c)[x] == multiset(b)[x]
  {
    assert multiset(a + b + c) == multiset(a) + multiset(b) + multiset(c);
  }

  /** A whole audit reports a CNID as deleted but referenced once per thread record of it,
      when no directory of the volume lists that CNID, and otherwise not at all: the
      order of the records has no influence. */
  lemma {:induction false} ThreadCheckIsExact(volume: Volume, loc: CatalogLoc, cnid: u32, parent: u32, name: string)
    requires LocateCatalog(volume) == Some(loc)
    ensures multiset(AuditFindings(volume))[DeletedButReferenced(cnid, parent, name)]
         == if ListedSomewhere(volume, cnid) then 0
            else multiset(FilterMap(ThreadRecordOf(), Records(volume, loc)))[Thread(cnid, parent, name)]
  {
    hide ListedSomewhere, TreeFindings, FileFindings, FindingsOfFile;
    var recs := Records(volume, loc);
    var x := DeletedButReferenced(cnid, parent, name);
    EntryCnidsAreListed(volume, loc, cnid);
    DanglingCount(FilterMap(EntryCnidOf(), recs), FilterMap(ThreadRecordOf(), recs), cnid, parent, name);
    TreeFindingsAreAboutNodes(volume, loc, CatalogTree);
    if LocateExtents(volume).Some? {
      TreeFindingsAreAboutNodes(volume, LocateExtents(volume).value, ExtentsTree);
    }
    var scope, files := ScopeOf(volume, loc), FilterMap(FileRecordOf(), recs);
    FileFindingsMember(volume, scope, files, x);
    if f :| f in files && x in FindingsOfFile(volume, scope, f) {
      FindingsOfFileAreAboutFiles(volume, scope, f, x);
    }
    CountAround(TreesFindings(volume, loc), ThreadFindings(recs), FileFindings(volume, scope, files), x);
  }
}
