/** The auditor: it parses the volume again and says what the reader will meet. */
module Findings {
  import opened Wrappers
  import opened Sequences
  import opened ByteOrder
  import opened Utf16
  import opened BTree
  import opened Forks
  import opened Catalog
  import opened Attributes
  import opened Anomalies
  import opened AuditBtree
  import Decmpfs

  const RECORD_FOLDER_THREAD: int := 3
  const RECORD_FILE_THREAD: int := 4
  const HFS_EPOCH_TO_UNIX: u32 := 2082844800

  datatype CatalogFile = CatalogFile(
    cnid: u32, name: string, logical: u64, inlineBlocks: u32, extentsFull: bool, create: u32, contentMod: u32,
    hasResourceFork: bool, resourceLogical: u64, resourceBlocks: u32)

  datatype CatalogRecord =
    | Entry(cnid: u32, file: Option<CatalogFile>)
    | Thread(cnid: u32, parent: u32, name: string)

  // ---- extent sums -----------------------------------------------------------

  /** The block counts of the first `n` slots, added up with saturation. */
  function SlotSum(fork: Bytes, n: nat): u32
    requires n <= EXTENT_SLOTS && FORK_DATA_LEN <= |fork|
  {
    if n == 0 then 0 else SaturatingAdd(SlotSum(fork, n - 1), Slot(fork, n - 1).count)
  }

  function InlineBlocks(fork: Bytes): u32 {
    if |fork| < FORK_DATA_LEN then 0 else SlotSum(fork, EXTENT_SLOTS)
  }

  method ForkInlineBlocks(fork: Bytes) returns (total: u32)
    ensures total == InlineBlocks(fork)
  {
    if |fork| < FORK_DATA_LEN {
      return 0;
    }
    total := 0;
    for i := 0 to EXTENT_SLOTS
      invariant total == SlotSum(fork, i)
    {
      total := SaturatingAdd(total, Be32(fork, 16 + i * 8 + 4));
    }
  }

  predicate AllSlotsUsed(fork: Bytes) {
    FORK_DATA_LEN <= |fork| && forall i :: 0 <= i < EXTENT_SLOTS ==> Uses(fork, i)
  }

  lemma {:induction false} TotalBlocksSnoc(extents: seq<Extent>, e: Extent)
    ensures TotalBlocks(extents + [e]) == TotalBlocks(extents) + e.count
  {
    if extents != [] {
      TotalBlocksSnoc(extents[1..], e);
      assert (extents + [e])[1..] == extents[1..] + [e];
    }
  }

  lemma {:induction false} SlotSumIsCappedTotal(fork: Bytes, n: nat)
    requires n <= EXTENT_SLOTS && FORK_DATA_LEN <= |fork|
    ensures SlotSum(fork, n) == Min(TotalBlocks(UsedSlots(fork, n)), U32_MAX)
  {
    if n > 0 {
      SlotSumIsCappedTotal(fork, n - 1);
      var before, e := UsedSlots(fork, n - 1), Slot(fork, n - 1);
      TotalBlocksSnoc(before, e);
      assert UsedSlots(fork, n) == if e.count != 0 then before + [e] else before;
      assert TotalBlocks(UsedSlots(fork, n)) == TotalBlocks(before) + e.count;
    }
  }

  predicate Uses(fork: Bytes, i: nat)
    requires i < EXTENT_SLOTS && FORK_DATA_LEN <= |fork|
  {
    Slot(fork, i).count != 0
  }

  lemma {:induction false} FullExactlyWhenAllUsed(fork: Bytes, n: nat)
    requires n <= EXTENT_SLOTS && FORK_DATA_LEN <= |fork|
    ensures |UsedSlots(fork, n)| == n <==> forall i :: 0 <= i < n ==> Uses(fork, i)
  {
    if n > 0 {
      FullExactlyWhenAllUsed(fork, n - 1);
      assert Uses(fork, n - 1) <==> Slot(fork, n - 1).count != 0;
    }
  }

  /** The auditor's two readings of a fork, in terms of the extents the reader keeps:
      the saturating sum is the true total up to the cap, and "all slots used" holds
      exactly when the reader keeps eight extents. */
  lemma {:induction false} AuditorReadsTheReadersExtents(fork: Bytes)
    requires FORK_DATA_LEN <= |fork|
    ensures InlineBlocks(fork) == Min(TotalBlocks(ForkOf(fork).value.extents), U32_MAX)
    ensures AllSlotsUsed(fork) <==> |ForkOf(fork).value.extents| == EXTENT_SLOTS
  {
    var n := EXTENT_SLOTS;
    SlotSumIsCappedTotal(fork, n);
    FullExactlyWhenAllUsed(fork, n);
    assert ForkOf(fork).value.extents == UsedSlots(fork, n);
  }

  // ---- catalog records ---------------------------------------------------------

  /** A catalog record as the auditor sees it. A file record too short for its forks
      still counts as an entry. */
  function ClassifyRecord(rec: Bytes): Option<CatalogRecord> {
    if |rec| < 8 then None
    else
      var nameEnd: usize := 8 + Be16(rec, 6) as int * 2;
      if nameEnd > |rec| then None
      else
        var data: usize := 2 + Be16(rec, 0) as int;
        if data + 2 > |rec| then None
        else
          var kind := BeI16(rec, data);
          if kind == RECORD_FOLDER then
            if data + 12 > |rec| then None else Some(Entry(Be32(rec, data + 8), None))
          else if kind == RECORD_FILE then
            if data + 12 > |rec| then None
            else if data + 248 > |rec| then Some(Entry(Be32(rec, data + 8), None))
            else Some(Entry(Be32(rec, data + 8), Some(FileOf(rec, data, DecodeUtf16(rec[8..nameEnd])))))
          else if kind == RECORD_FOLDER_THREAD || kind == RECORD_FILE_THREAD then
            if data + 10 > |rec| then None
            else
              var nameLen := Be16(rec, data + 8);
              var threadEnd: usize := data + 10 + nameLen as int * 2;
              var name := if threadEnd <= |rec| then DecodeUtf16(rec[data + 10..threadEnd]) else "";
              Some(Thread(Be32(rec, 2), Be32(rec, data + 4), name))
          else None
  }

  function FileOf(rec: Bytes, data: nat, name: string): CatalogFile
    requires data + 248 <= |rec|
  {
    var resourceLogical := Be64(rec, data + 168);
    CatalogFile(
      Be32(rec, data + 8), name, Be64(rec, data + 88),
      InlineBlocks(rec[data + 88..]), AllSlotsUsed(rec[data + 88..]), Be32(rec, data + 16), Be32(rec, data + 20),
      resourceLogical > 0, resourceLogical, InlineBlocks(rec[data + 168..]))
  }

  // ---- extents-overflow records --------------------------------------------------

  /** The blocks of extent `i` of an extents-overflow record, none past its end. */
  function ExtentBlocks(rec: Bytes, data: nat, i: nat): nat {
    if data + i * 8 + 8 <= |rec| then Be32(rec, data + i * 8 + 4) else 0
  }

  function ExtentsTotal(rec: Bytes, data: nat, n: nat): nat {
    if n == 0 then 0 else ExtentsTotal(rec, data, n - 1) + ExtentBlocks(rec, data, n - 1)
  }

  /** The blocks record `rec` adds to (`cnid`, `forkType`). */
  function RecordBlocks(rec: Bytes, cnid: u32, forkType: byte): nat {
    if |rec| < 12 || rec[2] != forkType || Be32(rec, 4) != cnid then 0
    else ExtentsTotal(rec, 2 + Be16(rec, 0) as int, EXTENT_SLOTS)
  }

  function OverflowTotal(recs: seq<Bytes>, cnid: u32, forkType: byte): nat {
    if recs == [] then 0 else OverflowTotal(DropLast(recs), cnid, forkType) + RecordBlocks(Last(recs), cnid, forkType)
  }

  /** The saturating sum over all delivered records is the true total, capped. */
  method OverflowBlocks(volume: Volume, loc: CatalogLoc, cnid: u32, forkType: byte) returns (total: u32)
    requires Walkable(loc)
    ensures total == Min(OverflowTotal(Records(volume, loc), cnid, forkType), U32_MAX)
  {
    total := 0;
    var recs := ForEachRecord(volume, loc);
    for n := 0 to |recs|
      invariant total == Min(OverflowTotal(recs[..n], cnid, forkType), U32_MAX)
    {
      assert DropLast(recs[..n + 1]) == recs[..n];
      total := AddRecord(recs[n], cnid, forkType, total);
    }
    assert recs[..|recs|] == recs;
  }

  method AddRecord(rec: Bytes, cnid: u32, forkType: byte, total0: u32) returns (total: u32)
    ensures total == Min(total0 + RecordBlocks(rec, cnid, forkType), U32_MAX)
  {
    total := total0;
    if |rec| < 12 || rec[2] != forkType || Be32(rec, 4) != cnid {
      return;
    }
    var data: usize := 2 + Be16(rec, 0) as int;
    var i: nat := 0;
    while i < EXTENT_SLOTS
      invariant i <= EXTENT_SLOTS
      invariant total == Min(total0 + ExtentsTotal(rec, data, i), U32_MAX)
    {
      var e: usize := data + i * 8;
      if e + 8 > |rec| {
        NothingPastTheEnd(rec, data, i, EXTENT_SLOTS);
        break;
      }
      total := SaturatingAdd(total, Be32(rec, e + 4));
      i := i + 1;
    }
  }

  lemma {:induction false} NothingPastTheEnd(rec: Bytes, data: nat, i: nat, n: nat)
    requires i <= n && data + i * 8 + 8 > |rec|
    ensures ExtentsTotal(rec, data, n) == ExtentsTotal(rec, data, i)
  {
    if i < n {
      NothingPastTheEnd(rec, data, i, n - 1);
    }
  }

  lemma {:induction false} OverflowTotalAppend(a: seq<Bytes>, b: seq<Bytes>, cnid: u32, forkType: byte)
    ensures OverflowTotal(a + b, cnid, forkType)
         == OverflowTotal(a, cnid, forkType) + OverflowTotal(b, cnid, forkType)
  {
    if b == [] {
      assert a + b == a;
    } else {
      assert DropLast(a + b) == a + DropLast(b);
      OverflowTotalAppend(a, DropLast(b), cnid, forkType);
    }
  }

  /** The order of the overflow records does not matter. */
  lemma {:induction false} OverflowTotalIsOrderFree(a: seq<Bytes>, b: seq<Bytes>, cnid: u32, forkType: byte)
    requires multiset(a) == multiset(b)
    ensures OverflowTotal(a, cnid, forkType) == OverflowTotal(b, cnid, forkType)
    decreases |a|
  {
    if a == [] {
      assert |multiset(b)| == |multiset(a)|;
    } else {
      var x, init := Last(a), DropLast(a);
      assert a == init + [x];
      assert x in multiset(b);
      var i :| 0 <= i < |b| && b[i] == x;
      var before, after := b[..i], b[i + 1..];
      assert b == before + [x] + after;
      MultisetRemove(init, before, after, x);
      OverflowTotalIsOrderFree(init, before + after, cnid, forkType);
      OverflowTotalInsert(before, after, x, cnid, forkType);
    }
  }

  lemma {:induction false} MultisetRemove<T>(init: seq<T>, before: seq<T>, after: seq<T>, x: T)
    requires multiset(init + [x]) == multiset(before + [x] + after)
    ensures multiset(init) == multiset(before + after)
  {
    assert multiset(init + [x]) == multiset(init) + multiset{x};
    assert multiset(before + [x] + after) == multiset(before) + multiset{x} + multiset(after);
    assert multiset(init) == (multiset(init) + multiset{x}) - multiset{x};
    assert multiset(before + after) == (multiset(before) + multiset{x} + multiset(after)) - multiset{x};
  }

  lemma {:induction false} OverflowTotalInsert(
    before: seq<Bytes>, after: seq<Bytes>, x: Bytes, cnid: u32, forkType: byte)
    ensures OverflowTotal(before + [x] + after, cnid, forkType)
         == OverflowTotal(before + after, cnid, forkType) + RecordBlocks(x, cnid, forkType)
  {
    OverflowTotalAppend(before + [x], after, cnid, forkType);
    OverflowTotalAppend(before, after, cnid, forkType);
    assert DropLast(before + [x]) == before;
  }

  // ---- per-file checks -----------------------------------------------------------

  /** The first relation that fails among a file's two times and the volume's last write. */
  function TimeProblem(f: CatalogFile, volumeModify: u32): Option<TimeDetail> {
    if f.create > f.contentMod && f.contentMod != 0 then Some(ModifiedBeforeCreation)
    else if f.create != 0 && f.create < HFS_EPOCH_TO_UNIX then Some(BeforeBoundary(Creation))
    else if f.contentMod != 0 && f.contentMod < HFS_EPOCH_TO_UNIX then Some(BeforeBoundary(ContentModification))
    else if volumeModify != 0 && f.create > volumeModify then Some(AfterVolume(Creation))
    else if volumeModify != 0 && f.contentMod > volumeModify then Some(AfterVolume(ContentModification))
    else None
  }

  function TimeFindings(f: CatalogFile, volumeModify: u32): seq<Anomaly> {
    match TimeProblem(f, volumeModify)
    case Some(problem) => [TimeAnomaly(f.cnid, f.name, problem)]
    case None => []
  }

  /** A file's times pass exactly when each is unset or at least the boundary, the
      modification does not precede the creation, and neither is later than the last
      write of a volume that records one. */
  method AuditTime(f: CatalogFile, volumeModify: u32) returns (out: seq<Anomaly>)
    ensures out == TimeFindings(f, volumeModify)
    ensures out == [] <==>
      && (f.create == 0 || HFS_EPOCH_TO_UNIX <= f.create)
      && (f.contentMod == 0 || (HFS_EPOCH_TO_UNIX <= f.contentMod && f.create <= f.contentMod))
      && (volumeModify == 0 || (f.create <= volumeModify && f.contentMod <= volumeModify))
  {
    out := [];
    if f.create > f.contentMod && f.contentMod != 0 {
      return out + [TimeAnomaly(f.cnid, f.name, ModifiedBeforeCreation)];
    }
    var stamps := [(Creation, f.create), (ContentModification, f.contentMod)];
    assert stamps[0].1 == f.create && stamps[1].1 == f.contentMod;
    for i := 0 to |stamps|
      invariant out == []
      invariant i > 0 ==> f.create == 0 || HFS_EPOCH_TO_UNIX <= f.create
      invariant i > 1 ==> f.contentMod == 0 || HFS_EPOCH_TO_UNIX <= f.contentMod
    {
      if stamps[i].1 != 0 && stamps[i].1 < HFS_EPOCH_TO_UNIX {
        return out + [TimeAnomaly(f.cnid, f.name, BeforeBoundary(stamps[i].0))];
      }
    }
    for i := 0 to |stamps|
      invariant out == []
      invariant i > 0 ==> volumeModify == 0 || f.create <= volumeModify
      invariant i > 1 ==> volumeModify == 0 || f.contentMod <= volumeModify
    {
      if volumeModify != 0 && stamps[i].1 > volumeModify {
        return out + [TimeAnomaly(f.cnid, f.name, AfterVolume(stamps[i].0))];
      }
    }
  }

  /** Midnight of 1 January 1960, in seconds since 1904: 56 years, 14 of them leap years. */
  const JANUARY_1960: u32 := (56 * 365 + 14) * 86400

  /** Every date of a volume lies after 1904, but the boundary is that of 1970: a file
      dated in between is reported as older than the epoch. */
  lemma {:induction false} FileOf1960IsReported(f: CatalogFile)
    requires f.create == f.contentMod == JANUARY_1960
    ensures TimeFindings(f, 0) == [TimeAnomaly(f.cnid, f.name, BeforeBoundary(Creation))]
  {
  }

  function CeilDiv(a: nat, b: nat): nat
    requires b > 0
  {
    if a % b == 0 then a / b else a / b + 1
  }

  function NeededBlocks(logical: u64, blockSize: u64): u32
    requires blockSize > 0
  {
    Min(CeilDiv(logical, blockSize), U32_MAX)
  }

  /** The blocks the catalog record and, when its slots are full, the overflow tree allocate. */
  function CoveredBlocks(volume: Volume, f: CatalogFile, ext: Option<CatalogLoc>): u32
    requires ext.Some? ==> Walkable(ext.value)
  {
    if f.extentsFull && ext.Some?
    then SaturatingAdd(f.inlineBlocks, Min(OverflowTotal(Records(volume, ext.value), f.cnid, 0), U32_MAX))
    else f.inlineBlocks
  }

  function ExtentFindings(volume: Volume, f: CatalogFile, blockSize: u64, ext: Option<CatalogLoc>): seq<Anomaly>
    requires blockSize > 0 && (ext.Some? ==> Walkable(ext.value))
  {
    var needed, covered := NeededBlocks(f.logical, blockSize), CoveredBlocks(volume, f, ext);
    If(covered < needed, CatalogExtentsMismatch(f.cnid, f.name, f.logical, covered, needed))
  }

  method AuditExtents(volume: Volume, f: CatalogFile, blockSize: u64, ext: Option<CatalogLoc>)
    returns (out: seq<Anomaly>)
    requires blockSize > 0 && (ext.Some? ==> Walkable(ext.value))
    ensures out == ExtentFindings(volume, f, blockSize, ext)
  {
    var needed := NeededBlocks(f.logical, blockSize);
    var covered := f.inlineBlocks;
    if f.extentsFull && ext.Some? {
      var overflow := OverflowBlocks(volume, ext.value, f.cnid, 0);
      covered := SaturatingAdd(covered, overflow);
    }
    out := [];
    if covered < needed {
      out := out + [CatalogExtentsMismatch(f.cnid, f.name, f.logical, covered, needed)];
    }
  }

  /** What is wrong with the payload that the compression header promises, if anything. */
  function PayloadProblem(xattr: Bytes, f: CatalogFile): Option<(u32, PayloadDetail)> {
    if |xattr| < Decmpfs.HEADER_LEN then Some((0, ShortHeader))
    else
      var kind := Le32(xattr, Decmpfs.COMPRESSION_TYPE_OFFSET);
      match Decmpfs.Classify(kind)
      case None => Some((kind, UndocumentedType))
      case Some(c) =>
        if c.storage == Decmpfs.ResourceFork then
          if !f.hasResourceFork || f.resourceLogical == 0 then Some((kind, EmptyResourceFork))
          else if f.resourceBlocks == 0 then Some((kind, ResourceWithoutBlocks))
          else None
        else if |xattr| == Decmpfs.HEADER_LEN then Some((kind, NoInlinePayload))
        else None
  }

  function PayloadFindings(volume: Volume, f: CatalogFile): seq<Anomaly> {
    match DecmpfsAttribute(volume, f.cnid)
    case None => []
    case Some(xattr) =>
      match PayloadProblem(xattr, f)
      case None => []
      case Some(problem) => [DecmpfsMissingResource(f.cnid, f.name, problem.0, problem.1)]
  }

  method AuditDecmpfs(volume: Volume, f: CatalogFile) returns (out: seq<Anomaly>)
    ensures out == PayloadFindings(volume, f)
  {
    out := [];
    var attribute := DecmpfsXattr(volume, f.cnid);
    if attribute.None? {
      return;
    }
    var xattr := attribute.value;
    if |xattr| < Decmpfs.HEADER_LEN {
      return out + [DecmpfsMissingResource(f.cnid, f.name, 0, ShortHeader)];
    }
    var kind := Le32(xattr, Decmpfs.COMPRESSION_TYPE_OFFSET);
    var compression := Decmpfs.Classify(kind);
    if compression.None? {
      return out + [DecmpfsMissingResource(f.cnid, f.name, kind, UndocumentedType)];
    }
    match compression.value.storage {
      case ResourceFork =>
        if !f.hasResourceFork || f.resourceLogical == 0 {
          out := out + [DecmpfsMissingResource(f.cnid, f.name, kind, EmptyResourceFork)];
        } else if f.resourceBlocks == 0 {
          out := out + [DecmpfsMissingResource(f.cnid, f.name, kind, ResourceWithoutBlocks)];
        }
      case Inline =>
        if |xattr| == Decmpfs.HEADER_LEN {
          out := out + [DecmpfsMissingResource(f.cnid, f.name, kind, NoInlinePayload)];
        }
    }
  }

  // ---- the whole audit -----------------------------------------------------------

  function EntryCnidOf(): Bytes -> Option<u32> {
    (rec: Bytes) =>
      match ClassifyRecord(rec)
      case Some(Entry(cnid, _)) => Some(cnid)
      case _ => None
  }

  function FileRecordOf(): Bytes -> Option<CatalogFile> {
    (rec: Bytes) =>
      match ClassifyRecord(rec)
      case Some(Entry(_, file)) => file
      case _ => None
  }

  function ThreadRecordOf(): Bytes -> Option<CatalogRecord> {
    (rec: Bytes) =>
      match ClassifyRecord(rec)
      case Some(Thread(cnid, parent, name)) => Some(Thread(cnid, parent, name))
      case _ => None
  }

  /** A thread record whose CNID is not among `cnids` is a dangling reference. */
  function DanglingOf(cnids: seq<u32>): CatalogRecord -> Option<Anomaly> {
    (t: CatalogRecord) =>
      match t
      case Thread(cnid, parent, name) => if cnid in cnids then None else Some(DeletedButReferenced(cnid, parent, name))
      case Entry(_, _) => None
  }

  function ThreadFindings(recs: seq<Bytes>): seq<Anomaly> {
    FilterMap(DanglingOf(FilterMap(EntryCnidOf(), recs)), FilterMap(ThreadRecordOf(), recs))
  }

  /** What the audit needs besides the volume: its last write, block size and overflow tree. */
  datatype Scope = Scope(volumeModify: u32, blockSize: u64, ext: Option<CatalogLoc>)

  ghost predicate Usable(scope: Scope) {
    scope.blockSize > 0 && (scope.ext.Some? ==> Walkable(scope.ext.value))
  }

  function FindingsOfFile(volume: Volume, scope: Scope, f: CatalogFile): seq<Anomaly>
    requires Usable(scope)
  {
    TimeFindings(f, scope.volumeModify) + ExtentFindings(volume, f, scope.blockSize, scope.ext)
    + PayloadFindings(volume, f)
  }

  function FileFindings(volume: Volume, scope: Scope, files: seq<CatalogFile>): seq<Anomaly>
    requires Usable(scope)
  {
    if files == [] then []
    else FileFindings(volume, scope, DropLast(files)) + FindingsOfFile(volume, scope, Last(files))
  }

  function ScopeOf(volume: Volume, cat: CatalogLoc): (scope: Scope)
    requires LocateCatalog(volume) == Some(cat)
    ensures Usable(scope)
  {
    Scope(Be32(volume, VOLUME_HEADER_OFFSET + 20), cat.blockSize, LocateExtents(volume))
  }

  function TreesFindings(volume: Volume, cat: CatalogLoc): seq<Anomaly>
    requires Walkable(cat)
  {
    TreeFindings(volume, cat, CatalogTree)
    + match LocateExtents(volume) case Some(ext) => TreeFindings(volume, ext, ExtentsTree) case None => []
  }

  function AuditFindings(volume: Volume): seq<Anomaly> {
    match LocateCatalog(volume)
    case None => []
    case Some(cat) =>
      var recs := Records(volume, cat);
      TreesFindings(volume, cat) + ThreadFindings(recs)
      + FileFindings(volume, ScopeOf(volume, cat), FilterMap(FileRecordOf(), recs))
  }

  method Audit(volume: Volume) returns (out: seq<Anomaly>)
    ensures out == AuditFindings(volume)
  {
    var located := LocateCatalog(volume);
    if located.None? {
      return [];
    }
    var cat := located.value;
    var trees := AuditTrees(volume, cat);
    var recs := ForEachRecord(volume, cat);
    var cnids, files, threads := CollectRecords(recs);
    var dangling := AuditThreads(recs, cnids, threads);
    var perFile := AuditFiles(volume, ScopeOf(volume, cat), files);
    out := trees + dangling + perFile;
  }

  method AuditTrees(volume: Volume, cat: CatalogLoc) returns (out: seq<Anomaly>)
    requires Walkable(cat)
    ensures out == TreesFindings(volume, cat)
  {
    out := AuditBtreeNodes(volume, cat, CatalogTree);
    var ext := LocateExtents(volume);
    if ext.Some? {
      var more := AuditBtreeNodes(volume, ext.value, ExtentsTree);
      out := out + more;
    }
  }

  /** The closure of the audit: it sorts the catalog's records into three heaps. */
  method CollectRecords(recs: seq<Bytes>)
    returns (cnids: set<u32>, files: seq<CatalogFile>, threads: seq<CatalogRecord>)
    ensures cnids == set c | c in FilterMap(EntryCnidOf(), recs)
    ensures files == FilterMap(FileRecordOf(), recs)
    ensures threads == FilterMap(ThreadRecordOf(), recs)
  {
    cnids, files, threads := {}, [], [];
    for i := 0 to |recs|
      invariant cnids == set c | c in FilterMap(EntryCnidOf(), recs[..i])
      invariant files == FilterMap(FileRecordOf(), recs[..i])
      invariant threads == FilterMap(ThreadRecordOf(), recs[..i])
    {
      FilterMapStep(EntryCnidOf(), recs, i);
      FilterMapStep(FileRecordOf(), recs, i);
      FilterMapStep(ThreadRecordOf(), recs, i);
      match ClassifyRecord(recs[i]) {
        case Some(Entry(cnid, file)) =>
          cnids := cnids + {cnid};
          if file.Some? {
            files := files + [file.value];
          }
        case Some(Thread(cnid, parent, name)) =>
          threads := threads + [Thread(cnid, parent, name)];
        case None =>
      }
    }
    assert recs[..|recs|] == recs;
  }

  method AuditThreads(ghost recs: seq<Bytes>, cnids: set<u32>, threads: seq<CatalogRecord>) returns (out: seq<Anomaly>)
    requires cnids == set c | c in FilterMap(EntryCnidOf(), recs)
    requires threads == FilterMap(ThreadRecordOf(), recs)
    ensures out == ThreadFindings(recs)
  {
    ghost var f := DanglingOf(FilterMap(EntryCnidOf(), recs));
    out := [];
    for i := 0 to |threads|
      invariant out == FilterMap(f, threads[..i])
    {
      FilterMapStep(f, threads, i);
      match threads[i] {
        case Thread(cnid, parent, name) =>
          if cnid !in cnids {
            out := out + [DeletedButReferenced(cnid, parent, name)];
          }
        case Entry(_, _) =>
      }
    }
    assert threads[..|threads|] == threads;
  }

  method AuditFiles(volume: Volume, scope: Scope, files: seq<CatalogFile>) returns (out: seq<Anomaly>)
    requires Usable(scope)
    ensures out == FileFindings(volume, scope, files)
  {
    out := [];
    for i := 0 to |files|
      invariant out == FileFindings(volume, scope, files[..i])
    {
      assert DropLast(files[..i + 1]) == files[..i];
      var times := AuditTime(files[i], scope.volumeModify);
      var extents := AuditExtents(volume, files[i], scope.blockSize, scope.ext);
      var payload := AuditDecmpfs(volume, files[i]);
      out := out + (times + extents + payload);
    }
    assert files[..|files|] == files;
  }
}
