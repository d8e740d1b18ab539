/** Writing catalog records, and what the readers make of them. */
module LeafWriter {
  import opened Wrappers
  import opened Sequences
  import opened ByteOrder
  import opened Utf16
  import opened TreeWriter
  import opened BTree
  import opened Forks
  import opened Catalog
  import Findings

  // ---- records -----------------------------------------------------------------

  /** A catalog record's body: `info` are the six bytes between type and CNID, `rest`
      everything behind the CNID (dates, forks). */
  datatype Body =
    | Folder(info: Bytes, cnid: u32, rest: Bytes)
    | File(info: Bytes, cnid: u32, rest: Bytes)
    | ThreadTo(ofFile: bool, parent: u32, name: Bytes)

  /** A record with its key; the name is big-endian UTF-16. */
  datatype Fields = Item(parent: u32, name: Bytes, body: Body)

  type Item = item: Fields | WellFormed(item) witness Item(0, [], ThreadTo(false, 0, []))

  predicate NameOk(name: Bytes) {
    |name| % 2 == 0 && |name| <= 510
  }

  predicate WellFormed(item: Fields) {
    && NameOk(item.name)
    && match item.body
       case Folder(info, _, _) => |info| == 6
       case File(info, _, _) => |info| == 6
       case ThreadTo(_, _, name) => NameOk(name)
  }

  function KeyBytes(item: Item): (b: Bytes)
    ensures |b| == 8 + |item.name|
  {
    ToBe16(6 + |item.name|) + ToBe32(item.parent) + ToBe16(|item.name| / 2) + item.name
  }

  function BodyType(body: Body): u16 {
    match body
    case Folder(_, _, _) => 1
    case File(_, _, _) => 2
    case ThreadTo(ofFile, _, _) => if ofFile then 4 else 3
  }

  function BodyRest(body: Body): Bytes
    requires match body case ThreadTo(_, _, name) => NameOk(name) case _ => true
  {
    match body
    case Folder(info, cnid, rest) => info + ToBe32(cnid) + rest
    case File(info, cnid, rest) => info + ToBe32(cnid) + rest
    case ThreadTo(_, parent, name) => [0, 0] + ToBe32(parent) + ToBe16(|name| / 2) + name
  }

  function ItemBytes(item: Item): (b: Bytes)
    ensures |b| >= 10
  {
    KeyBytes(item) + ToBe16(BodyType(item.body)) + BodyRest(item.body)
  }

  /** The directory entry a written record stands for. */
  function EntryOf(item: Item): Option<HfsEntry> {
    match item.body
    case Folder(_, cnid, _) => Some(HfsEntry(DecodeUtf16(item.name), true, cnid))
    case File(_, cnid, _) => Some(HfsEntry(DecodeUtf16(item.name), false, cnid))
    case ThreadTo(_, _, _) => None
  }

  function ItemChildOf(parent: u32): Item -> Option<HfsEntry> {
    (item: Item) => if item.parent == parent then EntryOf(item) else None
  }

  lemma {:induction false} KeyReads(item: Item, tail: Bytes)
    ensures var rec := KeyBytes(item) + tail;
      && Be16(rec, 0) == 6 + |item.name|
      && Be32(rec, 2) == item.parent
      && Be16(rec, 6) == |item.name| / 2
      && rec[8..8 + |item.name|] == item.name
  {
    var rec := KeyBytes(item) + tail;
    var keyLen, parent, nameLen := ToBe16(6 + |item.name|), ToBe32(item.parent), ToBe16(|item.name| / 2);
    assert rec[0..2] == keyLen;
    ReadBe16(rec, 0, 6 + |item.name|);
    assert rec[2..6] == parent;
    ReadBe32(rec, 2, item.parent);
    assert rec[6..8] == nameLen;
    ReadBe16(rec, 6, |item.name| / 2);
  }

  lemma {:induction false} BodyReads(item: Item, tail: Bytes)
    ensures var rec, data := ItemBytes(item) + tail, 8 + |item.name|;
      && data + 2 <= |rec| && BeI16(rec, data) == BodyType(item.body)
      && (!item.body.ThreadTo? ==> data + 12 <= |rec| && Be32(rec, data + 8) == item.body.cnid)
  {
    var rec, data := ItemBytes(item) + tail, 8 + |item.name|;
    var kind := ToBe16(BodyType(item.body));
    assert rec[data..data + 2] == kind;
    ReadBe16(rec, data, BodyType(item.body));
    if !item.body.ThreadTo? {
      assert BodyRest(item.body)[6..10] == ToBe32(item.body.cnid);
      assert rec[data + 8..data + 12] == BodyRest(item.body)[6..10];
      ReadBe32(rec, data + 8, item.body.cnid);
    }
  }

  /** A written record reads as its own entry, however much of the node follows it. */
  lemma {:induction false} RecordReadsBack(item: Item, tail: Bytes)
    ensures RecordEntry(ItemBytes(item) + tail)
         == match EntryOf(item) case Some(e) => Some((item.parent, e)) case None => None
  {
    KeyOfItem(item, tail);
    BodyReads(item, tail);
  }

  /** The CNID sits 8 bytes into the body, so `rest` begins at body offset 12. */
  ghost predicate Dates(rest: Bytes, created: u32, modified: u32, accessed: u32) {
    Holds(rest, 4, ToBe32(created)) && Holds(rest, 8, ToBe32(modified)) && Holds(rest, 16, ToBe32(accessed))
  }

  lemma {:induction false} RestIsAt(item: Item, tail: Bytes, off: nat, part: Bytes)
    requires !item.body.ThreadTo? && Holds(item.body.rest, off, part)
    ensures Holds(ItemBytes(item) + tail, 8 + |item.name| + 12 + off, part)
  {
    var before := KeyBytes(item) + ToBe16(BodyType(item.body)) + (item.body.info + ToBe32(item.body.cnid));
    HoldsInside(before, item.body.rest, tail, off, part);
    assert ItemBytes(item) == before + item.body.rest;
  }

  lemma {:induction false} DatesRead(item: Item, tail: Bytes, created: u32, modified: u32, accessed: u32)
    requires !item.body.ThreadTo? && Dates(item.body.rest, created, modified, accessed)
    ensures var rec, data := ItemBytes(item) + tail, 8 + |item.name|;
      && data + 32 <= |rec|
      && Be32(rec, data + 16) == created && Be32(rec, data + 20) == modified && Be32(rec, data + 28) == accessed
  {
    hide ItemBytes;
    var rec, data := ItemBytes(item) + tail, 8 + |item.name|;
    RestIsAt(item, tail, 4, ToBe32(created));
    ReadBe32(rec, data + 16, created);
    RestIsAt(item, tail, 8, ToBe32(modified));
    ReadBe32(rec, data + 20, modified);
    RestIsAt(item, tail, 16, ToBe32(accessed));
    ReadBe32(rec, data + 28, accessed);
  }

  /** Metadata reads back: kind, the three times from their places, and for a file the
      data fork's logical size. */
  lemma {:induction false} StatReadsBack(item: Item, tail: Bytes, created: u32, modified: u32, accessed: u32, size: u64)
    requires !item.body.ThreadTo? && Dates(item.body.rest, created, modified, accessed)
    requires item.body.File? ==> Holds(item.body.rest, 76, ToBe64(size))
    ensures RecordStat(ItemBytes(item) + tail, item.body.cnid)
         == Some(HfsStat(item.body.cnid, item.body.Folder?, if item.body.File? then size else 0,
                         created, modified, accessed))
  {
    hide ItemBytes;
    var rec, data := ItemBytes(item) + tail, 8 + |item.name|;
    BodyReads(item, tail);
    KeyOfItem(item, tail);
    DatesRead(item, tail, created, modified, accessed);
    if item.body.File? {
      RestIsAt(item, tail, 76, ToBe64(size));
      ReadBe64(rec, data + 88, size);
    }
  }

  lemma {:induction false} KeyOfItem(item: Item, tail: Bytes)
    ensures var rec := ItemBytes(item) + tail;
      && Be16(rec, 0) == 6 + |item.name| && Be32(rec, 2) == item.parent
      && Be16(rec, 6) == |item.name| / 2 && rec[8..8 + |item.name|] == item.name
  {
    var behind := ToBe16(BodyType(item.body)) + BodyRest(item.body) + tail;
    assert ItemBytes(item) + tail == KeyBytes(item) + behind;
    KeyReads(item, behind);
  }

  /** A file record with both forks written at their places yields exactly those forks. */
  lemma {:induction false} ForksReadBack(item: Item, tail: Bytes, data: ForkImage, resource: ForkImage)
    requires item.body.File? && ImageOk(data) && ImageOk(resource)
    requires Holds(item.body.rest, 76, ImageBytes(data)) && Holds(item.body.rest, 156, ImageBytes(resource))
    ensures FileForks(ItemBytes(item) + tail, item.body.cnid) == Some(FilePair(data.fork, resource.fork))
  {
    var rec, at := ItemBytes(item) + tail, 8 + |item.name|;
    BodyReads(item, tail);
    KeyOfItem(item, tail);
    RestIsAt(item, tail, 76, ImageBytes(data));
    RestIsAt(item, tail, 156, ImageBytes(resource));
    ImageReads(rec, at + 88, data);
    ImageReads(rec, at + 168, resource);
  }

  /** The auditor, too, sees a file record with both its forks. */
  lemma {:induction false} FileClassifies(item: Item, tail: Bytes, resource: ForkImage)
    returns (f: Findings.CatalogFile)
    requires item.body.File? && ImageOk(resource)
    requires Holds(item.body.rest, 156, ImageBytes(resource))
    ensures Findings.ClassifyRecord(ItemBytes(item) + tail) == Some(Findings.Entry(item.body.cnid, Some(f)))
    ensures f.name == DecodeUtf16(item.name)
  {
    hide ItemBytes, DecodeUtf16;
    var rec, at := ItemBytes(item) + tail, 8 + |item.name|;
    BodyReads(item, tail);
    KeyOfItem(item, tail);
    RestIsAt(item, tail, 156, ImageBytes(resource));
    f := Findings.FileOf(rec, at, DecodeUtf16(item.name));
  }

  datatype ForkImage = ForkImage(fork: Fork, sizes: Bytes)

  predicate ImageOk(image: ForkImage) {
    |image.sizes| == 8 && |image.fork.extents| <= EXTENT_SLOTS && forall e :: e in image.fork.extents ==> e.count != 0
  }

  function ImageBytes(image: ForkImage): (b: Bytes)
    requires ImageOk(image)
    ensures |b| == FORK_DATA_LEN
  {
    ForkData(image.fork.logical, image.sizes, image.fork.extents)
  }

  lemma {:induction false} ImageReads(rec: Bytes, off: nat, image: ForkImage)
    requires ImageOk(image) && Holds(rec, off, ImageBytes(image))
    ensures ForkOf(rec[off..]) == Some(image.fork)
  {
    ForkReadsBack(image.fork.logical, image.sizes, image.fork.extents, rec[off + FORK_DATA_LEN..]);
    assert rec[off..] == ImageBytes(image) + rec[off + FORK_DATA_LEN..];
  }

  lemma {:induction false} ThreadBodyReads(before: Bytes, parent: u32, name: Bytes, tail: Bytes)
    requires NameOk(name)
    ensures var rec := before + ([0, 0] + ToBe32(parent) + ToBe16(|name| / 2) + name) + tail;
      && |before| + 8 + |name| <= |rec|
      && Be32(rec, |before| + 2) == parent && Be16(rec, |before| + 6) == |name| / 2
      && rec[|before| + 8..|before| + 8 + |name|] == name
  {
    var body: Bytes := [0, 0] + ToBe32(parent) + ToBe16(|name| / 2) + name;
    var rec := before + body + tail;
    assert body[2..6] == ToBe32(parent) && body[6..8] == ToBe16(|name| / 2) && body[8..8 + |name|] == name;
    HoldsInside(before, body, tail, 2, ToBe32(parent));
    ReadBe32(rec, |before| + 2, parent);
    HoldsInside(before, body, tail, 6, ToBe16(|name| / 2));
    ReadBe16(rec, |before| + 6, |name| / 2);
    HoldsInside(before, body, tail, 8, name);
  }

  /** A written thread reads, for the auditor, as the thread of its key's CNID to its
      body's parent and name. */
  lemma {:induction false} ThreadReadsBack(item: Item, tail: Bytes)
    requires item.body.ThreadTo?
    ensures Findings.ClassifyRecord(ItemBytes(item) + tail)
         == Some(Findings.Thread(item.parent, item.body.parent, DecodeUtf16(item.body.name)))
  {
    hide KeyBytes, DecodeUtf16;
    BodyReads(item, tail);
    KeyOfItem(item, tail);
    ThreadBodyReads(KeyBytes(item) + ToBe16(BodyType(item.body)), item.body.parent, item.body.name, tail);
  }

  // ---- what the readers make of written records -----------------------------------------

  lemma {:induction false} ChildrenRead(parent: u32, item: Item)
    ensures ReadsAs(ItemBytes, ChildOf(parent), ItemChildOf(parent), item)
  {
    hide ItemBytes, RecordEntry;
    forall tail: Bytes ensures ChildOf(parent)(ItemBytes(item) + tail) == ItemChildOf(parent)(item) {
      RecordReadsBack(item, tail);
    }
  }

  /** A chain stored anywhere in a volume lists, for any folder, exactly the file and
      folder records with that parent, in order. */
  lemma {:induction false} DirectoryReadsBack(
    volume: Volume, loc: CatalogLoc, leaves: seq<seq<Item>>, nodes: seq<u32>, parent: u32)
    requires LocateCatalog(volume) == Some(loc)
    ensures StoresChain(volume, loc, ItemBytes, leaves, nodes) && |nodes| <= 65536 ==>
      Directory(volume, parent) == Some(FilterMap(ItemChildOf(parent), Flatten(leaves)))
  {
    hide StoresLeaf, LocateCatalog, Records, RecordEntry, ReadsAs;
    if StoresChain(volume, loc, ItemBytes, leaves, nodes) && |nodes| <= 65536 {
      forall item | item in Flatten(leaves) ensures ReadsAs(ItemBytes, ChildOf(parent), ItemChildOf(parent), item) {
        ChildrenRead(parent, item);
      }
      RecordsReadBack(volume, loc, ItemBytes, leaves, nodes, ChildOf(parent), ItemChildOf(parent));
    }
  }

  /** Long enough for everything the readers look at: TN1150's 88-byte folder and
      248-byte file records. */
  predicate Complete(item: Item) {
    match item.body
    case Folder(_, _, rest) => |rest| >= 76
    case File(_, _, rest) => |rest| >= 236
    case ThreadTo(_, _, _) => true
  }

  /** The metadata a written record stands for. */
  function ItemStatOf(cnid: u32): Item -> Option<HfsStat> {
    (item: Item) =>
      if item.body.ThreadTo? || !Complete(item) || item.body.cnid != cnid then None
      else
        var rest := item.body.rest;
        Some(HfsStat(cnid, item.body.Folder?, if item.body.File? then Be64(rest, 76) else 0,
                     Be32(rest, 4), Be32(rest, 8), Be32(rest, 16)))
  }

  /** The two forks a written record stands for. */
  function ItemForksOf(cnid: u32): Item -> Option<FilePair> {
    (item: Item) =>
      if !item.body.File? || !Complete(item) || item.body.cnid != cnid then None
      else Some(FilePair(ForkOf(item.body.rest[76..156]).value, ForkOf(item.body.rest[156..236]).value))
  }

  /** The thread a written record stands for, as the auditor names it. */
  function ItemThreadOf(): Item -> Option<Findings.CatalogRecord> {
    (item: Item) =>
      match item.body
      case ThreadTo(_, parent, name) => Some(Findings.Thread(item.parent, parent, DecodeUtf16(name)))
      case _ => None
  }

  lemma {:induction false} RestInRecord(item: Item, tail: Bytes)
    requires !item.body.ThreadTo?
    ensures var rec, at := ItemBytes(item) + tail, 8 + |item.name| + 12;
      && at + |item.body.rest| <= |rec|
      && forall i :: 0 <= i < |item.body.rest| ==> rec[at + i] == item.body.rest[i]
  {
    hide ItemBytes;
    var rec, at, rest := ItemBytes(item) + tail, 8 + |item.name| + 12, item.body.rest;
    assert rest[0..0 + |rest|] == rest;
    RestIsAt(item, tail, 0, rest);
    forall i | 0 <= i < |rest| ensures rec[at + i] == rest[i] {
      assert rec[at..at + |rest|][i] == rest[i];
    }
  }

  lemma {:induction false} RestWord(item: Item, tail: Bytes, off: nat)
    requires !item.body.ThreadTo? && off + 4 <= |item.body.rest|
    ensures var rec, at := ItemBytes(item) + tail, 8 + |item.name| + 12 + off;
      at + 4 <= |rec| && Be32(rec, at) == Be32(item.body.rest, off)
  {
    hide ItemBytes;
    RestInRecord(item, tail);
    var rec, at := ItemBytes(item) + tail, 8 + |item.name| + 12;
    assert forall i :: off <= i < off + 4 ==> rec[at + i] == item.body.rest[i];
  }

  lemma {:induction false} StatRead(cnid: u32, item: Item, tail: Bytes)
    requires Complete(item)
    ensures StatOf(cnid)(ItemBytes(item) + tail) == ItemStatOf(cnid)(item)
  {
    hide ItemBytes, Be32, Be16;
    BodyReads(item, tail);
    KeyOfItem(item, tail);
    if !item.body.ThreadTo? {
      RestWord(item, tail, 4);
      RestWord(item, tail, 8);
      RestWord(item, tail, 16);
      if item.body.File? {
        RestWord(item, tail, 76);
        RestWord(item, tail, 80);
      }
    }
  }

  lemma {:induction false} StatsRead(cnid: u32, item: Item)
    requires Complete(item)
    ensures ReadsAs(ItemBytes, StatOf(cnid), ItemStatOf(cnid), item)
  {
    hide ItemBytes, StatOf, ItemStatOf;
    forall tail: Bytes ensures StatOf(cnid)(ItemBytes(item) + tail) == ItemStatOf(cnid)(item) {
      StatRead(cnid, item, tail);
    }
  }

  lemma {:induction false} SameSlots(a: Bytes, b: Bytes, n: nat)
    requires FORK_DATA_LEN <= |a| && FORK_DATA_LEN <= |b| && n <= EXTENT_SLOTS
    requires forall i :: 0 <= i < FORK_DATA_LEN ==> a[i] == b[i]
    ensures UsedSlots(a, n) == UsedSlots(b, n) && Be64(a, 0) == Be64(b, 0)
  {
    if n > 0 {
      SameSlots(a, b, n - 1);
      assert Slot(a, n - 1) == Slot(b, n - 1);
    }
  }

  lemma {:induction false} ForksReadAs(cnid: u32, item: Item, tail: Bytes)
    requires Complete(item)
    ensures ForksOf(cnid)(ItemBytes(item) + tail) == ItemForksOf(cnid)(item)
  {
    hide ItemBytes, UsedSlots, Be64, Be32, Be16;
    BodyReads(item, tail);
    KeyOfItem(item, tail);
    if item.body.File? {
      var rec, data, rest := ItemBytes(item) + tail, 8 + |item.name|, item.body.rest;
      ForksInRecord(item, tail);
      SameSlots(rec[data + 88..], rest[76..156], EXTENT_SLOTS);
      SameSlots(rec[data + 168..], rest[156..236], EXTENT_SLOTS);
    }
  }

  lemma {:induction false} ForksRead(cnid: u32, item: Item)
    requires Complete(item)
    ensures ReadsAs(ItemBytes, ForksOf(cnid), ItemForksOf(cnid), item)
  {
    hide ItemBytes, ForksOf, ItemForksOf;
    forall tail: Bytes ensures ForksOf(cnid)(ItemBytes(item) + tail) == ItemForksOf(cnid)(item) {
      ForksReadAs(cnid, item, tail);
    }
  }

  lemma {:induction false} ThreadsRead(item: Item)
    ensures ReadsAs(ItemBytes, Findings.ThreadRecordOf(), ItemThreadOf(), item)
  {
    hide ItemBytes, DecodeUtf16;
    forall tail: Bytes ensures Findings.ThreadRecordOf()(ItemBytes(item) + tail) == ItemThreadOf()(item) {
      if item.body.ThreadTo? {
        ThreadReadsBack(item, tail);
      } else {
        BodyReads(item, tail);
        KeyOfItem(item, tail);
      }
    }
  }

  /** The file a written record stands for, as the auditor sees it. */
  function ItemFileOf(): Item -> Option<Findings.CatalogFile> {
    (item: Item) =>
      if !item.body.File? || !Complete(item) then None
      else
        var rest := item.body.rest;
        var data, resource := rest[76..156], rest[156..236];
        Some(Findings.CatalogFile(
          item.body.cnid, DecodeUtf16(item.name), Be64(data, 0),
          Findings.InlineBlocks(data), Findings.AllSlotsUsed(data),
          Be32(rest, 4), Be32(rest, 8), Be64(resource, 0) > 0, Be64(resource, 0), Findings.InlineBlocks(resource)))
  }

  /** The CNID of a written file or folder. */
  function ItemCnidOf(): Item -> Option<u32> {
    (item: Item) => if item.body.ThreadTo? then None else Some(item.body.cnid)
  }

  lemma {:induction false} SameSums(a: Bytes, b: Bytes, n: nat)
    requires FORK_DATA_LEN <= |a| && FORK_DATA_LEN <= |b| && n <= EXTENT_SLOTS
    requires forall i :: 0 <= i < FORK_DATA_LEN ==> a[i] == b[i]
    ensures Findings.SlotSum(a, n) == Findings.SlotSum(b, n)
    ensures forall i :: 0 <= i < n ==> (Findings.Uses(a, i) <==> Findings.Uses(b, i))
  {
    if n > 0 {
      SameSums(a, b, n - 1);
      assert Slot(a, n - 1) == Slot(b, n - 1);
    }
  }

  lemma {:induction false} SameForkForAuditor(a: Bytes, b: Bytes)
    requires FORK_DATA_LEN <= |a| && FORK_DATA_LEN <= |b|
    requires forall i :: 0 <= i < FORK_DATA_LEN ==> a[i] == b[i]
    ensures Findings.InlineBlocks(a) == Findings.InlineBlocks(b) && Be64(a, 0) == Be64(b, 0)
    ensures Findings.AllSlotsUsed(a) <==> Findings.AllSlotsUsed(b)
  {
    SameSums(a, b, EXTENT_SLOTS);
  }

  /** The two forks of a complete file record, as any reader of the record meets them. */
  lemma {:induction false} ForksInRecord(item: Item, tail: Bytes)
    requires Complete(item) && item.body.File?
    ensures var rec, data, rest := ItemBytes(item) + tail, 8 + |item.name|, item.body.rest;
      && data + 248 <= |rec|
      && (forall i :: 0 <= i < FORK_DATA_LEN ==> rec[data + 88..][i] == rest[76..156][i])
      && (forall i :: 0 <= i < FORK_DATA_LEN ==> rec[data + 168..][i] == rest[156..236][i])
  {
    hide ItemBytes;
    RestInRecord(item, tail);
    var rec, data, rest := ItemBytes(item) + tail, 8 + |item.name|, item.body.rest;
    forall i | 0 <= i < FORK_DATA_LEN
      ensures rec[data + 88..][i] == rest[76..156][i] && rec[data + 168..][i] == rest[156..236][i]
    {
      assert rec[data + 12 + (76 + i)] == rest[76 + i];
      assert rec[data + 12 + (156 + i)] == rest[156 + i];
    }
  }

  lemma {:induction false} FileRead(item: Item, tail: Bytes)
    requires Complete(item)
    ensures Findings.FileRecordOf()(ItemBytes(item) + tail) == ItemFileOf()(item)
  {
    hide ItemBytes, DecodeUtf16, Findings.InlineBlocks, Findings.AllSlotsUsed, Be64, Be32, Be16;
    BodyReads(item, tail);
    KeyOfItem(item, tail);
    if item.body.File? {
      var rec, data, rest := ItemBytes(item) + tail, 8 + |item.name|, item.body.rest;
      ForksInRecord(item, tail);
      RestWord(item, tail, 4);
      RestWord(item, tail, 8);
      SameForkForAuditor(rec[data + 88..], rest[76..156]);
      SameForkForAuditor(rec[data + 168..], rest[156..236]);
      SameBe64(rec, data + 88);
      SameBe64(rec, data + 168);
    }
  }

  lemma {:induction false} FilesRead(item: Item)
    requires Complete(item)
    ensures ReadsAs(ItemBytes, Findings.FileRecordOf(), ItemFileOf(), item)
  {
    hide ItemBytes, Findings.FileRecordOf, ItemFileOf;
    forall tail: Bytes ensures Findings.FileRecordOf()(ItemBytes(item) + tail) == ItemFileOf()(item) {
      FileRead(item, tail);
    }
  }

  lemma {:induction false} CnidsRead(item: Item)
    ensures ReadsAs(ItemBytes, Findings.EntryCnidOf(), ItemCnidOf(), item)
  {
    hide ItemBytes, DecodeUtf16, Findings.FileOf;
    forall tail: Bytes ensures Findings.EntryCnidOf()(ItemBytes(item) + tail) == ItemCnidOf()(item) {
      BodyReads(item, tail);
      KeyOfItem(item, tail);
    }
  }

  // ---- records cut short -------------------------------------------------------------

  lemma {:induction false} RestBytes(item: Item)
    requires !item.body.ThreadTo?
    ensures var rec, at := ItemBytes(item), 8 + |item.name| + 12;
      |rec| == at + |item.body.rest| && rec[at..] == item.body.rest
  {
  }

  /** Where a node ends within a file record: without the three times there is no metadata,
      without its whole logical size the size reads as 0, without a whole data fork there
      are no forks, and without a whole resource fork that fork is empty. */
  lemma {:induction false} CutRecordsRead(item: Item)
    requires item.body.File?
    ensures var rec, cnid, n := ItemBytes(item), item.body.cnid, |item.body.rest|;
      && (n < 20 ==> RecordStat(rec, cnid) == None)
      && (20 <= n < 84 ==> RecordStat(rec, cnid).Some? && RecordStat(rec, cnid).value.size == 0)
      && (n < 156 ==> FileForks(rec, cnid) == None)
      && (156 <= n < 236 ==>
          FileForks(rec, cnid) == Some(FilePair(ForkOf(item.body.rest[76..156]).value, Fork(0, []))))
      && (n < 236 ==> Findings.ClassifyRecord(rec) == Some(Findings.Entry(cnid, None)))
  {
    hide ItemBytes, DecodeUtf16, Be64, Be32, UsedSlots;
    var rec, data, rest := ItemBytes(item), 8 + |item.name|, item.body.rest;
    assert rec + [] == rec;
    BodyReads(item, []);
    KeyOfItem(item, []);
    RestBytes(item);
    if 156 <= |rest| < 236 {
      forall i | 0 <= i < FORK_DATA_LEN ensures rec[data + 88..][i] == rest[76..156][i] {
        assert rec[data + 88 + i] == rec[data + 20 - 8..][76 + i];
      }
      SameSlots(rec[data + 88..], rest[76..156], EXTENT_SLOTS);
    }
  }

  /** A thread whose name runs past its record keeps its CNID and parent, without a name. */
  lemma {:induction false} CutThreadReads(item: Item, nameLen: u16, part: Bytes)
    requires item.body.ThreadTo? && item.body.name == [] && |part| < 2 * nameLen
    ensures var head := KeyBytes(item) + ToBe16(BodyType(item.body)) + ([0, 0] + ToBe32(item.body.parent));
      Findings.ClassifyRecord(head + ToBe16(nameLen) + part)
      == Some(Findings.Thread(item.parent, item.body.parent, ""))
  {
    hide KeyBytes, DecodeUtf16;
    var kind, info := ToBe16(BodyType(item.body)), [0, 0] + ToBe32(item.body.parent);
    var rec, data := KeyBytes(item) + kind + info + ToBe16(nameLen) + part, 8 + |item.name|;
    assert rec == KeyBytes(item) + (kind + info + ToBe16(nameLen) + part);
    KeyReads(item, kind + info + ToBe16(nameLen) + part);
    assert rec[data..data + 2] == kind;
    ReadBe16(rec, data, BodyType(item.body));
    assert rec[data + 4..data + 8] == ToBe32(item.body.parent);
    ReadBe32(rec, data + 4, item.body.parent);
    assert rec[data + 8..data + 10] == ToBe16(nameLen);
    ReadBe16(rec, data + 8, nameLen);
  }
}
