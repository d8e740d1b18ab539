/** Writing attribute records, and what duplicated names do to a listing. */
module AttributeWriter {
  import opened Wrappers
  import opened Sequences
  import opened ByteOrder
  import opened Utf16
  import opened Forks
  import opened Attributes
  import opened BTree
  import opened TreeWriter

  predicate NameOk(name: Bytes) {
    |name| % 2 == 0 && |name| <= 254
  }

  function KeyBytes(cnid: u32, startBlock: u32, name: Bytes): (b: Bytes)
    requires NameOk(name)
    ensures |b| == 14 + |name|
  {
    ToBe16(12 + |name|) + [0, 0] + ToBe32(cnid) + ToBe32(startBlock) + ToBe16(|name| / 2) + name
  }

  function InlineRecord(cnid: u32, startBlock: u32, name: Bytes, value: Bytes): (b: Bytes)
    requires NameOk(name) && |value| <= U32_MAX
    ensures |b| >= 30
  {
    KeyBytes(cnid, startBlock, name) + (ToBe32(0x10) + Zeros(8) + ToBe32(|value|) + value)
  }

  function OtherRecord(cnid: u32, startBlock: u32, name: Bytes, kind: u32, rest: Bytes): (b: Bytes)
    requires NameOk(name)
    ensures |b| >= 18
  {
    KeyBytes(cnid, startBlock, name) + (ToBe32(kind) + rest)
  }

  function ForkRecord(cnid: u32, startBlock: u32, name: Bytes, fork: Fork, sizes: Bytes): (b: Bytes)
    requires NameOk(name) && |sizes| == 8
    ensures |b| >= 30
  {
    KeyBytes(cnid, startBlock, name) + (ToBe32(0x20) + Zeros(4) + ForkData(fork.logical, sizes, fork.extents))
  }

  lemma {:induction false} KeyReads(cnid: u32, startBlock: u32, name: Bytes, after: Bytes)
    requires NameOk(name) && 4 <= |after|
    ensures var rec := KeyBytes(cnid, startBlock, name) + after;
      && ParseAttrKey(rec, cnid) == Some(AttrKey(DecodeUtf16(name), 14 + |name|, startBlock))
      && Be16(rec, 0) == 12 + |name| && Be16(rec, 12) == |name| / 2 && Be32(rec, 4) == cnid
      && rec[14..14 + |name|] == name
  {
    var rec := KeyBytes(cnid, startBlock, name) + after;
    assert rec[0..2] == ToBe16(12 + |name|);
    ReadBe16(rec, 0, 12 + |name|);
    assert rec[4..8] == ToBe32(cnid);
    ReadBe32(rec, 4, cnid);
    assert rec[8..12] == ToBe32(startBlock);
    ReadBe32(rec, 8, startBlock);
    assert rec[12..14] == ToBe16(|name| / 2);
    ReadBe16(rec, 12, |name| / 2);
    assert rec[14..14 + |name|] == name;
  }

  lemma {:induction false} InlineBodyReads(key: Bytes, value: Bytes, tail: Bytes)
    requires |value| <= U32_MAX && |key| <= U32_MAX
    ensures var rec := key + (ToBe32(0x10) + Zeros(8) + ToBe32(|value|) + value + tail);
      && Be32(rec, |key|) == ATTR_INLINE_DATA
      && InlineValue(rec, |key|) == Some(value)
  {
    var kind, size := ToBe32(0x10), ToBe32(|value|);
    var rec := key + (kind + Zeros(8) + size + value + tail);
    assert rec[|key|..|key| + 4] == kind;
    ReadBe32(rec, |key|, ATTR_INLINE_DATA);
    assert rec[|key| + 12..|key| + 16] == size;
    ReadBe32(rec, |key| + 12, |value|);
    assert rec[|key| + 16..|key| + 16 + |value|] == value;
  }

  lemma {:induction false} InlineRecordReads(cnid: u32, startBlock: u32, name: Bytes, value: Bytes, tail: Bytes)
    requires NameOk(name) && |value| <= U32_MAX
    ensures var rec, body := InlineRecord(cnid, startBlock, name, value) + tail, 14 + |name|;
      && ParseAttrKey(rec, cnid) == Some(AttrKey(DecodeUtf16(name), body, startBlock))
      && (forall c: u32 :: c != cnid ==> ParseAttrKey(rec, c).None?)
      && Be32(rec, body) == ATTR_INLINE_DATA && InlineValue(rec, body) == Some(value)
  {
    hide KeyBytes, DecodeUtf16;
    var key := KeyBytes(cnid, startBlock, name);
    var body := ToBe32(0x10) + Zeros(8) + ToBe32(|value|) + value + tail;
    assert InlineRecord(cnid, startBlock, name, value) + tail == key + body;
    KeyReads(cnid, startBlock, name, body);
    InlineBodyReads(key, value, tail);
  }

  lemma {:induction false} ForkRecordReads(
    cnid: u32, startBlock: u32, name: Bytes, fork: Fork, sizes: Bytes, tail: Bytes)
    requires NameOk(name) && |sizes| == 8 && |fork.extents| <= EXTENT_SLOTS
    requires forall e :: e in fork.extents ==> e.count != 0
    ensures var rec, body := ForkRecord(cnid, startBlock, name, fork, sizes) + tail, 14 + |name|;
      && ParseAttrKey(rec, cnid) == Some(AttrKey(DecodeUtf16(name), body, startBlock))
      && (forall c: u32 :: c != cnid ==> ParseAttrKey(rec, c).None?)
      && Be32(rec, body) == ATTR_FORK_DATA && ForkAt(rec, body + 8) == Some(fork)
  {
    hide KeyBytes, DecodeUtf16, ForkOf, ForkData;
    var key, data := KeyBytes(cnid, startBlock, name), ForkData(fork.logical, sizes, fork.extents);
    var body := ToBe32(0x20) + Zeros(4) + data + tail;
    var rec := ForkRecord(cnid, startBlock, name, fork, sizes) + tail;
    assert rec == key + body;
    KeyReads(cnid, startBlock, name, body);
    assert rec[|key|..|key| + 4] == ToBe32(0x20);
    ReadBe32(rec, |key|, 0x20);
    assert rec[|key| + 8..] == data + tail;
    ForkReadsBack(fork.logical, sizes, fork.extents, tail);
  }

  lemma {:induction false} OtherRecordReads(
    cnid: u32, startBlock: u32, name: Bytes, kind: u32, rest: Bytes, tail: Bytes)
    requires NameOk(name)
    ensures var rec, body := OtherRecord(cnid, startBlock, name, kind, rest) + tail, 14 + |name|;
      && ParseAttrKey(rec, cnid) == Some(AttrKey(DecodeUtf16(name), body, startBlock))
      && (forall c: u32 :: c != cnid ==> ParseAttrKey(rec, c).None?)
      && Be32(rec, body) == kind
  {
    hide KeyBytes, DecodeUtf16;
    var key := KeyBytes(cnid, startBlock, name);
    var rec := OtherRecord(cnid, startBlock, name, kind, rest) + tail;
    assert rec == key + (ToBe32(kind) + rest + tail);
    KeyReads(cnid, startBlock, name, ToBe32(kind) + rest + tail);
    assert rec[|key|..|key| + 4] == ToBe32(kind);
    ReadBe32(rec, |key|, kind);
  }

  /** An inline value that its record does not hold in full is no value for any reader, and
      neither is a fork that its record does not hold in full. */
  lemma {:induction false} CutValuesDoNotRead(
    volume: Volume, blockSize: u32, cnid: u32, startBlock: u32, name: Bytes, size: u32, part: Bytes)
    requires NameOk(name)
    ensures |part| < size ==>
      Unread(volume, blockSize, OtherRecord(cnid, startBlock, name, 0x10, Zeros(8) + ToBe32(size) + part), cnid,
             DecodeUtf16(name))
    ensures |part| < 84 ==>
      Unread(volume, blockSize, OtherRecord(cnid, startBlock, name, 0x20, part), cnid, DecodeUtf16(name))
  {
    hide OtherRecord, DecodeUtf16, ParseAttrKey;
    OtherRecordReads(cnid, startBlock, name, 0x10, Zeros(8) + ToBe32(size) + part, []);
    OtherRecordReads(cnid, startBlock, name, 0x20, part, []);
    CutInlineReads(cnid, startBlock, name, size, part);
    CutForkReads(cnid, startBlock, name, part);
    var inl, frk := OtherRecord(cnid, startBlock, name, 0x10, Zeros(8) + ToBe32(size) + part),
      OtherRecord(cnid, startBlock, name, 0x20, part);
    assert inl + [] == inl && frk + [] == frk;
    InlineParsersAgree(volume, blockSize, inl, cnid, DecodeUtf16(name));
    InlineParsersAgree(volume, blockSize, frk, cnid, DecodeUtf16(name));
  }

  ghost predicate Unread(volume: Volume, blockSize: u32, rec: Bytes, cnid: u32, name: string) {
    && ParseAttrRecord(rec, cnid) == None && XattrBytes(volume, blockSize, rec, cnid, name) == None
    && AttrInlineValue(rec, cnid, name) == None
  }

  lemma {:induction false} CutInlineReads(cnid: u32, startBlock: u32, name: Bytes, size: u32, part: Bytes)
    requires NameOk(name)
    ensures var rec := OtherRecord(cnid, startBlock, name, 0x10, Zeros(8) + ToBe32(size) + part);
      |part| < size ==> InlineValue(rec, 14 + |name|) == None
  {
    var rec := OtherRecord(cnid, startBlock, name, 0x10, Zeros(8) + ToBe32(size) + part);
    var body := 14 + |name|;
    assert |rec| == body + 16 + |part|;
    assert rec[body + 12..body + 16] == ToBe32(size);
    ReadBe32(rec, body + 12, size);
  }

  lemma {:induction false} CutForkReads(cnid: u32, startBlock: u32, name: Bytes, part: Bytes)
    requires NameOk(name)
    ensures |part| < 84 ==> ForkAt(OtherRecord(cnid, startBlock, name, 0x20, part), 14 + |name| + 8) == None
  {
  }

  // ---- attributes as written ---------------------------------------------------------

  /** `sizes` are the clump size and block count of a fork, which the readers skip. */
  datatype AttrBody = InRecord(value: Bytes) | InExtents(fork: Fork, sizes: Bytes) | OfOtherKind(kind: u32, rest: Bytes)
  datatype AttrFields = AttrFields(cnid: u32, startBlock: u32, name: Bytes, body: AttrBody)

  predicate AttrOk(a: AttrFields) {
    && NameOk(a.name)
    && match a.body
       case InRecord(value) => |value| <= U32_MAX
       case InExtents(fork, sizes) =>
         |sizes| == 8 && |fork.extents| <= EXTENT_SLOTS && forall e :: e in fork.extents ==> e.count != 0
       case OfOtherKind(kind, _) => kind != 0x10 && kind != 0x20
  }

  type Attr = a: AttrFields | AttrOk(a) witness AttrFields(0, 0, [], InRecord([]))

  function AttrBytes(a: Attr): (b: Bytes)
    ensures |b| >= 18
  {
    match a.body
    case InRecord(value) => InlineRecord(a.cnid, a.startBlock, a.name, value)
    case InExtents(fork, sizes) => ForkRecord(a.cnid, a.startBlock, a.name, fork, sizes)
    case OfOtherKind(kind, rest) => OtherRecord(a.cnid, a.startBlock, a.name, kind, rest)
  }

  /** What is listed of a written attribute: nothing of a continuation record. */
  function AttrListing(cnid: u32): Attr -> Option<Xattr> {
    (a: Attr) =>
      if a.cnid != cnid || a.startBlock != 0 then None
      else match a.body
           case InRecord(value) => Some(Xattr(DecodeUtf16(a.name), Inline(value)))
           case InExtents(fork, _) => Some(Xattr(DecodeUtf16(a.name), InFork(fork.logical)))
           case OfOtherKind(_, _) => None
  }

  /** What reading `name` makes of a written attribute, continuation records included. */
  function AttrContent(volume: Volume, blockSize: u32, cnid: u32, name: string): Attr -> Option<Bytes> {
    (a: Attr) =>
      if a.cnid != cnid || DecodeUtf16(a.name) != name then None
      else match a.body
           case InRecord(value) => Some(value)
           case InExtents(fork, _) => ForkContent(volume, blockSize, fork)
           case OfOtherKind(_, _) => None
  }

  /** What the decoder's lookup makes of it. */
  function AttrInline(cnid: u32, name: string): Attr -> Option<Bytes> {
    (a: Attr) =>
      if a.cnid == cnid && DecodeUtf16(a.name) == name && a.body.InRecord? then Some(a.body.value) else None
  }

  /** A written attribute is read by all three readers as what it is, however much of the
      node follows. */
  lemma {:induction false} AttributeReadsBack(
    volume: Volume, blockSize: u32, cnid: u32, name: string, a: Attr, tail: Bytes)
    ensures var rec := AttrBytes(a) + tail;
      && ParseAttrRecord(rec, cnid) == AttrListing(cnid)(a)
      && XattrBytes(volume, blockSize, rec, cnid, name) == AttrContent(volume, blockSize, cnid, name)(a)
      && AttrInlineValue(rec, cnid, name) == AttrInline(cnid, name)(a)
  {
    hide InlineRecord, ForkRecord, OtherRecord, DecodeUtf16, ParseAttrKey, InlineValue, ForkAt, AttrInlineValue;
    var rec := AttrBytes(a) + tail;
    match a.body {
      case InRecord(value) => InlineRecordReads(a.cnid, a.startBlock, a.name, value, tail);
      case InExtents(fork, sizes) => ForkRecordReads(a.cnid, a.startBlock, a.name, fork, sizes, tail);
      case OfOtherKind(kind, rest) => OtherRecordReads(a.cnid, a.startBlock, a.name, kind, rest, tail);
    }
    InlineParsersAgree(volume, blockSize, rec, cnid, name);
  }

  lemma {:induction false} AttributesReadAs(volume: Volume, blockSize: u32, cnid: u32, name: string, a: Attr)
    ensures ReadsAs(AttrBytes, XattrOf(cnid), AttrListing(cnid), a)
    ensures ReadsAs(AttrBytes, BytesOf(volume, blockSize, cnid, name), AttrContent(volume, blockSize, cnid, name), a)
    ensures ReadsAs(AttrBytes, InlineOf(cnid, name), AttrInline(cnid, name), a)
  {
    hide AttrBytes, ParseAttrRecord, XattrBytes, AttrInlineValue, AttrListing, AttrContent, AttrInline;
    forall tail: Bytes
      ensures XattrOf(cnid)(AttrBytes(a) + tail) == AttrListing(cnid)(a)
      ensures BytesOf(volume, blockSize, cnid, name)(AttrBytes(a) + tail)
           == AttrContent(volume, blockSize, cnid, name)(a)
      ensures InlineOf(cnid, name)(AttrBytes(a) + tail) == AttrInline(cnid, name)(a)
    {
      AttributeReadsBack(volume, blockSize, cnid, name, a, tail);
    }
  }

  // ---- attributes trees -----------------------------------------------------------

  /** The volume's attributes tree stores `attrs`, or there is none and no attribute. */
  ghost predicate StoresAttributes(volume: Volume, attrs: seq<Attr>) {
    match LocateAttributes(volume)
    case None => attrs == []
    case Some(loc) =>
      exists leaves: seq<seq<Attr>>, nodes: seq<u32> ::
        AttributeChain(volume, loc, leaves, nodes) && attrs == Flatten(leaves)
  }

  ghost predicate AttributeChain(volume: Volume, loc: CatalogLoc, leaves: seq<seq<Attr>>, nodes: seq<u32>) {
    StoresChain(volume, loc, AttrBytes, leaves, nodes) && |nodes| <= 65536
  }

  /** Listing, reading by name and the decoder's lookup give what the tree was written
      with: the first lists every attribute of the CNID in order, the others return the
      first one of the name. */
  lemma {:induction false} AttributesReadBack(volume: Volume, blockSize: u32, cnid: u32, name: string, attrs: seq<Attr>)
    requires LocateAttributes(volume).Some? ==> LocateAttributes(volume).value.blockSize == blockSize
    ensures StoresAttributes(volume, attrs) ==>
      && AttributesListed(volume, cnid) == FilterMap(AttrListing(cnid), attrs)
      && Attribute(volume, cnid, name) == FirstSome(AttrContent(volume, blockSize, cnid, name), attrs)
      && DecmpfsAttribute(volume, cnid) == FirstSome(AttrInline(cnid, "com.apple.decmpfs"), attrs)
  {
    hide LocateBtree, ReadsAs, Records, StoresChain, AttrListing, AttrContent, AttrInline;
    hide XattrOf, BytesOf, InlineOf;
    if StoresAttributes(volume, attrs) && LocateAttributes(volume).Some? {
      var loc := LocateAttributes(volume).value;
      var leaves: seq<seq<Attr>>, nodes: seq<u32> :|
        AttributeChain(volume, loc, leaves, nodes) && attrs == Flatten(leaves);
      TreeReadsBack(volume, loc, leaves, nodes, cnid, name);
      TreeReadsBack(volume, loc, leaves, nodes, cnid, "com.apple.decmpfs");
    }
  }

  lemma {:induction false} TreeReadsBack(
    volume: Volume, loc: CatalogLoc, leaves: seq<seq<Attr>>, nodes: seq<u32>, cnid: u32, name: string)
    requires Walkable(loc) && AttributeChain(volume, loc, leaves, nodes) && loc.blockSize <= U32_MAX
    ensures var recs, attrs := Records(volume, loc), Flatten(leaves);
      && FilterMap(XattrOf(cnid), recs) == FilterMap(AttrListing(cnid), attrs)
      && FirstSome(BytesOf(volume, loc.blockSize, cnid, name), recs)
         == FirstSome(AttrContent(volume, loc.blockSize, cnid, name), attrs)
      && FirstSome(InlineOf(cnid, name), recs) == FirstSome(AttrInline(cnid, name), attrs)
  {
    hide ReadsAs, Records, StoresChain, AttrListing, AttrContent, AttrInline, XattrOf, BytesOf, InlineOf, FilterMap;
    var recs, attrs := Records(volume, loc), Flatten(leaves);
    forall a | a in attrs
      ensures ReadsAs(AttrBytes, XattrOf(cnid), AttrListing(cnid), a)
      ensures ReadsAs(AttrBytes, BytesOf(volume, loc.blockSize, cnid, name),
                      AttrContent(volume, loc.blockSize, cnid, name), a)
      ensures ReadsAs(AttrBytes, InlineOf(cnid, name), AttrInline(cnid, name), a)
    {
      AttributesReadAs(volume, loc.blockSize, cnid, name, a);
    }
    var f, g := BytesOf(volume, loc.blockSize, cnid, name), AttrContent(volume, loc.blockSize, cnid, name);
    RecordsReadBack(volume, loc, AttrBytes, leaves, nodes, XattrOf(cnid), AttrListing(cnid));
    RecordsReadBack(volume, loc, AttrBytes, leaves, nodes, f, g);
    RecordsReadBack(volume, loc, AttrBytes, leaves, nodes, InlineOf(cnid, name), AttrInline(cnid, name));
    SameFirst(f, recs, g, attrs);
    SameFirst(InlineOf(cnid, name), recs, AttrInline(cnid, name), attrs);
  }

  /** Two attributes of one name and CNID with different values: both are listed, but
      reading the name only ever returns the first. */
  lemma {:induction false} DuplicateNameHidesSecond(
    volume: Volume, blockSize: u32, cnid: u32, name: Bytes, first: Bytes, second: Bytes)
    requires NameOk(name) && |first| <= U32_MAX && |second| <= U32_MAX && first != second
    requires LocateAttributes(volume).Some? ==> LocateAttributes(volume).value.blockSize == blockSize
    ensures var attrs := [AttrFields(cnid, 0, name, InRecord(first)), AttrFields(cnid, 0, name, InRecord(second))];
      var shown := DecodeUtf16(name);
      StoresAttributes(volume, attrs) ==>
        && AttributesListed(volume, cnid) == [Xattr(shown, Inline(first)), Xattr(shown, Inline(second))]
        && Attribute(volume, cnid, shown) == Some(first) != Some(second)
  {
    hide DecodeUtf16, StoresAttributes, AttributesListed, Attribute, LocateAttributes;
    var attrs: seq<Attr> :=
      [AttrFields(cnid, 0, name, InRecord(first)), AttrFields(cnid, 0, name, InRecord(second))];
    var shown := DecodeUtf16(name);
    AttributesReadBack(volume, blockSize, cnid, shown, attrs);
    FilterMapStep(AttrListing(cnid), attrs, 0);
    FilterMapStep(AttrListing(cnid), attrs, 1);
    FirstSomeStep(AttrContent(volume, blockSize, cnid, shown), attrs, 0);
    FirstSomeStep(AttrContent(volume, blockSize, cnid, shown), attrs, 1);
    assert attrs[..2] == attrs;
  }
}
