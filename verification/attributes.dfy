/** The attributes B-tree: three readers of the same records, and their agreement. */
module Attributes {
  import opened Wrappers
  import opened Sequences
  import opened ByteOrder
  import opened Utf16
  import opened BTree
  import opened Forks
  import opened ExtentMap

  const DECMPFS_XATTR_NAME: string := "com.apple.decmpfs"
  const ATTR_INLINE_DATA: u32 := 0x10
  const ATTR_FORK_DATA: u32 := 0x20

  datatype XattrValue = Inline(bytes: Bytes) | InFork(logical: u64) {
    function Len(): nat {
      match this
      case Inline(b) => |b|
      case InFork(logical) => logical
    }
  }
  datatype Xattr = Xattr(name: string, value: XattrValue)
  datatype AttrKey = AttrKey(name: string, body: usize, startBlock: u32)

  // ---- record parsers ------------------------------------------------------

  /** The value of the inline record for (`cnid`, `name`): the decoder's own lookup. */
  function AttrInlineValue(rec: Bytes, cnid: u32, name: string): Option<Bytes> {
    if |rec| < 14 then None
    else if Be32(rec, 4) != cnid then None
    else
      var nameEnd: usize := 14 + Be16(rec, 12) as int * 2;
      if nameEnd > |rec| then None
      else if DecodeUtf16(rec[14..nameEnd]) != name then None
      else
        var body: usize := 2 + Be16(rec, 0) as int;
        if body + 16 > |rec| then None
        else if Be32(rec, body) != ATTR_INLINE_DATA then None
        else
          var end: usize := body + 16 + Be32(rec, body + 12);
          if end > |rec| then None else Some(rec[body + 16..end])
  }

  function ParseAttrKey(rec: Bytes, cnid: u32): (r: Option<AttrKey>)
    ensures r.Some? ==> r.value.body + 4 <= |rec|
  {
    if |rec| < 14 then None
    else if Be32(rec, 4) != cnid then None
    else
      var nameEnd: usize := 14 + Be16(rec, 12) as int * 2;
      if nameEnd > |rec| then None
      else
        var body: usize := 2 + Be16(rec, 0) as int;
        if body + 4 > |rec| then None
        else Some(AttrKey(DecodeUtf16(rec[14..nameEnd]), body, Be32(rec, 8)))
  }

  function InlineValue(rec: Bytes, body: usize): Option<Bytes> {
    var header :- CheckedAdd(body, 16);
    if header > |rec| then None
    else
      var end :- CheckedAdd(header, Be32(rec, body + 12));
      if end > |rec| then None else Some(rec[header..end])
  }

  function ForkAt(rec: Bytes, off: nat): Option<Fork> {
    if off > |rec| then None else ForkOf(rec[off..])
  }

  /** A listable attribute of `cnid`; continuation records and unknown types are none. */
  function ParseAttrRecord(rec: Bytes, cnid: u32): Option<Xattr> {
    var key :- ParseAttrKey(rec, cnid);
    if key.startBlock != 0 then None
    else
      var kind := Be32(rec, key.body);
      if kind == ATTR_INLINE_DATA then
        var b :- InlineValue(rec, key.body);
        Some(Xattr(key.name, Inline(b)))
      else if kind == ATTR_FORK_DATA then
        var f :- ForkAt(rec, key.body + 8);
        Some(Xattr(key.name, InFork(f.logical)))
      else None
  }

  /** What `ReadXattr` makes of one record. */
  function XattrBytes(volume: Volume, blockSize: u32, rec: Bytes, cnid: u32, name: string): Option<Bytes> {
    var key :- ParseAttrKey(rec, cnid);
    if key.name != name then None
    else
      var kind := Be32(rec, key.body);
      if kind == ATTR_INLINE_DATA then InlineValue(rec, key.body)
      else if kind == ATTR_FORK_DATA then
        var f :- ForkAt(rec, key.body + 8);
        ForkContent(volume, blockSize, f)
      else None
  }

  // ---- the closures handed to the leaf walk ---------------------------------

  function InlineOf(cnid: u32, name: string): Bytes -> Option<Bytes> {
    (rec: Bytes) => AttrInlineValue(rec, cnid, name)
  }

  function XattrOf(cnid: u32): Bytes -> Option<Xattr> {
    (rec: Bytes) => ParseAttrRecord(rec, cnid)
  }

  function BytesOf(volume: Volume, blockSize: u32, cnid: u32, name: string): Bytes -> Option<Bytes> {
    (rec: Bytes) => XattrBytes(volume, blockSize, rec, cnid, name)
  }

  // ---- lookups -------------------------------------------------------------

  function DecmpfsAttribute(volume: Volume, cnid: u32): Option<Bytes> {
    var loc :- LocateAttributes(volume);
    FirstSome(InlineOf(cnid, DECMPFS_XATTR_NAME), Records(volume, loc))
  }

  method DecmpfsXattr(volume: Volume, cnid: u32) returns (found: Option<Bytes>)
    ensures found == DecmpfsAttribute(volume, cnid)
  {
    var loc :- LocateAttributes(volume);
    found := None;
    var recs := ForEachRecord(volume, loc);
    for i := 0 to |recs|
      invariant found == FirstSome(InlineOf(cnid, DECMPFS_XATTR_NAME), recs[..i])
    {
      FirstSomeStep(InlineOf(cnid, DECMPFS_XATTR_NAME), recs, i);
      if found.None? {
        found := AttrInlineValue(recs[i], cnid, DECMPFS_XATTR_NAME);
      }
    }
    assert recs[..|recs|] == recs;
  }

  function AttributesListed(volume: Volume, cnid: u32): seq<Xattr> {
    match LocateAttributes(volume)
    case None => []
    case Some(loc) => FilterMap(XattrOf(cnid), Records(volume, loc))
  }

  method ListXattrs(volume: Volume, cnid: u32) returns (out: seq<Xattr>)
    ensures out == AttributesListed(volume, cnid)
  {
    var loc := LocateAttributes(volume);
    if loc.None? {
      return [];
    }
    out := [];
    var recs := ForEachRecord(volume, loc.value);
    for i := 0 to |recs|
      invariant out == FilterMap(XattrOf(cnid), recs[..i])
    {
      FilterMapStep(XattrOf(cnid), recs, i);
      var x := ParseAttrRecord(recs[i], cnid);
      if x.Some? {
        out := out + [x.value];
      }
    }
    assert recs[..|recs|] == recs;
  }

  function Attribute(volume: Volume, cnid: u32, name: string): Option<Bytes> {
    var loc :- LocateAttributes(volume);
    FirstSome(BytesOf(volume, loc.blockSize, cnid, name), Records(volume, loc))
  }

  method ReadXattr(volume: Volume, cnid: u32, name: string) returns (found: Option<Bytes>)
    ensures found == Attribute(volume, cnid, name)
  {
    var loc :- LocateAttributes(volume);
    found := None;
    var recs := ForEachRecord(volume, loc);
    for i := 0 to |recs|
      invariant found == FirstSome(BytesOf(volume, loc.blockSize, cnid, name), recs[..i])
    {
      FirstSomeStep(BytesOf(volume, loc.blockSize, cnid, name), recs, i);
      if found.Some? {
        continue;
      }
      found := ReadRecord(volume, loc.blockSize, recs[i], cnid, name);
    }
    assert recs[..|recs|] == recs;
  }

  /** The body of `ReadXattr`'s closure for one record. */
  method ReadRecord(volume: Volume, blockSize: u32, rec: Bytes, cnid: u32, name: string) returns (found: Option<Bytes>)
    ensures found == XattrBytes(volume, blockSize, rec, cnid, name)
  {
    var key := ParseAttrKey(rec, cnid);
    if key.None? || key.value.name != name {
      return None;
    }
    var body := key.value.body;
    var kind := Be32(rec, body);
    if kind == ATTR_INLINE_DATA {
      found := InlineValue(rec, body);
    } else if kind == ATTR_FORK_DATA && body + 8 <= |rec| {
      var fork := ParseFork(rec[body + 8..]);
      if fork.Some? {
        found := ForkBytes(volume, blockSize, fork.value);
      } else {
        found := None;
      }
    } else {
      found := None;
    }
  }

  // ---- agreement -----------------------------------------------------------

  /** `rec` is an inline or fork record of (`cnid`, `name`). */
  ghost predicate Carries(rec: Bytes, cnid: u32, name: string) {
    var key := ParseAttrKey(rec, cnid);
    && key.Some? && key.value.name == name
    && (Be32(rec, key.value.body) == ATTR_INLINE_DATA || Be32(rec, key.value.body) == ATTR_FORK_DATA)
  }

  ghost predicate CarriesFork(rec: Bytes, cnid: u32, name: string) {
    Carries(rec, cnid, name) && Be32(rec, ParseAttrKey(rec, cnid).value.body) == ATTR_FORK_DATA
  }

  /** The decoder's own parser and the general one read an inline record alike. */
  lemma {:induction false} InlineParsersAgree(volume: Volume, blockSize: u32, rec: Bytes, cnid: u32, name: string)
    ensures !CarriesFork(rec, cnid, name) ==>
      XattrBytes(volume, blockSize, rec, cnid, name) == AttrInlineValue(rec, cnid, name)
    ensures CarriesFork(rec, cnid, name) ==> AttrInlineValue(rec, cnid, name).None?
  {
  }

  /** The decoder's lookup and the general lookup of the same name part only where the
      first record that reads is one whose value lies in a fork. */
  lemma {:induction false} DecmpfsLookupIsReadXattr(
    volume: Volume, blockSize: u32, recs: seq<Bytes>, cnid: u32, name: string)
    requires forall i :: 0 <= i < |recs| && FirstHit(BytesOf(volume, blockSize, cnid, name), recs, i) ==>
      !CarriesFork(recs[i], cnid, name)
    ensures FirstSome(InlineOf(cnid, name), recs) == FirstSome(BytesOf(volume, blockSize, cnid, name), recs)
  {
    hide CarriesFork, XattrBytes, AttrInlineValue;
    var f, g := InlineOf(cnid, name), BytesOf(volume, blockSize, cnid, name);
    forall i | 0 <= i < |recs| ensures f(recs[i]).Some? ==> g(recs[i]) == f(recs[i]) {
      InlineParsersAgree(volume, blockSize, recs[i], cnid, name);
    }
    var k := FirstSomeIndex(f, recs);
    var m := FirstSomeIndex(g, recs);
    if m < |recs| {
      assert FirstHit(g, recs, m);
      InlineParsersAgree(volume, blockSize, recs[m], cnid, name);
    }
  }

  /** The fork of a listed fork record. */
  function ListedFork(rec: Bytes, cnid: u32): Option<Fork> {
    var key :- ParseAttrKey(rec, cnid);
    if key.startBlock != 0 || Be32(rec, key.body) != ATTR_FORK_DATA then None else ForkAt(rec, key.body + 8)
  }

  /** What a listed record holds: its inline value, or its fork's bytes. */
  function OwnBytes(volume: Volume, blockSize: u32, rec: Bytes, cnid: u32): Option<Bytes>
    requires ParseAttrRecord(rec, cnid).Some?
  {
    match ParseAttrRecord(rec, cnid).value.value
    case Inline(b) => Some(b)
    case InFork(_) => ForkContent(volume, blockSize, ListedFork(rec, cnid).value)
  }

  /** A listed record reads, under its own name, as what it holds. */
  lemma {:induction false} ListedRecordHolds(volume: Volume, blockSize: u32, rec: Bytes, cnid: u32)
    requires ParseAttrRecord(rec, cnid).Some?
    ensures var x := ParseAttrRecord(rec, cnid).value;
      && Carries(rec, cnid, x.name)
      && XattrBytes(volume, blockSize, rec, cnid, x.name) == OwnBytes(volume, blockSize, rec, cnid)
      && (x.value.InFork? ==> ListedFork(rec, cnid).value.logical == x.value.logical)
  {
  }

  /** Exactly when reading a name returns what a listed record of that name holds: if
      the record reads, when no earlier record of the name reads as something else; if
      its fork does not read, when no record of the name reads at all. */
  lemma {:induction false} ListedReadsBackExactly(volume: Volume, blockSize: u32, recs: seq<Bytes>, cnid: u32, j: nat)
    requires j < |recs| && ParseAttrRecord(recs[j], cnid).Some?
    ensures var read := BytesOf(volume, blockSize, cnid, ParseAttrRecord(recs[j], cnid).value.name);
      var own := OwnBytes(volume, blockSize, recs[j], cnid);
      FirstSome(read, recs) == own <==>
      if own.Some? then forall i :: 0 <= i < j && FirstHit(read, recs, i) ==> read(recs[i]) == own
      else forall i :: 0 <= i < |recs| ==> read(recs[i]).None?
  {
    hide ParseAttrRecord, XattrBytes, OwnBytes;
    ListedRecordHolds(volume, blockSize, recs[j], cnid);
    var read := BytesOf(volume, blockSize, cnid, ParseAttrRecord(recs[j], cnid).value.name);
    if read(recs[j]).Some? {
      FirstSomeIsFirstHit(read, recs, j);
    } else {
      var k := FirstSomeIndex(read, recs);
    }
  }

  ghost predicate OneRecordPerName(recs: seq<Bytes>, cnid: u32, name: string) {
    forall i, j :: 0 <= i < j < |recs| ==> !(Carries(recs[i], cnid, name) && Carries(recs[j], cnid, name))
  }

  /** `read` is the fork's bytes: with every extent inside the volume it succeeds, has the
      smaller of listed length and allocated blocks, and takes each byte from its block. */
  ghost predicate ReadsFork(volume: Volume, blockSize: u32, fork: Fork, read: Option<Bytes>) {
    && read == ForkContent(volume, blockSize, fork)
    && (ExtentsInside(volume, blockSize, fork.extents) ==>
        && read.Some? && |read.value| == Min(fork.logical, TotalBlocks(fork.extents) * blockSize)
        && forall i: nat, q: nat :: i < |fork.extents| ==> ByteIsMapped(volume, blockSize, fork, read.value, i, q))
  }

  lemma {:induction false} ForkReads(volume: Volume, blockSize: u32, fork: Fork)
    ensures ReadsFork(volume, blockSize, fork, ForkContent(volume, blockSize, fork))
  {
    if ExtentsInside(volume, blockSize, fork.extents) {
      ForkReadsItsBlocks(volume, blockSize, fork);
    }
  }

  /** With one record per name, everything listed reads back: an inline value byte for
      byte, a fork value through its extent map, cut at the length listed. */
  lemma {:induction false} ListedReadsBack(volume: Volume, blockSize: u32, recs: seq<Bytes>, cnid: u32, j: nat)
    requires j < |recs| && ParseAttrRecord(recs[j], cnid).Some?
    requires OneRecordPerName(recs, cnid, ParseAttrRecord(recs[j], cnid).value.name)
    ensures var x := ParseAttrRecord(recs[j], cnid).value;
      var read := FirstSome(BytesOf(volume, blockSize, cnid, x.name), recs);
      match x.value
      case Inline(b) => read == Some(b)
      case InFork(logical) =>
        var fork := ListedFork(recs[j], cnid);
        fork.Some? && fork.value.logical == logical && ReadsFork(volume, blockSize, fork.value, read)
  {
    var x := ParseAttrRecord(recs[j], cnid).value;
    var f := BytesOf(volume, blockSize, cnid, x.name);
    ListedRecordHolds(volume, blockSize, recs[j], cnid);
    forall i | 0 <= i < |recs| && i != j ensures f(recs[i]).None? {
      assert !Carries(recs[i], cnid, x.name);
    }
    ListedReadsBackExactly(volume, blockSize, recs, cnid, j);
    if x.value.InFork? {
      ForkReads(volume, blockSize, ListedFork(recs[j], cnid).value);
    }
  }
}
