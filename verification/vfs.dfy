/** The virtual-filesystem adapter: windowed reads into a caller's buffer, and streams
    that are listed by position and read by name. */
module Vfs {
  import opened Wrappers
  import opened Sequences
  import opened ByteOrder
  import opened BTree
  import opened Forks
  import opened Catalog
  import opened Attributes
  import opened Reader
  import Decmpfs

  datatype VfsError = Unsupported | Undecodable
  datatype StreamId = Default | XattrStream(idx: u16) | OtherStream
  datatype Residency = Resident(inlineLen: u32) | NonResident
  datatype StreamInfo = StreamInfo(id: StreamId, name: Option<string>, size: nat, residency: Residency)

  // ---- specification -------------------------------------------------------

  /** The attribute at position `idx` of the list, looked up again by its name. */
  function XattrStreamBytes(volume: Volume, cnid: u32, idx: u16): Result<Bytes, VfsError> {
    var all := AttributesListed(volume, cnid);
    if idx >= |all| then Err(Unsupported)
    else Readable(Attribute(volume, cnid, all[idx].name))
  }

  function Readable(read: Option<Bytes>): Result<Bytes, VfsError> {
    match read case Some(data) => Ok(data) case None => Err(Undecodable)
  }

  function StreamBytes(codecs: Decmpfs.Codecs, volume: Volume, cnid: u32, stream: StreamId): Result<Bytes, VfsError> {
    match stream
    case XattrStream(idx) => XattrStreamBytes(volume, cnid, idx)
    case OtherStream => Err(Unsupported)
    case Default => Readable(FileContents(codecs, volume, cnid))
  }

  /** A read at `off` into a buffer that held `before` and now holds `after`: it takes all
      the stream has from there on or fills the buffer, and touches nothing else. */
  ghost predicate ReadsWindow(data: Bytes, off: nat, before: Bytes, after: Bytes, n: nat) {
    && |after| == |before| && n <= |after| && after[n..] == before[n..]
    && if |data| <= off then n == 0
       else off + n <= |data| && (n == |after| || off + n == |data|) && after[..n] == data[off..off + n]
  }

  function WindowLength(data: Bytes, off: nat, len: nat): (n: nat)
    ensures n <= len && (off <= |data| ==> off + n <= |data|)
  {
    if off >= |data| then 0 else Min(len, |data| - off)
  }

  function Window(data: Bytes, off: nat, len: nat): (w: Bytes)
    ensures |w| == WindowLength(data, off, len)
  {
    if off >= |data| then [] else data[off..off + WindowLength(data, off, len)]
  }

  function StreamOf(i: nat, x: Xattr): StreamInfo {
    StreamInfo(
      XattrStream(if i <= U16_MAX then i else U16_MAX),
      Some(x.name),
      x.value.Len(),
      match x.value
      case Inline(b) => Resident(if |b| <= U32_MAX then |b| else U32_MAX)
      case InFork(_) => NonResident)
  }

  function XattrStreams(xs: seq<Xattr>): (s: seq<StreamInfo>)
    ensures |s| == |xs|
    ensures forall i :: 0 <= i < |xs| ==> s[i] == StreamOf(i, xs[i])
  {
    seq(|xs|, i requires 0 <= i < |xs| => StreamOf(i, xs[i]))
  }

  function Streams(volume: Volume, cnid: u32): (s: seq<StreamInfo>)
    ensures |s| == |AttributesListed(volume, cnid)| + 1
  {
    [StreamInfo(Default, None, match Metadata(volume, cnid) case Some(s) => s.size case None => 0, NonResident)]
    + XattrStreams(AttributesListed(volume, cnid))
  }

  // ---- the mounted volume ----------------------------------------------------

  class HfsFs {
    const volume: Volume

    constructor (volume: Volume)
      ensures this.volume == volume
    {
      this.volume := volume;
    }

    /** Copies the window of `data` at `off` into the front of `buf`. */
    method CopyWindow(data: Bytes, off: u64, buf: array<byte>) returns (n: nat)
      modifies buf
      ensures n == WindowLength(data, off, buf.Length)
      ensures buf[..] == Window(data, off, buf.Length) + old(buf[..])[n..]
      ensures ReadsWindow(data, off, old(buf[..]), buf[..], n)
    {
      var start: usize := off;
      if start >= |data| {
        return 0;
      }
      n := Min(buf.Length, |data| - start);
      forall i | 0 <= i < n {
        buf[i] := data[start + i];
      }
    }

    method ReadXattrAt(cnid: u32, idx: u16, off: u64, buf: array<byte>) returns (r: Result<nat, VfsError>)
      modifies buf
      ensures match XattrStreamBytes(volume, cnid, idx)
        case Err(e) => r == Err(e) && buf[..] == old(buf[..])
        case Ok(data) =>
          && r == Ok(WindowLength(data, off, buf.Length))
          && buf[..] == Window(data, off, buf.Length) + old(buf[..])[WindowLength(data, off, buf.Length)..]
          && ReadsWindow(data, off, old(buf[..]), buf[..], r.value)
    {
      var all := ListXattrs(volume, cnid);
      if idx >= |all| {
        return Err(Unsupported);
      }
      var data := ReadXattr(volume, cnid, all[idx].name);
      if data.None? {
        return Err(Undecodable);
      }
      var n := CopyWindow(data.value, off, buf);
      return Ok(n);
    }

    method ReadAt(codecs: Decmpfs.Codecs, cnid: u32, stream: StreamId, off: u64, buf: array<byte>)
      returns (r: Result<nat, VfsError>)
      modifies buf
      ensures match StreamBytes(codecs, volume, cnid, stream)
        case Err(e) => r == Err(e) && buf[..] == old(buf[..])
        case Ok(data) =>
          && r == Ok(WindowLength(data, off, buf.Length))
          && buf[..] == Window(data, off, buf.Length) + old(buf[..])[WindowLength(data, off, buf.Length)..]
          && ReadsWindow(data, off, old(buf[..]), buf[..], r.value)
    {
      if stream.XattrStream? {
        r := ReadXattrAt(cnid, stream.idx, off, buf);
        return;
      }
      if stream != Default {
        return Err(Unsupported);
      }
      var data := ReadFile(codecs, volume, cnid);
      if data.None? {
        return Err(Undecodable);
      }
      var n := CopyWindow(data.value, off, buf);
      return Ok(n);
    }

    method DataStreams(cnid: u32) returns (out: seq<StreamInfo>)
      ensures out == Streams(volume, cnid)
    {
      var metadata := Stat(volume, cnid);
      var size := if metadata.Some? then metadata.value.size else 0;
      var xs := ListXattrs(volume, cnid);
      var named := DescribeXattrs(xs);
      out := [StreamInfo(Default, None, size, NonResident)] + named;
    }

    /** The loop that pushes one stream per attribute. */
    method DescribeXattrs(xs: seq<Xattr>) returns (out: seq<StreamInfo>)
      ensures out == XattrStreams(xs)
    {
      out := [];
      for i := 0 to |xs|
        invariant |out| == i
        invariant forall j :: 0 <= j < i ==> out[j] == StreamOf(j, xs[j])
      {
        var residency := match xs[i].value
          case Inline(b) => Resident(if |b| <= U32_MAX then |b| else U32_MAX)
          case InFork(_) => NonResident;
        var id := XattrStream(if i <= U16_MAX then i else U16_MAX);
        out := out + [StreamInfo(id, Some(xs[i].name), xs[i].value.Len(), residency)];
      }
    }
  }

  // ---- windowed reads reassemble ----------------------------------------------

  /** Reading on from `off`, once per buffer length, each read starting where the last ended. */
  function RunBytes(data: Bytes, off: nat, lens: seq<nat>): Bytes
    decreases |lens|
  {
    if lens == [] then []
    else Window(data, off, lens[0]) + RunBytes(data, off + WindowLength(data, off, lens[0]), lens[1..])
  }

  function RunEnd(data: Bytes, off: nat, lens: seq<nat>): nat
    decreases |lens|
  {
    if lens == [] then off else RunEnd(data, off + WindowLength(data, off, lens[0]), lens[1..])
  }

  /** A run of reads is one contiguous stretch, and non-empty buffers make progress. */
  lemma {:induction false} RunIsContiguous(data: Bytes, off: nat, lens: seq<nat>)
    requires off <= |data| && forall i :: 0 <= i < |lens| ==> lens[i] > 0
    ensures off <= RunEnd(data, off, lens) <= |data|
    ensures RunBytes(data, off, lens) == data[off..RunEnd(data, off, lens)]
    ensures RunEnd(data, off, lens) >= Min(off + |lens|, |data|)
    decreases |lens|
  {
    if lens != [] {
      var off' := off + WindowLength(data, off, lens[0]);
      RunIsContiguous(data, off', lens[1..]);
      var end := RunEnd(data, off, lens);
      assert data[off..off'] + data[off'..end] == data[off..end];
    }
  }

  /** Reading from the start with non-empty buffers until a read returns nothing gives
      exactly the stream's bytes; that happens after at most |data| + 1 reads. */
  lemma {:induction false} WindowedReadsReassemble(data: Bytes, lens: seq<nat>, last: nat)
    requires last > 0 && forall i :: 0 <= i < |lens| ==> lens[i] > 0
    ensures WindowLength(data, RunEnd(data, 0, lens), last) == 0 ==> RunBytes(data, 0, lens) == data
    ensures |lens| >= |data| ==> WindowLength(data, RunEnd(data, 0, lens), last) == 0
  {
    RunIsContiguous(data, 0, lens);
    assert data[0..|data|] == data;
  }

  lemma {:induction false} AttributeFits(volume: Volume, cnid: u32, name: string)
    ensures var read := Attribute(volume, cnid, name); read.Some? ==> |read.value| <= USIZE_MAX
  {
    var located := LocateAttributes(volume);
    if located.Some? {
      var f, recs := BytesOf(volume, located.value.blockSize, cnid, name), Records(volume, located.value);
      var k := FirstSomeIndex(f, recs);
    }
  }

  /** Offsets into a stream fit the 64-bit offset of a read. */
  lemma {:induction false} StreamFits(codecs: Decmpfs.Codecs, volume: Volume, cnid: u32, stream: StreamId)
    ensures var r := StreamBytes(codecs, volume, cnid, stream); r.Ok? ==> |r.value| <= USIZE_MAX
  {
    hide Attribute, Records, FirstSome, LocateCatalog;
    if stream.XattrStream? {
      var all := AttributesListed(volume, cnid);
      if stream.idx < |all| {
        AttributeFits(volume, cnid, all[stream.idx].name);
      }
    }
  }

  /** One read into a fresh buffer: the bytes it put there. */
  method ReadNext(fs: HfsFs, codecs: Decmpfs.Codecs, cnid: u32, stream: StreamId, off: u64, len: nat)
    returns (r: Result<Bytes, VfsError>)
    ensures r == match StreamBytes(codecs, fs.volume, cnid, stream)
      case Err(e) => Err(e)
      case Ok(data) => Ok(Window(data, off, len))
  {
    hide StreamBytes;
    var buf := new byte[len];
    var n :- fs.ReadAt(codecs, cnid, stream, off, buf);
    return Ok(buf[..n]);
  }

  /** A client that reads a stream with one buffer after the other, of whatever non-zero
      sizes, each read starting where the last ended, until a read returns 0: it gets the
      whole stream in at most one read per byte and a last one, or the stream's error. */
  method ReadWhole(fs: HfsFs, codecs: Decmpfs.Codecs, cnid: u32, stream: StreamId, size: nat -> nat)
    returns (r: Result<Bytes, VfsError>, rounds: nat)
    requires forall i :: size(i) > 0
    ensures r == StreamBytes(codecs, fs.volume, cnid, stream)
    ensures r.Ok? ==> rounds <= |r.value| + 1
  {
    hide StreamBytes;
    StreamFits(codecs, fs.volume, cnid, stream);
    ghost var expected := StreamBytes(codecs, fs.volume, cnid, stream);
    var whole: Bytes := [];
    rounds := 0;
    while true
      invariant if expected.Ok? then whole <= expected.value else whole == []
      invariant expected.Ok? ==> |expected.value| <= USIZE_MAX
      invariant rounds <= |whole|
      decreases if expected.Ok? then |expected.value| - |whole| else 0
    {
      var part := ReadNext(fs, codecs, cnid, stream, |whole|, size(rounds));
      rounds := rounds + 1;
      if part.Err? {
        return part, rounds;
      }
      if part.value == [] {
        assert whole == expected.value;
        return Ok(whole), rounds;
      }
      whole := whole + part.value;
    }
  }

  // ---- streams are read under the name they were listed with --------------------

  /** Position `i` of the attribute list resolves to the attribute it shows, as long as
      the position fits the 16-bit stream number; beyond that, every stream number is
      65535 and rounds the attribute listed there. */
  lemma {:induction false} StreamNumberResolves(codecs: Decmpfs.Codecs, volume: Volume, cnid: u32, i: nat)
    ensures var all := AttributesListed(volume, cnid);
      i < |all| ==>
      StreamBytes(codecs, volume, cnid, Streams(volume, cnid)[i + 1].id)
      == Readable(Attribute(volume, cnid, all[Min(i, U16_MAX)].name))
  {
    hide Attribute, Metadata, FileContents;
    var all := AttributesListed(volume, cnid);
    if i < |all| {
      assert Streams(volume, cnid)[i + 1] == XattrStreams(all)[i];
    }
  }

  /** Record `j` is the one that is listed at position `i`. */
  ghost predicate ListedAt(recs: seq<Bytes>, cnid: u32, i: nat, j: nat) {
    && j < |recs| && |FilterMap(XattrOf(cnid), recs[..j])| == i
    && i < |FilterMap(XattrOf(cnid), recs)|
    && ParseAttrRecord(recs[j], cnid) == Some(FilterMap(XattrOf(cnid), recs)[i])
  }

  lemma {:induction false} PositionHasRecord(recs: seq<Bytes>, cnid: u32, i: nat) returns (j: nat)
    requires i < |FilterMap(XattrOf(cnid), recs)|
    ensures ListedAt(recs, cnid, i, j)
  {
    hide ParseAttrRecord;
    var init := DropLast(recs);
    if i < |FilterMap(XattrOf(cnid), init)| {
      j := PositionHasRecord(init, cnid, i);
      assert recs[..j] == init[..j];
    } else {
      j := |recs| - 1;
      assert recs[..j] == init;
    }
  }

  /** Nothing keeps reading `name` from what record `j` holds, which is `own`: no earlier
      record of the name reads as something else, and if `own` does not read, none does. */
  ghost predicate Unhidden(
    volume: Volume, blockSize: u32, recs: seq<Bytes>, cnid: u32, name: string, j: nat, own: Option<Bytes>)
    requires j < |recs|
  {
    var read := BytesOf(volume, blockSize, cnid, name);
    if own.Some? then forall h :: 0 <= h < j && FirstHit(read, recs, h) ==> read(recs[h]) == own
    else forall h :: 0 <= h < |recs| ==> read(recs[h]).None?
  }

  /** What the stream listed at position `i` reads, whatever the names are: what the record
      listed there holds, exactly when nothing hides that record. */
  lemma {:induction false} ListedStreamReadsExactly(codecs: Decmpfs.Codecs, volume: Volume, cnid: u32, i: nat)
    ensures match LocateAttributes(volume)
      case None => AttributesListed(volume, cnid) == []
      case Some(loc) =>
        var all, recs := AttributesListed(volume, cnid), Records(volume, loc);
        i < |all| && i <= U16_MAX ==>
        var stream := StreamBytes(codecs, volume, cnid, Streams(volume, cnid)[i + 1].id);
        exists j: nat {:trigger ListedAt(recs, cnid, i, j)} ::
          && ListedAt(recs, cnid, i, j)
          && var own := OwnBytes(volume, loc.blockSize, recs[j], cnid);
             stream == Readable(own) <==> Unhidden(volume, loc.blockSize, recs, cnid, all[i].name, j, own)
  {
    hide ParseAttrRecord, StreamBytes, Streams, XattrBytes, OwnBytes, Records;
    var located, all := LocateAttributes(volume), AttributesListed(volume, cnid);
    if located.Some? && i < |all| && i <= U16_MAX {
      var loc, recs := located.value, Records(volume, located.value);
      StreamNumberResolves(codecs, volume, cnid, i);
      var j := PositionHasRecord(recs, cnid, i);
      ListedReadsBackExactly(volume, loc.blockSize, recs, cnid, j);
    }
  }

  /** `stream` gives what record `rec` holds: an inline value byte for byte, a fork value
      through its own extents. */
  ghost predicate GivesRecord(
    volume: Volume, blockSize: u32, rec: Bytes, cnid: u32, stream: Result<Bytes, VfsError>)
    requires ParseAttrRecord(rec, cnid).Some?
  {
    match ParseAttrRecord(rec, cnid).value.value
    case Inline(b) => stream == Ok(b)
    case InFork(logical) =>
      && ListedFork(rec, cnid).Some? && ListedFork(rec, cnid).value.logical == logical
      && var read := ForkContent(volume, blockSize, ListedFork(rec, cnid).value);
      ReadsFork(volume, blockSize, ListedFork(rec, cnid).value, read) && stream == Readable(read)
  }

  /** With one record per name and at most 65536 attributes, a listed stream reads the
      attribute it was listed under. */
  lemma {:induction false} ListedStreamReadsItsAttribute(codecs: Decmpfs.Codecs, volume: Volume, cnid: u32, i: nat)
    ensures match LocateAttributes(volume)
      case None => AttributesListed(volume, cnid) == []
      case Some(loc) =>
        var all, recs := AttributesListed(volume, cnid), Records(volume, loc);
        i < |all| <= 65536 && OneRecordPerName(recs, cnid, all[i].name) ==>
        var stream := StreamBytes(codecs, volume, cnid, Streams(volume, cnid)[i + 1].id);
        exists j: nat {:trigger ListedAt(recs, cnid, i, j)} ::
          ListedAt(recs, cnid, i, j) && GivesRecord(volume, loc.blockSize, recs[j], cnid, stream)
  {
    hide ParseAttrRecord, StreamBytes, Streams, OneRecordPerName, Records, ListedFork;
    var located, all := LocateAttributes(volume), AttributesListed(volume, cnid);
    if located.Some? && i < |all| <= 65536 {
      var loc, recs := located.value, Records(volume, located.value);
      if OneRecordPerName(recs, cnid, all[i].name) {
        StreamNumberResolves(codecs, volume, cnid, i);
        var j := PositionHasRecord(recs, cnid, i);
        ListedReadsBack(volume, loc.blockSize, recs, cnid, j);
        var stream := StreamBytes(codecs, volume, cnid, Streams(volume, cnid)[i + 1].id);
        assert GivesRecord(volume, loc.blockSize, recs[j], cnid, stream);
      }
    }
  }

  // ---- what a listing promises ---------------------------------------------------

  /** A read fails as unsupported exactly for an attribute position past the list or a
      stream of another kind, and as undecodable exactly where the file or the attribute
      of that position does not read. */
  lemma {:induction false} StreamErrorsAreExact(codecs: Decmpfs.Codecs, volume: Volume, cnid: u32, stream: StreamId)
    ensures var r, all := StreamBytes(codecs, volume, cnid, stream), AttributesListed(volume, cnid);
      && (r == Err(Unsupported) <==> stream == OtherStream || (stream.XattrStream? && stream.idx >= |all|))
      && (r == Err(Undecodable) <==>
          || (stream == Default && FileContents(codecs, volume, cnid) == None)
          || (stream.XattrStream? && stream.idx < |all| && Attribute(volume, cnid, all[stream.idx].name) == None))
  {
    hide FileContents, Attribute, AttributesListed;
  }

  /** The default stream comes first; its listed size bounds what reads of it return, for
      a file whose CNID is carried once and which is not compressed. */
  lemma {:induction false} DefaultSizeBounds(codecs: Decmpfs.Codecs, volume: Volume, cnid: u32)
    ensures var first := Streams(volume, cnid)[0];
      first.id == Default && first.name == None && first.residency == NonResident
    ensures match CatalogRecords(volume)
      case None => StreamBytes(codecs, volume, cnid, Default) == Err(Undecodable)
      case Some(recs) =>
        OneRecordPerCnid(recs, cnid) && DecmpfsAttribute(volume, cnid).None? ==>
        var r := StreamBytes(codecs, volume, cnid, Default);
        r.Ok? ==> |r.value| <= Streams(volume, cnid)[0].size
  {
    hide OneRecordPerCnid, DecmpfsAttribute, FileContents, Metadata, AttributesListed;
    StatBoundsRead(codecs, volume, cnid);
  }

  /** Every listed attribute shows its name and, with one record of that name, its true
      size: an inline one reads as exactly that many bytes and says so as resident, one in
      a fork shows the fork's size and reads as at most that many. */
  lemma {:induction false} ListedSizesAreTrue(codecs: Decmpfs.Codecs, volume: Volume, cnid: u32, i: nat)
    ensures match LocateAttributes(volume)
      case None => |Streams(volume, cnid)| == 1
      case Some(loc) =>
        var all, recs := AttributesListed(volume, cnid), Records(volume, loc);
        i < |all| <= 65536 && OneRecordPerName(recs, cnid, all[i].name) ==>
        var shown := Streams(volume, cnid)[i + 1];
        var r := StreamBytes(codecs, volume, cnid, shown.id);
        && shown.name == Some(all[i].name)
        && match shown.residency
           case Resident(n) => r.Ok? && |r.value| == shown.size && n == Min(shown.size, 0xFFFF_FFFF)
           case NonResident =>
             && all[i].value.InFork? && all[i].value.logical == shown.size
             && (r.Ok? ==> |r.value| <= shown.size)
  {
    hide ParseAttrRecord, StreamBytes, OneRecordPerName, Records, ListedFork, Metadata, FilterMap;
    var located, all := LocateAttributes(volume), AttributesListed(volume, cnid);
    if located.Some? && i < |all| <= 65536 {
      var loc, recs := located.value, Records(volume, located.value);
      assert Streams(volume, cnid)[i + 1] == XattrStreams(all)[i];
      if OneRecordPerName(recs, cnid, all[i].name) {
        ListedStreamReadsItsAttribute(codecs, volume, cnid, i);
      }
    }
  }
}
