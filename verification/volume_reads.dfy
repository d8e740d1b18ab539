/** The reader on stored volumes, end to end: it finds what was written. */
module VolumeReads {
  import opened Wrappers
  import opened Sequences
  import opened ByteOrder
  import opened BTree
  import opened Forks
  import opened ExtentMap
  import opened Catalog
  import opened Attributes
  import opened Decmpfs
  import opened DecmpfsInline
  import opened DecmpfsZlib
  import opened Reader
  import opened Findings
  import opened TreeWriter
  import opened LeafWriter
  import opened AttributeWriter
  import opened VolumeWriter
  import DecmpfsChunked

  // ---- what a volume stores --------------------------------------------------------

  /** The volume's catalog, located with blocks of `blockSize` bytes, stores `items` in a
      chain of leaves, wherever these lie. */
  ghost predicate StoresCatalog(volume: Volume, blockSize: u32, items: seq<Item>) {
    && LocateCatalog(volume).Some? && LocateCatalog(volume).value.blockSize == blockSize
    && exists leaves: seq<seq<Item>>, nodes: seq<u32> ::
         CatalogChain(volume, LocateCatalog(volume).value, leaves, nodes) && items == Flatten(leaves)
  }

  ghost predicate CatalogChain(volume: Volume, loc: CatalogLoc, leaves: seq<seq<Item>>, nodes: seq<u32>) {
    StoresChain(volume, loc, ItemBytes, leaves, nodes) && |nodes| <= 65536
  }

  ghost predicate AllComplete(items: seq<Item>) {
    forall item :: item in items ==> Complete(item)
  }

  /** Every volume written around leaves of items stores them. */
  lemma {:induction false} WrittenVolumeStores(
    h: VolumeHeader, gap: Bytes, leaves: seq<seq<Item>>, nodeSize: u16, content: Bytes)
    requires Writable(h, gap, ItemBytes, leaves, nodeSize, content)
    ensures StoresCatalog(VolumeBytes(h, gap, ItemBytes, leaves, nodeSize, content), h.blockSize, Flatten(leaves))
  {
    hide VolumeBytes, LocateCatalog, StoresChain, Flatten;
    CatalogIsLocated(h, gap, ItemBytes, leaves, nodeSize, content);
    ChainIsStored(h, gap, ItemBytes, leaves, nodeSize, content);
    var v, loc := VolumeBytes(h, gap, ItemBytes, leaves, nodeSize, content), WrittenLoc(h, |leaves|, nodeSize);
    assert CatalogChain(v, loc, leaves, NodeNumbers(|leaves|));
  }

  // ---- lookups ---------------------------------------------------------------------

  /** A written volume lists, for every folder, exactly the written file and folder
      records with that parent, in order. */
  lemma {:induction false} VolumeReadsBack(
    h: VolumeHeader, gap: Bytes, leaves: seq<seq<Item>>, nodeSize: u16, content: Bytes, parent: u32)
    requires Writable(h, gap, ItemBytes, leaves, nodeSize, content)
    ensures Directory(VolumeBytes(h, gap, ItemBytes, leaves, nodeSize, content), parent)
         == Some(FilterMap(ItemChildOf(parent), Flatten(leaves)))
  {
    hide VolumeBytes, StoresChain, LocateCatalog, Directory;
    CatalogIsLocated(h, gap, ItemBytes, leaves, nodeSize, content);
    ChainIsStored(h, gap, ItemBytes, leaves, nodeSize, content);
    DirectoryReadsBack(VolumeBytes(h, gap, ItemBytes, leaves, nodeSize, content), WrittenLoc(h, |leaves|, nodeSize),
                       leaves, NodeNumbers(|leaves|), parent);
  }

  /** Metadata and forks are those of the first stored record with the CNID, and the
      delivered threads are the stored ones. */
  lemma {:induction false} LookupsReadBack(volume: Volume, blockSize: u32, items: seq<Item>, cnid: u32)
    requires StoresCatalog(volume, blockSize, items) && AllComplete(items)
    ensures var recs := Records(volume, LocateCatalog(volume).value);
      && Metadata(volume, cnid) == FirstSome(ItemStatOf(cnid), items)
      && FirstSome(ForksOf(cnid), recs) == FirstSome(ItemForksOf(cnid), items)
      && FilterMap(ThreadRecordOf(), recs) == FilterMap(ItemThreadOf(), items)
  {
    hide LocateBtree, StoresChain, ReadsAs, Records, Complete, FilterMap, FirstSome;
    hide StatOf, ForksOf, ThreadRecordOf, ItemStatOf, ItemForksOf, ItemThreadOf;
    var loc := LocateCatalog(volume).value;
    var leaves: seq<seq<Item>>, nodes: seq<u32> :| CatalogChain(volume, loc, leaves, nodes) && items == Flatten(leaves);
    forall item | item in items
      ensures ReadsAs(ItemBytes, StatOf(cnid), ItemStatOf(cnid), item)
      ensures ReadsAs(ItemBytes, ForksOf(cnid), ItemForksOf(cnid), item)
      ensures ReadsAs(ItemBytes, ThreadRecordOf(), ItemThreadOf(), item)
    {
      StatsRead(cnid, item);
      ForksRead(cnid, item);
      ThreadsRead(item);
    }
    RecordsReadBack(volume, loc, ItemBytes, leaves, nodes, StatOf(cnid), ItemStatOf(cnid));
    RecordsReadBack(volume, loc, ItemBytes, leaves, nodes, ForksOf(cnid), ItemForksOf(cnid));
    RecordsReadBack(volume, loc, ItemBytes, leaves, nodes, ThreadRecordOf(), ItemThreadOf());
    SameFirst(StatOf(cnid), Records(volume, loc), ItemStatOf(cnid), items);
    SameFirst(ForksOf(cnid), Records(volume, loc), ItemForksOf(cnid), items);
  }

  // ---- contents --------------------------------------------------------------------

  /** The compression attribute a file has, as written. */
  ghost function CompressionOf(attrs: seq<Attr>, cnid: u32): Option<Bytes> {
    FirstSome(AttrInline(cnid, "com.apple.decmpfs"), attrs)
  }

  /** Reading a CNID reads the first stored file record that carries it. Without a
      compression attribute the bytes stored under its data extents come back. With one,
      the attribute is decoded: alone if the resource fork is empty, and otherwise with
      the bytes stored under the resource fork's extents. */
  lemma {:induction false} FilesReadBack(
    codecs: Codecs, volume: Volume, blockSize: u32, items: seq<Item>, attrs: seq<Attr>, cnid: u32, data: Bytes)
    requires StoresCatalog(volume, blockSize, items) && AllComplete(items) && StoresAttributes(volume, attrs)
    ensures var read := FileContents(codecs, volume, cnid);
      match FirstSome(ItemForksOf(cnid), items)
      case None => read == None
      case Some(forks) =>
        match CompressionOf(attrs, cnid)
        case None =>
          forks.data.logical == |data| && HoldsFile(volume, blockSize, forks.data.extents, data) ==> read == Some(data)
        case Some(xattr) =>
          && (forks.resource.logical == 0 ==>
              read == match Decoded(codecs, xattr, None) case Ok(out) => Some(out) case Err(_) => None)
          && (forks.resource.logical == |data| > 0 && HoldsFile(volume, blockSize, forks.resource.extents, data) ==>
              read == match Decoded(codecs, xattr, Some(data)) case Ok(out) => Some(out) case Err(_) => None)
  {
    hide StoresCatalog, StoresAttributes, Records, FirstSome, ForksOf, ItemForksOf, Decoded, HoldsFile, ForkContent;
    hide AttrInline, LocateBtree, DecmpfsAttribute, AllComplete;
    assert LocateCatalog(volume).Some? && LocateCatalog(volume).value.blockSize == blockSize by {
      StoredIsLocated(volume, blockSize, items);
    }
    LookupsReadBack(volume, blockSize, items, cnid);
    DecmpfsReadsBack(volume, cnid, attrs);
    var forks := FirstSome(ItemForksOf(cnid), items);
    if forks.Some? {
      var resource, content := forks.value.resource, forks.value.data;
      if resource.logical == |data| && HoldsFile(volume, blockSize, resource.extents, data) {
        HeldFileReads(volume, blockSize, resource, data);
      }
      if content.logical == |data| && HoldsFile(volume, blockSize, content.extents, data) {
        HeldFileReads(volume, blockSize, content, data);
      }
    }
  }

  lemma {:induction false} StoredIsLocated(volume: Volume, blockSize: u32, items: seq<Item>)
    requires StoresCatalog(volume, blockSize, items)
    ensures LocateCatalog(volume).Some? && LocateCatalog(volume).value.blockSize == blockSize
  {
  }

  lemma {:induction false} DecmpfsReadsBack(volume: Volume, cnid: u32, attrs: seq<Attr>)
    requires StoresAttributes(volume, attrs)
    ensures DecmpfsAttribute(volume, cnid) == CompressionOf(attrs, cnid)
  {
    hide StoresAttributes, LocateBtree, DecmpfsAttribute, AttributesListed, Attribute;
    var loc := LocateAttributes(volume);
    AttributesReadBack(volume, if loc.Some? then loc.value.blockSize else 0, cnid, "", attrs);
  }

  // ---- compressed files ------------------------------------------------------------

  /** A file compressed as `xattr` says, its resource fork holding `resource`. */
  ghost predicate StoresCompressed(
    volume: Volume, blockSize: u32, items: seq<Item>, attrs: seq<Attr>, cnid: u32, xattr: Bytes, resource: Bytes)
  {
    && StoresCatalog(volume, blockSize, items) && AllComplete(items) && StoresAttributes(volume, attrs)
    && CompressionOf(attrs, cnid) == Some(xattr)
    && FirstSome(ItemForksOf(cnid), items).Some?
    && var fork := FirstSome(ItemForksOf(cnid), items).value.resource;
    && fork.logical == |resource| && (resource != [] ==> HoldsFile(volume, blockSize, fork.extents, resource))
  }

  lemma {:induction false} CompressedReads(
    codecs: Codecs, volume: Volume, blockSize: u32, items: seq<Item>, attrs: seq<Attr>, cnid: u32, xattr: Bytes,
    resource: Bytes, data: Bytes)
    requires StoresCompressed(volume, blockSize, items, attrs, cnid, xattr, resource)
    requires Decoded(codecs, xattr, if resource == [] then None else Some(resource)) == Ok(data)
    ensures FileContents(codecs, volume, cnid) == Some(data)
  {
    hide StoresCatalog, StoresAttributes, FirstSome, ItemForksOf, Decoded, HoldsFile, AllComplete, FileContents;
    FilesReadBack(codecs, volume, blockSize, items, attrs, cnid, resource);
  }

  /** Types 8, 10 and 12: a file cut into chunks of 65536 bytes, encoded, and stored as a
      chunked resource fork anywhere in the volume is read back. */
  lemma {:induction false} ChunkedFilesReadBack(
    codecs: Codecs, volume: Volume, blockSize: u32, items: seq<Item>, attrs: seq<Attr>, cnid: u32,
    algorithm: Algorithm, encode: Bytes -> Bytes, data: Bytes, padding: nat, trailing: Bytes)
    requires algorithm == Lzvn || algorithm == Lzfse || algorithm == Uncompressed
    requires |data| <= USIZE_MAX
    requires forall i :: 0 <= i < |DecmpfsChunked.Cut(data)| ==> var piece := DecmpfsChunked.Cut(data)[i];
      DecodeChunk(codecs, algorithm, encode(piece), |piece|) == Ok(piece)
    requires var chunks := DecmpfsChunked.Encoded(encode, DecmpfsChunked.Cut(data));
      DecmpfsChunked.ChunkedHeaderSize(chunks, padding) + |Flatten(chunks)| <= U32_MAX
    ensures var chunks := DecmpfsChunked.Encoded(encode, DecmpfsChunked.Cut(data));
      var kind := match algorithm case Lzvn => 8 case Lzfse => 12 case _ => 10;
      StoresCompressed(volume, blockSize, items, attrs, cnid, Header(kind, |data|),
                       DecmpfsChunked.ChunkedFork(chunks, padding) + trailing) ==>
      FileContents(codecs, volume, cnid) == Some(data)
  {
    hide StoresCompressed, Decoded, DecmpfsChunked.Cut, FileContents;
    var chunks := DecmpfsChunked.Encoded(encode, DecmpfsChunked.Cut(data));
    var kind := match algorithm case Lzvn => 8 case Lzfse => 12 case _ => 10;
    var resource := DecmpfsChunked.ChunkedFork(chunks, padding) + trailing;
    DecmpfsChunked.ChunkedRoundTrip(codecs, algorithm, encode, data, padding, trailing);
    if StoresCompressed(volume, blockSize, items, attrs, cnid, Header(kind, |data|), resource) {
      CompressedReads(codecs, volume, blockSize, items, attrs, cnid, Header(kind, |data|), resource, data);
    }
  }

  /** Type 4: a file whose blocks the resource fork's table places is read back. */
  lemma {:induction false} ZlibFilesReadBack(
    codecs: Codecs, volume: Volume, blockSize: u32, items: seq<Item>, attrs: seq<Attr>, cnid: u32,
    resource: Bytes, blocks: seq<Bytes>)
    requires ZlibPlaced(codecs, resource, blocks) && |Flatten(blocks)| <= USIZE_MAX
    ensures StoresCompressed(volume, blockSize, items, attrs, cnid, Header(4, |Flatten(blocks)|), resource) ==>
      FileContents(codecs, volume, cnid) == Some(Flatten(blocks))
  {
    hide StoresCompressed, Decoded, FileContents;
    var data := Flatten(blocks);
    ZlibRoundTrip(codecs, resource, blocks);
    if StoresCompressed(volume, blockSize, items, attrs, cnid, Header(4, |data|), resource) {
      CompressedReads(codecs, volume, blockSize, items, attrs, cnid, Header(4, |data|), resource, data);
    }
  }

  /** Types 1, 3, 7, 9 and 11: a file stored or compressed inside its attribute is read
      back, whatever its resource fork holds. */
  lemma {:induction false} InlineFilesReadBack(
    codecs: Codecs, volume: Volume, blockSize: u32, items: seq<Item>, attrs: seq<Attr>, cnid: u32, kind: u32,
    payload: Bytes, resource: Bytes, data: Bytes)
    requires |data| <= USIZE_MAX
    requires
      || (kind == 1 && payload == data)
      || (kind == 9 && payload != [] && payload[1..] == data)
      || (kind == 3 && (if StartsWith(payload, 0xFF) then payload[1..] == data
                        else codecs.inflate(payload) == Some(data)))
      || (kind == 7 && (if StartsWith(payload, 0x06) then payload[1..] == data
                        else |data| <= 65536 && codecs.lzvn(payload, |data|) == Some(data)))
      || (kind == 11 && codecs.lzfse(payload) == Some(data))
    ensures StoresCompressed(volume, blockSize, items, attrs, cnid, Header(kind, |data|) + payload, resource) ==>
      FileContents(codecs, volume, cnid) == Some(data)
  {
    hide StoresCompressed, Decoded, FileContents, Header;
    var xattr := Header(kind, |data|) + payload;
    var fork := if resource == [] then None else Some(resource);
    if kind in {1, 9} || (kind in {3, 7} && StartsWith(payload, if kind == 3 then 0xFF else 0x06)) {
      StoredRoundTrips(codecs, data, if payload == [] then 0 else payload[0], fork);
      assert kind != 1 ==> payload == Marked(payload[0], data);
    } else {
      CompressedRoundTrips(codecs, data, payload, fork);
    }
    if StoresCompressed(volume, blockSize, items, attrs, cnid, xattr, resource) {
      CompressedReads(codecs, volume, blockSize, items, attrs, cnid, xattr, resource, data);
    }
  }
}
