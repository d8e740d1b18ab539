/** The 16-byte header and the payloads stored inline behind it. */
module DecmpfsInline {
  import opened Wrappers
  import opened ByteOrder
  import opened Decmpfs

  // ---- the 16-byte header -----------------------------------------------------

  /** The magic number in its on-disk order "fpmc", the type, and the file's length. */
  function Header(kind: u32, size: u64): (h: Bytes)
    ensures |h| == 16
  {
    [0x66, 0x70, 0x6D, 0x63] + ToLe32(kind) + ToLe64(size)
  }

  lemma {:induction false} HeaderReads(kind: u32, size: u64, payload: Bytes)
    ensures var x := Header(kind, size) + payload;
      Le32(x, 0) == MAGIC && Le32(x, 4) == kind && Le64(x, 8) == size && x[HEADER_LEN..] == payload
  {
    var x := Header(kind, size) + payload;
    assert x[0] == 0x66 && x[1] == 0x70 && x[2] == 0x6D && x[3] == 0x63;
    assert x[4..8] == ToLe32(kind);
    ReadLe32(x, 4, kind);
    assert x[8..16] == ToLe64(size);
    ReadLe64(x, 8, size);
  }

  lemma {:induction false} HeaderAloneReads(kind: u32, size: u64)
    ensures var x := Header(kind, size);
      Le32(x, 0) == MAGIC && Le32(x, 4) == kind && Le64(x, 8) == size
  {
    HeaderReads(kind, size, []);
    assert Header(kind, size) + [] == Header(kind, size);
  }

  // ---- inline payloads ---------------------------------------------------------

  lemma {:induction false} InlineDecodes(
    codecs: Codecs, kind: u32, algorithm: Algorithm, data: Bytes, payload: Bytes, resource: Option<Bytes>)
    requires |data| <= USIZE_MAX && algorithm != LzBitmap
    requires Classify(kind) == Some(Compression(algorithm, Inline))
    requires DecodeInline(codecs, algorithm, payload, |data|, kind) == Ok(data)
    ensures Decoded(codecs, Header(kind, |data|) + payload, resource) == Ok(data)
  {
    hide DecodeInline, Header, Le32, Le64;
    HeaderReads(kind, |data|, payload);
  }

  /** Types that store the file itself: verbatim (1), or behind one marker byte (9, and
      the stored forms of 3 and 7). */
  lemma {:induction false} StoredRoundTrips(codecs: Codecs, data: Bytes, marker: byte, resource: Option<Bytes>)
    requires |data| <= USIZE_MAX
    ensures Decoded(codecs, Header(1, |data|) + data, resource) == Ok(data)
    ensures Decoded(codecs, Header(9, |data|) + Marked(marker, data), resource) == Ok(data)
    ensures Decoded(codecs, Header(3, |data|) + Marked(0xFF, data), resource) == Ok(data)
    ensures Decoded(codecs, Header(7, |data|) + Marked(0x06, data), resource) == Ok(data)
  {
    InlineDecodes(codecs, 1, Uncompressed, data, data, resource);
    InlineDecodes(codecs, 9, Uncompressed, data, Marked(marker, data), resource);
    InlineDecodes(codecs, 3, Zlib, data, Marked(0xFF, data), resource);
    InlineDecodes(codecs, 7, Lzvn, data, Marked(0x06, data), resource);
  }

  function Marked(marker: byte, data: Bytes): (payload: Bytes)
    ensures payload != [] && payload[0] == marker && payload[1..] == data
  {
    [marker] + data
  }

  ghost predicate StartsWith(payload: Bytes, marker: byte) {
    payload != [] && payload[0] == marker
  }

  /** Compressed types, for a codec that undoes its encoder here and a stream that does
      not begin with the marker of the stored form. */
  lemma {:induction false} CompressedRoundTrips(codecs: Codecs, data: Bytes, packed: Bytes, resource: Option<Bytes>)
    requires |data| <= USIZE_MAX
    ensures codecs.inflate(packed) == Some(data) && !StartsWith(packed, 0xFF) ==>
      Decoded(codecs, Header(3, |data|) + packed, resource) == Ok(data)
    ensures codecs.lzvn(packed, |data|) == Some(data) && |data| <= CHUNK_SIZE && !StartsWith(packed, 0x06) ==>
      Decoded(codecs, Header(7, |data|) + packed, resource) == Ok(data)
    ensures codecs.lzfse(packed) == Some(data) ==> Decoded(codecs, Header(11, |data|) + packed, resource) == Ok(data)
  {
    if codecs.inflate(packed) == Some(data) && !StartsWith(packed, 0xFF) {
      InlineDecodes(codecs, 3, Zlib, data, packed, resource);
    }
    if codecs.lzvn(packed, |data|) == Some(data) && |data| <= CHUNK_SIZE && !StartsWith(packed, 0x06) {
      InlineDecodes(codecs, 7, Lzvn, data, packed, resource);
    }
    if codecs.lzfse(packed) == Some(data) {
      InlineDecodes(codecs, 11, Lzfse, data, packed, resource);
    }
  }

  /** The cap on the inline LZVN length loses nothing silently: a header that declares
      more than one chunk is refused, whatever the codec makes of the payload. */
  lemma {:induction false} OversizedLzvnIsRefused(codecs: Codecs, size: u64, payload: Bytes, resource: Option<Bytes>)
    requires size > 65536 && !StartsWith(payload, 0x06)
    requires codecs.lzvn(payload, 65536).Some? ==> |codecs.lzvn(payload, 65536).value| <= 65536
    ensures Decoded(codecs, Header(7, size) + payload, resource).Err?
  {
    HeaderReads(7, size, payload);
  }
}
