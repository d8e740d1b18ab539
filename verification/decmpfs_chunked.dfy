/** The chunked resource forks (types 8, 10 and 12): layout, encoder, round trips. */
module DecmpfsChunked {
  import opened Wrappers
  import opened Sequences
  import opened ByteOrder
  import opened Decmpfs
  import opened DecmpfsInline

  // ---- chunked layout ---------------------------------------------------------

  /** Where chunk `i` starts, and where the chunk before it ends. */
  ghost function EndOf(chunks: seq<Bytes>, headerSize: nat, i: nat): nat
    requires i <= |chunks|
  {
    headerSize + |Flatten(chunks[..i])|
  }

  /** `fork` stores `chunks` back to back from `headerSize` on, with one end offset per
      chunk. What the rest of the table holds, and what follows the chunks, is free. */
  ghost predicate ChunksLaidOut(fork: Bytes, headerSize: u32, chunks: seq<Bytes>) {
    && 4 * (|chunks| + 1) <= headerSize
    && 4 * (|chunks| + 1) <= |fork|
    && Le32(fork, 0) == headerSize
    && (forall i :: 0 <= i < |chunks| ==> Le32(fork, 4 + i * 4) == EndOf(chunks, headerSize, i + 1))
    && (forall i :: 0 <= i < |chunks| ==> Holds(fork, EndOf(chunks, headerSize, i), chunks[i]))
  }

  /** The length the decoder asks of piece `i`: what is missing, at most one chunk. */
  ghost function Requested(pieces: seq<Bytes>, i: nat): nat
    requires i <= |pieces|
  {
    FlattenSplit(pieces, i);
    Min(|Flatten(pieces)| - |Flatten(pieces[..i])|, CHUNK_SIZE)
  }

  ghost predicate ChunksDecode(codecs: Codecs, algorithm: Algorithm, chunks: seq<Bytes>, pieces: seq<Bytes>) {
    && |chunks| == |pieces|
    && forall i :: 0 <= i < |chunks| ==>
         DecodeChunk(codecs, algorithm, chunks[i], Requested(pieces, i)) == Ok(pieces[i])
  }

  lemma {:induction false} ChunkedPrefix(
    codecs: Codecs, algorithm: Algorithm, fork: Bytes, headerSize: u32, chunks: seq<Bytes>, pieces: seq<Bytes>, k: nat)
    requires k <= |chunks| < 0x4000_0000 && |Flatten(pieces)| <= USIZE_MAX
    requires ChunksLaidOut(fork, headerSize, chunks) && ChunksDecode(codecs, algorithm, chunks, pieces)
    ensures var r := ChunkSteps(codecs, algorithm, fork, |Flatten(pieces)|, headerSize, k);
      && r.Ok?
      && (r.value == ChunkState(Flatten(pieces[..k]), EndOf(chunks, headerSize, k))
          || r.value.out == Flatten(pieces))
  {
    if k > 0 {
      ChunkedPrefix(codecs, algorithm, fork, headerSize, chunks, pieces, k - 1);
      var s := ChunkSteps(codecs, algorithm, fork, |Flatten(pieces)|, headerSize, k - 1).value;
      FlattenSplit(pieces, k - 1);
      if |s.out| >= |Flatten(pieces)| {
        assert s.out == Flatten(pieces);
      } else {
        ChunkedAdvance(codecs, algorithm, fork, headerSize, chunks, pieces, k - 1);
      }
    }
  }

  lemma {:induction false} ChunkedAdvance(
    codecs: Codecs, algorithm: Algorithm, fork: Bytes, headerSize: u32, chunks: seq<Bytes>, pieces: seq<Bytes>, i: nat)
    requires i < |chunks| < 0x4000_0000 && |Flatten(pieces)| <= USIZE_MAX
    requires ChunksLaidOut(fork, headerSize, chunks) && ChunksDecode(codecs, algorithm, chunks, pieces)
    requires |Flatten(pieces[..i])| < |Flatten(pieces)|
    ensures ChunkStep(codecs, algorithm, fork, |Flatten(pieces)|,
                      ChunkState(Flatten(pieces[..i]), EndOf(chunks, headerSize, i)), i)
         == Ok(ChunkState(Flatten(pieces[..i + 1]), EndOf(chunks, headerSize, i + 1)))
  {
    FlattenTake(pieces, i);
    FlattenTake(chunks, i);
    assert Holds(fork, EndOf(chunks, headerSize, i), chunks[i]);
    assert LeU32(fork, 4 + i * 4) == Ok(Le32(fork, 4 + i * 4));
    assert DecodeChunk(codecs, algorithm, chunks[i], Requested(pieces, i)) == Ok(pieces[i]);
  }

  /** A complete output is the result, however many slots the table still has. */
  lemma {:induction false} CompleteOutputIsContent(
    codecs: Codecs, algorithm: Algorithm, fork: Bytes, size: usize, headerSize: u32, k: nat)
    requires 4 <= |fork| && Le32(fork, 0) == headerSize && 4 * (k + 1) <= headerSize
    requires var r := ChunkSteps(codecs, algorithm, fork, size, headerSize, k); r.Ok? && |r.value.out| >= size
    ensures ChunkedForkContent(codecs, algorithm, fork, size)
         == Ok(ChunkSteps(codecs, algorithm, fork, size, headerSize, k).value.out)
  {
    var n: nat := headerSize / 4 - 1;
    ChunkStepsSettle(codecs, algorithm, fork, size, headerSize, k, n);
    assert OutOf(ChunkSteps(codecs, algorithm, fork, size, headerSize, n))
        == Ok(ChunkSteps(codecs, algorithm, fork, size, headerSize, k).value.out);
    ContentIsSteps(codecs, algorithm, fork, size);
  }

  /** Any laid-out chunks decode to their pieces, whatever the unused table slots and
      the bytes behind the last chunk are. */
  lemma {:induction false} ChunkedForkDecodes(
    codecs: Codecs, algorithm: Algorithm, fork: Bytes, headerSize: u32, chunks: seq<Bytes>, pieces: seq<Bytes>)
    requires |Flatten(pieces)| <= USIZE_MAX
    requires ChunksLaidOut(fork, headerSize, chunks) && ChunksDecode(codecs, algorithm, chunks, pieces)
    ensures ChunkedForkContent(codecs, algorithm, fork, |Flatten(pieces)|) == Ok(Flatten(pieces))
  {
    ChunkedPrefix(codecs, algorithm, fork, headerSize, chunks, pieces, |chunks|);
    assert pieces[..|chunks|] == pieces;
    CompleteOutputIsContent(codecs, algorithm, fork, |Flatten(pieces)|, headerSize, |chunks|);
  }

  // ---- the chunked encoder ------------------------------------------------------

  /** The first `n` end offsets. */
  function EndTable(chunks: seq<Bytes>, headerSize: nat, n: nat): (t: Bytes)
    requires n <= |chunks| && headerSize + |Flatten(chunks)| <= U32_MAX
    ensures |t| == 4 * n
  {
    if n == 0 then []
    else
      FlattenSplit(chunks, n);
      EndTable(chunks, headerSize, n - 1) + ToLe32(headerSize + |Flatten(chunks[..n])|)
  }

  function ChunkedHeaderSize(chunks: seq<Bytes>, padding: nat): nat {
    4 * (|chunks| + 1 + padding)
  }

  function ChunkedHeader(chunks: seq<Bytes>, padding: nat): (h: Bytes)
    requires ChunkedHeaderSize(chunks, padding) + |Flatten(chunks)| <= U32_MAX
    ensures |h| == ChunkedHeaderSize(chunks, padding)
  {
    var headerSize := ChunkedHeaderSize(chunks, padding);
    ToLe32(headerSize) + EndTable(chunks, headerSize, |chunks|) + Zeros(4 * padding)
  }

  function ChunkedFork(chunks: seq<Bytes>, padding: nat): Bytes
    requires ChunkedHeaderSize(chunks, padding) + |Flatten(chunks)| <= U32_MAX
  {
    ChunkedHeader(chunks, padding) + Flatten(chunks)
  }

  /** The encoder's two loops, without padding. */
  method BuildChunkedFork(chunks: seq<Bytes>) returns (fork: Bytes)
    requires ChunkedHeaderSize(chunks, 0) + |Flatten(chunks)| <= U32_MAX
    ensures fork == ChunkedFork(chunks, 0)
  {
    var headerSize := 4 * (|chunks| + 1);
    var end := headerSize;
    var table: Bytes := [];
    for i := 0 to |chunks|
      invariant end == headerSize + |Flatten(chunks[..i])|
      invariant table == EndTable(chunks, headerSize, i)
    {
      FlattenTake(chunks, i);
      FlattenSplit(chunks, i + 1);
      end := end + |chunks[i]|;
      table := table + ToLe32(end);
    }
    var body: Bytes := [];
    for i := 0 to |chunks|
      invariant body == Flatten(chunks[..i])
    {
      FlattenTake(chunks, i);
      body := body + chunks[i];
    }
    assert chunks[..|chunks|] == chunks;
    fork := ToLe32(headerSize) + table + Zeros(0) + body;
  }

  lemma {:induction false} EndTableEntry(chunks: seq<Bytes>, headerSize: nat, n: nat, i: nat)
    requires i < n <= |chunks| && headerSize + |Flatten(chunks)| <= U32_MAX
    ensures Holds(EndTable(chunks, headerSize, n), 4 * i, EntryBytes(chunks, headerSize, i))
  {
    if i < n - 1 {
      EndTableEntry(chunks, headerSize, n - 1, i);
      var t, t' := EndTable(chunks, headerSize, n), EndTable(chunks, headerSize, n - 1);
      assert t[4 * i..4 * i + 4] == t'[4 * i..4 * i + 4];
    }
  }

  ghost function EntryBytes(chunks: seq<Bytes>, headerSize: nat, i: nat): (b: Bytes)
    requires i < |chunks| && headerSize + |Flatten(chunks)| <= U32_MAX
    ensures |b| == 4
  {
    FlattenSplit(chunks, i + 1);
    ToLe32(EndOf(chunks, headerSize, i + 1))
  }

  lemma {:induction false} EncodedEntry(chunks: seq<Bytes>, padding: nat, trailing: Bytes, i: nat)
    requires ChunkedHeaderSize(chunks, padding) + |Flatten(chunks)| <= U32_MAX && i < |chunks|
    ensures var fork := ChunkedFork(chunks, padding) + trailing;
      4 + i * 4 + 4 <= |fork| && Le32(fork, 4 + i * 4) == EndOf(chunks, ChunkedHeaderSize(chunks, padding), i + 1)
  {
    var headerSize := ChunkedHeaderSize(chunks, padding);
    var entry := EntryBytes(chunks, headerSize, i);
    EndTableEntry(chunks, headerSize, |chunks|, i);
    HoldsInside(ToLe32(headerSize), EndTable(chunks, headerSize, |chunks|), Zeros(4 * padding), 4 * i, entry);
    HoldsInFront(ChunkedHeader(chunks, padding), Flatten(chunks), 4 + 4 * i, entry);
    HoldsInFront(ChunkedFork(chunks, padding), trailing, 4 + 4 * i, entry);
    FlattenSplit(chunks, i + 1);
    ReadLe32(ChunkedFork(chunks, padding) + trailing, 4 + 4 * i, EndOf(chunks, headerSize, i + 1));
  }

  lemma {:induction false} EncodedChunk(chunks: seq<Bytes>, padding: nat, trailing: Bytes, i: nat)
    requires ChunkedHeaderSize(chunks, padding) + |Flatten(chunks)| <= U32_MAX && i < |chunks|
    ensures Holds(ChunkedFork(chunks, padding) + trailing, EndOf(chunks, ChunkedHeaderSize(chunks, padding), i),
      chunks[i])
  {
    FlattenSlice(chunks, i);
    HoldsInside(ChunkedHeader(chunks, padding), Flatten(chunks), trailing, |Flatten(chunks[..i])|, chunks[i]);
  }

  lemma {:induction false} EncodedHeaderSize(chunks: seq<Bytes>, padding: nat, trailing: Bytes)
    requires ChunkedHeaderSize(chunks, padding) + |Flatten(chunks)| <= U32_MAX
    ensures Le32(ChunkedFork(chunks, padding) + trailing, 0) == ChunkedHeaderSize(chunks, padding)
  {
    var headerSize := ChunkedHeaderSize(chunks, padding);
    var size := ToLe32(headerSize);
    HoldsInFront(size, EndTable(chunks, headerSize, |chunks|), 0, size);
    HoldsInFront(size + EndTable(chunks, headerSize, |chunks|), Zeros(4 * padding), 0, size);
    HoldsInFront(ChunkedHeader(chunks, padding), Flatten(chunks), 0, size);
    HoldsInFront(ChunkedFork(chunks, padding), trailing, 0, size);
    ReadLe32(ChunkedFork(chunks, padding) + trailing, 0, headerSize);
  }

  /** What the encoder writes is laid out for the decoder, with trailing bytes or without. */
  lemma {:induction false} EncoderLaysOut(chunks: seq<Bytes>, padding: nat, trailing: Bytes)
    requires ChunkedHeaderSize(chunks, padding) + |Flatten(chunks)| <= U32_MAX
    ensures ChunksLaidOut(ChunkedFork(chunks, padding) + trailing, ChunkedHeaderSize(chunks, padding), chunks)
  {
    EncodedHeaderSize(chunks, padding, trailing);
    forall i | 0 <= i < |chunks|
      ensures Le32(ChunkedFork(chunks, padding) + trailing, 4 + i * 4)
           == EndOf(chunks, ChunkedHeaderSize(chunks, padding), i + 1)
    {
      EncodedEntry(chunks, padding, trailing, i);
    }
    forall i | 0 <= i < |chunks|
      ensures Holds(ChunkedFork(chunks, padding) + trailing, EndOf(chunks, ChunkedHeaderSize(chunks, padding), i),
        chunks[i])
    {
      EncodedChunk(chunks, padding, trailing, i);
    }
  }

  // ---- chunked round trips ------------------------------------------------------

  /** A file cut into pieces of 65536 bytes, the last one shorter. */
  function Cut(data: Bytes): (pieces: seq<Bytes>)
    ensures Flatten(pieces) == data
    decreases |data|
  {
    if data == [] then []
    else if |data| <= 65536 then
      assert Flatten([data]) == data + Flatten([data][1..]);
      [data]
    else
      assert data == data[..65536] + data[65536..];
      [data[..65536]] + Cut(data[65536..])
  }

  lemma {:induction false} CutLengths(data: Bytes, i: nat)
    requires i < |Cut(data)|
    ensures |Flatten(Cut(data)[..i])| == i * 65536
    ensures |Cut(data)[i]| == Min(|data| - i * 65536, 65536)
    decreases i
  {
    if |data| > 65536 && i > 0 {
      var rest := data[65536..];
      CutLengths(rest, i - 1);
      assert Cut(data)[..i] == [data[..65536]] + Cut(rest)[..i - 1];
      assert Cut(data)[..i][1..] == Cut(rest)[..i - 1];
    }
  }

  function Encoded(encode: Bytes -> Bytes, pieces: seq<Bytes>): (chunks: seq<Bytes>)
    ensures |chunks| == |pieces|
  {
    seq(|pieces|, i requires 0 <= i < |pieces| => encode(pieces[i]))
  }

  /** The compression type of an even (resource-fork) chunked algorithm. */
  function ChunkedType(algorithm: Algorithm): u32 {
    match algorithm case Lzvn => 8 case Lzfse => 12 case _ => 10
  }

  lemma {:induction false} DecodedFromFork(codecs: Codecs, algorithm: Algorithm, data: Bytes, fork: Bytes)
    requires algorithm == Lzvn || algorithm == Lzfse || algorithm == Uncompressed
    requires |data| <= USIZE_MAX && ChunkedForkContent(codecs, algorithm, fork, |data|) == Ok(data)
    ensures Decoded(codecs, Header(ChunkedType(algorithm), |data|), Some(fork)) == Ok(data)
  {
    hide ChunkedForkContent;
    HeaderAloneReads(ChunkedType(algorithm), |data|);
  }

  /** Files of types 8, 10 and 12 written in CHUNK_SIZE pieces read back exactly, for any
      codec that decodes each encoded piece at its own length, any zero padding of the
      end-offset table, and any bytes behind the last chunk. */
  lemma {:induction false} ChunkedRoundTrip(
    codecs: Codecs, algorithm: Algorithm, encode: Bytes -> Bytes, data: Bytes, padding: nat, trailing: Bytes)
    requires algorithm == Lzvn || algorithm == Lzfse || algorithm == Uncompressed
    requires |data| <= USIZE_MAX
    requires forall i :: 0 <= i < |Cut(data)| ==>
      DecodeChunk(codecs, algorithm, encode(Cut(data)[i]), |Cut(data)[i]|) == Ok(Cut(data)[i])
    requires var chunks := Encoded(encode, Cut(data));
      ChunkedHeaderSize(chunks, padding) + |Flatten(chunks)| <= U32_MAX
    ensures var fork := ChunkedFork(Encoded(encode, Cut(data)), padding) + trailing;
      Decoded(codecs, Header(ChunkedType(algorithm), |data|), Some(fork)) == Ok(data)
  {
    var pieces := Cut(data);
    var chunks := Encoded(encode, pieces);
    var fork := ChunkedFork(chunks, padding) + trailing;
    EncoderLaysOut(chunks, padding, trailing);
    forall i | 0 <= i < |chunks|
      ensures DecodeChunk(codecs, algorithm, chunks[i], Requested(pieces, i)) == Ok(pieces[i])
    {
      CutLengths(data, i);
      assert Requested(pieces, i) == |pieces[i]|;
    }
    ChunkedForkDecodes(codecs, algorithm, fork, ChunkedHeaderSize(chunks, padding), chunks, pieces);
    DecodedFromFork(codecs, algorithm, data, fork);
  }

  /** Codecs that ignore the requested length (types 10 and 12) allow any cut at all. */
  lemma {:induction false} AnyCutRoundTrip(
    codecs: Codecs, algorithm: Algorithm, chunks: seq<Bytes>, pieces: seq<Bytes>, padding: nat, trailing: Bytes)
    requires algorithm == Lzfse || algorithm == Uncompressed
    requires |chunks| == |pieces| && |Flatten(pieces)| <= USIZE_MAX
    requires forall i :: 0 <= i < |pieces| ==> DecodeChunk(codecs, algorithm, chunks[i], 0) == Ok(pieces[i])
    requires ChunkedHeaderSize(chunks, padding) + |Flatten(chunks)| <= U32_MAX
    ensures Decoded(codecs, Header(ChunkedType(algorithm), |Flatten(pieces)|),
                    Some(ChunkedFork(chunks, padding) + trailing))
         == Ok(Flatten(pieces))
  {
    EncoderLaysOut(chunks, padding, trailing);
    forall i | 0 <= i < |chunks|
      ensures DecodeChunk(codecs, algorithm, chunks[i], Requested(pieces, i)) == Ok(pieces[i])
    {
      assert DecodeChunk(codecs, algorithm, chunks[i], Requested(pieces, i))
          == DecodeChunk(codecs, algorithm, chunks[i], 0);
    }
    var fork := ChunkedFork(chunks, padding) + trailing;
    ChunkedForkDecodes(codecs, algorithm, fork, ChunkedHeaderSize(chunks, padding), chunks, pieces);
    DecodedFromFork(codecs, algorithm, Flatten(pieces), fork);
  }
}
