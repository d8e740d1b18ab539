/** Transparent-compression decoding: the header, the inline payloads and the two
    resource-fork layouts. The three codecs are parameters. */
module Decmpfs {
  import opened Wrappers
  import opened ByteOrder

  const HEADER_LEN: usize := 16
  const MAGIC: u32 := 0x636D_7066
  const COMPRESSION_TYPE_OFFSET: usize := 4
  const UNCOMPRESSED_SIZE_OFFSET: usize := 8
  const CHUNK_SIZE: usize := 65536

  datatype Algorithm = Uncompressed | Zlib | Lzvn | Lzfse | LzBitmap
  datatype Storage = Inline | ResourceFork
  datatype Compression = Compression(algorithm: Algorithm, storage: Storage)

  datatype DecmpfsError =
    | Truncated
    | BadMagic(magic: u32)
    | UnknownType(kind: u32)
    | Unsupported
    | MissingResourceFork
    | OutOfBounds
    | Codec
    | LengthMismatch(expected: nat, got: nat)

  type Decoding = Result<Bytes, DecmpfsError>

  /** The external codecs; `None` is a rejected stream. */
  datatype Codecs = Codecs(
    inflate: Bytes -> Option<Bytes>,
    lzvn: (Bytes, nat) -> Option<Bytes>,
    lzfse: Bytes -> Option<Bytes>)

  function Classify(kind: u32): Option<Compression> {
    if kind == 1 || kind == 9 then Some(Compression(Uncompressed, Inline))
    else if kind == 10 then Some(Compression(Uncompressed, ResourceFork))
    else if kind == 3 then Some(Compression(Zlib, Inline))
    else if kind == 4 then Some(Compression(Zlib, ResourceFork))
    else if kind == 7 then Some(Compression(Lzvn, Inline))
    else if kind == 8 then Some(Compression(Lzvn, ResourceFork))
    else if kind == 11 then Some(Compression(Lzfse, Inline))
    else if kind == 12 then Some(Compression(Lzfse, ResourceFork))
    else if kind == 13 then Some(Compression(LzBitmap, Inline))
    else if kind == 14 then Some(Compression(LzBitmap, ResourceFork))
    else None
  }

  // ---- bounds-checked readers ------------------------------------------------

  function LeU32(data: Bytes, off: usize): Result<u32, DecmpfsError> {
    match CheckedAdd(off, 4)
    case None => Err(OutOfBounds)
    case Some(end) => if end <= |data| then Ok(Le32(data, off)) else Err(OutOfBounds)
  }

  function BeU32(data: Bytes, off: usize): Result<u32, DecmpfsError> {
    match CheckedAdd(off, 4)
    case None => Err(OutOfBounds)
    case Some(end) => if end <= |data| then Ok(Be32(data, off)) else Err(OutOfBounds)
  }

  function LeU64(data: Bytes, off: usize): Result<u64, DecmpfsError> {
    match CheckedAdd(off, 8)
    case None => Err(OutOfBounds)
    case Some(end) => if end <= |data| then Ok(Le64(data, off)) else Err(OutOfBounds)
  }

  function Get(data: Bytes, start: nat, end: nat): Decoding {
    if start <= end <= |data| then Ok(data[start..end]) else Err(OutOfBounds)
  }

  function FromCodec(r: Option<Bytes>): Decoding {
    match r case Some(b) => Ok(b) case None => Err(Codec)
  }

  // ---- inline payloads -------------------------------------------------------

  function DecodeInline(codecs: Codecs, algorithm: Algorithm, payload: Bytes, size: usize, kind: u32): Decoding {
    match algorithm
    case Uncompressed =>
      if kind == 9 then Ok(if payload == [] then [] else payload[1..]) else Ok(payload)
    case Zlib =>
      if payload != [] && payload[0] == 0xFF then Ok(payload[1..]) else FromCodec(codecs.inflate(payload))
    case Lzvn =>
      if payload != [] && payload[0] == 0x06 then Ok(payload[1..])
      else FromCodec(codecs.lzvn(payload, Min(size, CHUNK_SIZE)))
    case Lzfse => FromCodec(codecs.lzfse(payload))
    case LzBitmap => Err(Unsupported)
  }

  // ---- zlib resource fork (type 4) -------------------------------------------

  /** Block `i` of the table at `table`; its offset counts from the table itself. */
  function ZlibBlock(codecs: Codecs, fork: Bytes, table: usize, i: nat): Decoding
    requires table <= 0x1_0000_0003 && i < 0x1_0000_0000
  {
    var entry: usize := table + 4 + i * 8;
    var offset :- LeU32(fork, entry);
    var size :- LeU32(fork, entry + 4);
    var start: usize := table as int + offset;
    var end: usize := start as int + size;
    var block :- Get(fork, start, end);
    FromCodec(codecs.inflate(block))
  }

  function ZlibBlocks(codecs: Codecs, fork: Bytes, table: usize, n: nat): Decoding
    requires table <= 0x1_0000_0003 && n <= 0x1_0000_0000
  {
    if n == 0 then Ok([])
    else
      var before :- ZlibBlocks(codecs, fork, table, n - 1);
      var block :- ZlibBlock(codecs, fork, table, n - 1);
      Ok(before + block)
  }

  function ZlibForkContent(codecs: Codecs, fork: Bytes): Decoding {
    var headerSize :- BeU32(fork, 0);
    var table: usize := headerSize as int + 4;
    var numBlocks :- LeU32(fork, table);
    ZlibBlocks(codecs, fork, table, numBlocks)
  }

  lemma {:induction false} ZlibErrorSticks(codecs: Codecs, fork: Bytes, table: usize, k: nat, n: nat)
    requires table <= 0x1_0000_0003 && k <= n <= 0x1_0000_0000
    requires ZlibBlocks(codecs, fork, table, k).Err?
    ensures ZlibBlocks(codecs, fork, table, n) == ZlibBlocks(codecs, fork, table, k)
  {
    if k < n {
      ZlibErrorSticks(codecs, fork, table, k, n - 1);
    }
  }

  method DecodeZlibResourceFork(codecs: Codecs, fork: Bytes) returns (r: Decoding)
    ensures r == ZlibForkContent(codecs, fork)
  {
    var headerSize :- BeU32(fork, 0);
    var table: usize := headerSize as int + 4;
    var numBlocks :- LeU32(fork, table);
    var out: Bytes := [];
    for i := 0 to numBlocks
      invariant ZlibBlocks(codecs, fork, table, i) == Ok(out)
    {
      var block := ZlibBlock(codecs, fork, table, i);
      if block.Err? {
        ZlibErrorSticks(codecs, fork, table, i + 1, numBlocks);
        return block;
      }
      out := out + block.value;
    }
    return Ok(out);
  }

  // ---- chunked resource fork (types 8, 10, 12) --------------------------------

  function DecodeChunk(codecs: Codecs, algorithm: Algorithm, chunk: Bytes, len: nat): Decoding {
    match algorithm
    case Lzvn => FromCodec(codecs.lzvn(chunk, len))
    case Lzfse => FromCodec(codecs.lzfse(chunk))
    case Uncompressed => Ok(chunk)
    case Zlib => Err(Codec)
    case LzBitmap => Err(Codec)
  }

  /** Bytes produced so far and the end of the last chunk consumed. */
  datatype ChunkState = ChunkState(out: Bytes, src: nat)

  function ChunkStep(codecs: Codecs, algorithm: Algorithm, fork: Bytes, size: usize, s: ChunkState, i: nat)
    : Result<ChunkState, DecmpfsError>
    requires i < 0x4000_0000
  {
    if |s.out| >= size then Ok(s)
    else
      var end :- LeU32(fork, 4 + i * 4);
      if end < s.src then Err(OutOfBounds)
      else
        var chunk :- Get(fork, s.src, end);
        var decoded :- DecodeChunk(codecs, algorithm, chunk, Min(size - |s.out|, CHUNK_SIZE));
        Ok(ChunkState(s.out + decoded, end))
  }

  /** The state after the first `k` slots of the end-offset table. */
  function ChunkSteps(codecs: Codecs, algorithm: Algorithm, fork: Bytes, size: usize, headerSize: u32, k: nat)
    : Result<ChunkState, DecmpfsError>
    requires k <= 0x4000_0000
  {
    if k == 0 then Ok(ChunkState([], headerSize))
    else
      var s :- ChunkSteps(codecs, algorithm, fork, size, headerSize, k - 1);
      ChunkStep(codecs, algorithm, fork, size, s, k - 1)
  }

  function ChunkedForkContent(codecs: Codecs, algorithm: Algorithm, fork: Bytes, size: usize): Decoding {
    var headerSize :- LeU32(fork, 0);
    if headerSize / 4 < 1 then Err(OutOfBounds)
    else OutOf(ChunkSteps(codecs, algorithm, fork, size, headerSize, headerSize / 4 - 1))
  }

  lemma {:induction false} ContentIsSteps(codecs: Codecs, algorithm: Algorithm, fork: Bytes, size: usize)
    ensures ChunkedForkContent(codecs, algorithm, fork, size)
         == if 4 <= |fork| && 4 <= Le32(fork, 0)
            then OutOf(ChunkSteps(codecs, algorithm, fork, size, Le32(fork, 0), Le32(fork, 0) / 4 - 1))
            else Err(OutOfBounds)
  {
  }

  /** An error, and equally a complete output, ends the table walk. */
  lemma {:induction false} ChunkStepsSettle(
    codecs: Codecs, algorithm: Algorithm, fork: Bytes, size: usize, headerSize: u32, k: nat, n: nat)
    requires k <= n <= 0x4000_0000
    requires var r := ChunkSteps(codecs, algorithm, fork, size, headerSize, k); r.Ok? ==> |r.value.out| >= size
    ensures ChunkSteps(codecs, algorithm, fork, size, headerSize, n)
         == ChunkSteps(codecs, algorithm, fork, size, headerSize, k)
  {
    if k < n {
      ChunkStepsSettle(codecs, algorithm, fork, size, headerSize, k, n - 1);
    }
  }

  function OutOf(r: Result<ChunkState, DecmpfsError>): Decoding {
    match r case Ok(s) => Ok(s.out) case Err(e) => Err(e)
  }

  method DecodeChunkedResourceFork(codecs: Codecs, algorithm: Algorithm, fork: Bytes, size: usize) returns (r: Decoding)
    ensures r == ChunkedForkContent(codecs, algorithm, fork, size)
  {
    var headerSize :- LeU32(fork, 0);
    var nSlots := CheckedSub(headerSize / 4, 1);
    if nSlots.None? {
      return Err(OutOfBounds);
    }
    r := WalkChunks(codecs, algorithm, fork, size, headerSize, nSlots.value);
  }

  /** The loop over the end-offset table. */
  method WalkChunks(codecs: Codecs, algorithm: Algorithm, fork: Bytes, size: usize, headerSize: u32, nSlots: nat)
    returns (r: Decoding)
    requires nSlots < 0x4000_0000
    ensures r == OutOf(ChunkSteps(codecs, algorithm, fork, size, headerSize, nSlots))
  {
    var out: Bytes := [];
    var src: usize := headerSize;
    var i := 0;
    while i < nSlots
      invariant 0 <= i <= nSlots
      invariant ChunkSteps(codecs, algorithm, fork, size, headerSize, i) == Ok(ChunkState(out, src))
    {
      if |out| >= size {
        ChunkStepsSettle(codecs, algorithm, fork, size, headerSize, i, nSlots);
        return Ok(out);
      }
      var next := NextChunk(codecs, algorithm, fork, size, headerSize, out, src, i);
      if next.Err? {
        ChunkStepsSettle(codecs, algorithm, fork, size, headerSize, i + 1, nSlots);
        return Err(next.error);
      }
      out, src := out + next.value.0, next.value.1;
      i := i + 1;
    }
    return Ok(out);
  }

  /** One round of the chunk loop: the decoded chunk and the new source position. */
  method NextChunk(
    codecs: Codecs, algorithm: Algorithm, fork: Bytes, size: usize, ghost headerSize: u32, out: Bytes, src: usize,
    i: nat)
    returns (r: Result<(Bytes, u32), DecmpfsError>)
    requires i < 0x4000_0000 && |out| < size
    requires ChunkSteps(codecs, algorithm, fork, size, headerSize, i) == Ok(ChunkState(out, src))
    ensures ChunkSteps(codecs, algorithm, fork, size, headerSize, i + 1)
         == match r case Ok(de) => Ok(ChunkState(out + de.0, de.1)) case Err(e) => Err(e)
  {
    var slot: usize := 4 + i * 4;
    var end := LeU32(fork, slot);
    if end.Err? {
      return Err(end.error);
    }
    if end.value < src {
      return Err(OutOfBounds);
    }
    var chunk := Get(fork, src, end.value);
    if chunk.Err? {
      return Err(chunk.error);
    }
    var remaining := CheckedSub(size, |out|);
    if remaining.None? {
      return Err(OutOfBounds);
    }
    var decoded := DecodeChunk(codecs, algorithm, chunk.value, Min(remaining.value, CHUNK_SIZE));
    if decoded.Err? {
      return Err(decoded.error);
    }
    return Ok((decoded.value, end.value));
  }

  // ---- the whole attribute ----------------------------------------------------

  function ResourceForkContent(codecs: Codecs, algorithm: Algorithm, fork: Bytes, size: usize): Decoding {
    match algorithm
    case Zlib => ZlibForkContent(codecs, fork)
    case LzBitmap => Err(Unsupported)
    case _ => ChunkedForkContent(codecs, algorithm, fork, size)
  }

  /** The decoded file. A success has exactly the length the header declares. */
  function Decoded(codecs: Codecs, xattr: Bytes, resource: Option<Bytes>): (r: Decoding)
    ensures r.Ok? ==> HEADER_LEN <= |xattr| && |r.value| == Le64(xattr, UNCOMPRESSED_SIZE_OFFSET)
  {
    if |xattr| < HEADER_LEN then Err(Truncated)
    else
      var magic :- LeU32(xattr, 0);
      if magic != MAGIC then Err(BadMagic(magic))
      else
        var kind :- LeU32(xattr, COMPRESSION_TYPE_OFFSET);
        var size :- LeU64(xattr, UNCOMPRESSED_SIZE_OFFSET);
        match Classify(kind)
        case None => Err(if kind == 5 then Unsupported else UnknownType(kind))
        case Some(c) =>
          if c.algorithm == LzBitmap then Err(Unsupported)
          else
            var out :- Payload(codecs, c, xattr, resource, size, kind);
            if |out| != size then Err(LengthMismatch(size, |out|)) else Ok(out)
  }

  function Payload(
    codecs: Codecs, c: Compression, xattr: Bytes, resource: Option<Bytes>, size: usize, kind: u32): Decoding
    requires HEADER_LEN <= |xattr|
  {
    match c.storage
    case Inline => DecodeInline(codecs, c.algorithm, xattr[HEADER_LEN..], size, kind)
    case ResourceFork =>
      match resource
      case None => Err(MissingResourceFork)
      case Some(fork) => ResourceForkContent(codecs, c.algorithm, fork, size)
  }

  method DecodeResourceFork(codecs: Codecs, algorithm: Algorithm, fork: Bytes, size: usize) returns (r: Decoding)
    ensures r == ResourceForkContent(codecs, algorithm, fork, size)
  {
    match algorithm
    case Zlib => r := DecodeZlibResourceFork(codecs, fork);
    case LzBitmap => r := Err(Unsupported);
    case _ => r := DecodeChunkedResourceFork(codecs, algorithm, fork, size);
  }

  method Decompress(codecs: Codecs, xattr: Bytes, resource: Option<Bytes>) returns (r: Decoding)
    ensures r == Decoded(codecs, xattr, resource)
  {
    if |xattr| < HEADER_LEN {
      return Err(Truncated);
    }
    var magic :- LeU32(xattr, 0);
    if magic != MAGIC {
      return Err(BadMagic(magic));
    }
    var kind :- LeU32(xattr, COMPRESSION_TYPE_OFFSET);
    var size :- LeU64(xattr, UNCOMPRESSED_SIZE_OFFSET);
    var c := Classify(kind);
    if c.None? {
      return Err(if kind == 5 then Unsupported else UnknownType(kind));
    }
    if c.value.algorithm == LzBitmap {
      return Err(Unsupported);
    }
    var out: Decoding;
    if c.value.storage == Inline {
      out := DecodeInline(codecs, c.value.algorithm, xattr[HEADER_LEN..], size, kind);
    } else if resource.None? {
      out := Err(MissingResourceFork);
    } else {
      out := DecodeResourceFork(codecs, c.value.algorithm, resource.value, size);
    }
    if out.Ok? && |out.value| != size {
      return Err(LengthMismatch(size, |out.value|));
    }
    return out;
  }
}
