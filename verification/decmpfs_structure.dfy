/** What every successful chunked decode consumed and produced. */
module DecmpfsStructure {
  import opened Wrappers
  import opened Sequences
  import opened ByteOrder
  import opened Decmpfs

  // ---- structure of a chunked decode ----------------------------------------------

  /** Chunk `j` runs from one bound to the next, ends where slot `j` of the end-offset
      table says, is needed, and is decoded to part `j`, asked for exactly what is still
      missing, at most one chunk's length. */
  ghost predicate Tile(
    codecs: Codecs, algorithm: Algorithm, fork: Bytes, size: usize, bounds: seq<nat>, parts: seq<Bytes>, j: nat)
    requires |bounds| == |parts| + 1 && j < |parts|
  {
    && bounds[j] <= bounds[j + 1] <= |fork|
    && 4 + j * 4 + 4 <= |fork| && bounds[j + 1] == Le32(fork, 4 + j * 4)
    && |Flatten(parts[..j])| < size
    && DecodeChunk(codecs, algorithm, fork[bounds[j]..bounds[j + 1]], Min(size - |Flatten(parts[..j])|, CHUNK_SIZE))
       == Ok(parts[j])
  }

  /** The chunks cut a contiguous range that starts at the header's end. */
  ghost predicate Tiles(
    codecs: Codecs, algorithm: Algorithm, fork: Bytes, size: usize, headerSize: u32, bounds: seq<nat>,
    parts: seq<Bytes>)
  {
    && |bounds| == |parts| + 1 && bounds[0] == headerSize
    && forall j :: 0 <= j < |parts| ==> Tile(codecs, algorithm, fork, size, bounds, parts, j)
  }

  ghost predicate Explains(
    codecs: Codecs, algorithm: Algorithm, fork: Bytes, size: usize, headerSize: u32, k: nat, s: ChunkState,
    bounds: seq<nat>, parts: seq<Bytes>)
  {
    && Tiles(codecs, algorithm, fork, size, headerSize, bounds, parts)
    && Last(bounds) == s.src && Flatten(parts) == s.out
    && |parts| <= k && (|parts| < k ==> |s.out| >= size)
  }

  lemma {:induction false} StepFacts(
    codecs: Codecs, algorithm: Algorithm, fork: Bytes, size: usize, s: ChunkState, i: nat)
    returns (part: Bytes)
    requires i < 0x4000_0000 && |s.out| < size && ChunkStep(codecs, algorithm, fork, size, s, i).Ok?
    ensures 4 + i * 4 + 4 <= |fork| && s.src <= Le32(fork, 4 + i * 4) <= |fork|
    ensures DecodeChunk(codecs, algorithm, fork[s.src..Le32(fork, 4 + i * 4)], Min(size - |s.out|, CHUNK_SIZE))
         == Ok(part)
    ensures ChunkStep(codecs, algorithm, fork, size, s, i) == Ok(ChunkState(s.out + part, Le32(fork, 4 + i * 4)))
  {
    var len: nat := Min(size - |s.out|, CHUNK_SIZE);
    part := DecodeChunk(codecs, algorithm, fork[s.src..Le32(fork, 4 + i * 4)], len).value;
  }

  lemma {:induction false} TileKept(
    codecs: Codecs, algorithm: Algorithm, fork: Bytes, size: usize, bounds: seq<nat>, parts: seq<Bytes>, j: nat,
    end: nat, part: Bytes)
    requires |bounds| == |parts| + 1 && j < |parts| && Tile(codecs, algorithm, fork, size, bounds, parts, j)
    ensures Tile(codecs, algorithm, fork, size, bounds + [end], parts + [part], j)
  {
    assert (parts + [part])[..j] == parts[..j];
  }

  lemma {:induction false} TilesExtend(
    codecs: Codecs, algorithm: Algorithm, fork: Bytes, size: usize, headerSize: u32, bounds: seq<nat>,
    parts: seq<Bytes>, end: nat, part: Bytes)
    requires Tiles(codecs, algorithm, fork, size, headerSize, bounds, parts)
    requires Last(bounds) <= end <= |fork| && 4 + |parts| * 4 + 4 <= |fork| && end == Le32(fork, 4 + |parts| * 4)
    requires |Flatten(parts)| < size
    requires DecodeChunk(codecs, algorithm, fork[Last(bounds)..end], Min(size - |Flatten(parts)|, CHUNK_SIZE))
          == Ok(part)
    ensures Tiles(codecs, algorithm, fork, size, headerSize, bounds + [end], parts + [part])
  {
    forall j | 0 <= j < |parts| ensures Tile(codecs, algorithm, fork, size, bounds + [end], parts + [part], j) {
      TileKept(codecs, algorithm, fork, size, bounds, parts, j, end, part);
    }
    assert (parts + [part])[..|parts|] == parts;
    assert Tile(codecs, algorithm, fork, size, bounds + [end], parts + [part], |parts|);
  }

  lemma {:induction false} FlattenSnoc<T>(xss: seq<seq<T>>, xs: seq<T>)
    ensures Flatten(xss + [xs]) == Flatten(xss) + xs
  {
    FlattenTake(xss + [xs], |xss|);
    assert (xss + [xs])[..|xss|] == xss && (xss + [xs])[..|xss| + 1] == xss + [xs];
  }

  lemma {:induction false} ExplainsStep(
    codecs: Codecs, algorithm: Algorithm, fork: Bytes, size: usize, headerSize: u32, k: nat, s: ChunkState,
    bounds: seq<nat>, parts: seq<Bytes>)
    returns (bounds': seq<nat>, parts': seq<Bytes>)
    requires k < 0x4000_0000 && ChunkStep(codecs, algorithm, fork, size, s, k).Ok?
    requires Explains(codecs, algorithm, fork, size, headerSize, k, s, bounds, parts)
    ensures Explains(codecs, algorithm, fork, size, headerSize, k + 1,
                     ChunkStep(codecs, algorithm, fork, size, s, k).value, bounds', parts')
  {
    hide Tile;
    bounds', parts' := bounds, parts;
    if |s.out| < size {
      var part := StepFacts(codecs, algorithm, fork, size, s, k);
      var end := Le32(fork, 4 + k * 4);
      TilesExtend(codecs, algorithm, fork, size, headerSize, bounds, parts, end, part);
      FlattenSnoc(parts, part);
      bounds', parts' := bounds + [end], parts + [part];
    }
  }

  lemma {:induction false} ChunksTile(
    codecs: Codecs, algorithm: Algorithm, fork: Bytes, size: usize, headerSize: u32, k: nat)
    returns (bounds: seq<nat>, parts: seq<Bytes>)
    requires k <= 0x4000_0000 && ChunkSteps(codecs, algorithm, fork, size, headerSize, k).Ok?
    ensures Explains(codecs, algorithm, fork, size, headerSize, k,
                     ChunkSteps(codecs, algorithm, fork, size, headerSize, k).value, bounds, parts)
  {
    if k == 0 {
      bounds, parts := [headerSize], [];
    } else {
      bounds, parts := ChunksTile(codecs, algorithm, fork, size, headerSize, k - 1);
      var s := ChunkSteps(codecs, algorithm, fork, size, headerSize, k - 1).value;
      bounds, parts := ExplainsStep(codecs, algorithm, fork, size, headerSize, k - 1, s, bounds, parts);
    }
  }

  /** Tiled chunks are what the steps consume. */
  lemma {:induction false} TilesAreSteps(
    codecs: Codecs, algorithm: Algorithm, fork: Bytes, size: usize, headerSize: u32, bounds: seq<nat>,
    parts: seq<Bytes>, k: nat)
    requires Tiles(codecs, algorithm, fork, size, headerSize, bounds, parts)
    requires k <= |parts| <= 0x4000_0000
    ensures ChunkSteps(codecs, algorithm, fork, size, headerSize, k)
         == Ok(ChunkState(Flatten(parts[..k]), bounds[k]))
  {
    hide Tile;
    if k > 0 {
      TilesAreSteps(codecs, algorithm, fork, size, headerSize, bounds, parts, k - 1);
      TileIsStep(codecs, algorithm, fork, size, bounds, parts, k - 1);
    }
  }

  lemma {:induction false} TileIsStep(
    codecs: Codecs, algorithm: Algorithm, fork: Bytes, size: usize, bounds: seq<nat>, parts: seq<Bytes>, j: nat)
    requires |bounds| == |parts| + 1 && j < |parts| && j < 0x4000_0000
    requires Tile(codecs, algorithm, fork, size, bounds, parts, j)
    ensures ChunkStep(codecs, algorithm, fork, size, ChunkState(Flatten(parts[..j]), bounds[j]), j)
         == Ok(ChunkState(Flatten(parts[..j + 1]), bounds[j + 1]))
  {
    FlattenTake(parts, j);
  }

  /** The table inside the header has a slot for every tile, and the tiles stop there or
      where the output is complete. */
  ghost predicate ForkTiled(
    codecs: Codecs, algorithm: Algorithm, fork: Bytes, size: usize, bounds: seq<nat>, parts: seq<Bytes>)
  {
    && 4 <= |fork| && 4 * (|parts| + 1) <= Le32(fork, 0)
    && Tiles(codecs, algorithm, fork, size, Le32(fork, 0), bounds, parts)
    && (4 * (|parts| + 2) <= Le32(fork, 0) ==> |Flatten(parts)| >= size)
  }

  /** A chunked fork decodes to `out` exactly when chunks that lie back to back from the
      header's end, one per table slot used, each decoded at the length still missing,
      give `out`, and the table is used until it ends or the output is complete. */
  lemma {:induction false} ChunkedForkExact(
    codecs: Codecs, algorithm: Algorithm, fork: Bytes, size: usize, out: Bytes)
    ensures ChunkedForkContent(codecs, algorithm, fork, size) == Ok(out) <==>
      exists bounds: seq<nat>, parts: seq<Bytes> ::
        ForkTiled(codecs, algorithm, fork, size, bounds, parts) && Flatten(parts) == out
  {
    hide Tiles, ChunkSteps;
    ContentIsSteps(codecs, algorithm, fork, size);
    if ChunkedForkContent(codecs, algorithm, fork, size) == Ok(out) {
      var headerSize := Le32(fork, 0);
      var bounds, parts := ChunksTile(codecs, algorithm, fork, size, headerSize, headerSize / 4 - 1);
      assert ForkTiled(codecs, algorithm, fork, size, bounds, parts);
    }
    if bounds: seq<nat>, parts: seq<Bytes> :|
        ForkTiled(codecs, algorithm, fork, size, bounds, parts) && Flatten(parts) == out {
      TiledForkDecodes(codecs, algorithm, fork, size, bounds, parts);
    }
  }

  lemma {:induction false} TiledForkDecodes(
    codecs: Codecs, algorithm: Algorithm, fork: Bytes, size: usize, bounds: seq<nat>, parts: seq<Bytes>)
    requires ForkTiled(codecs, algorithm, fork, size, bounds, parts)
    ensures ChunkedForkContent(codecs, algorithm, fork, size) == Ok(Flatten(parts))
  {
    hide ChunkSteps;
    var headerSize := Le32(fork, 0);
    TilesAreSteps(codecs, algorithm, fork, size, headerSize, bounds, parts, |parts|);
    assert parts[..|parts|] == parts;
    if |parts| < headerSize / 4 - 1 {
      ChunkStepsSettle(codecs, algorithm, fork, size, headerSize, |parts|, headerSize / 4 - 1);
    }
    ContentIsSteps(codecs, algorithm, fork, size);
  }

  // ---- bounded output --------------------------------------------------------

  ghost predicate DecodesWithin(codecs: Codecs, algorithm: Algorithm, chunk: Bytes, len: nat) {
    var r := DecodeChunk(codecs, algorithm, chunk, len);
    r.Ok? ==> |r.value| <= len
  }

  /** With a codec that respects the requested length the output never grows past the
      declared size, so the loop's subtraction is always possible. */
  lemma {:induction false} OutputStaysWithinSize(
    codecs: Codecs, algorithm: Algorithm, fork: Bytes, size: usize, headerSize: u32, k: nat)
    requires k <= 0x4000_0000
    requires forall chunk: Bytes, len: nat :: DecodesWithin(codecs, algorithm, chunk, len)
    requires ChunkSteps(codecs, algorithm, fork, size, headerSize, k).Ok?
    ensures |ChunkSteps(codecs, algorithm, fork, size, headerSize, k).value.out| <= size
  {
    if k > 0 {
      OutputStaysWithinSize(codecs, algorithm, fork, size, headerSize, k - 1);
      var s := ChunkSteps(codecs, algorithm, fork, size, headerSize, k - 1).value;
      if |s.out| < size {
        var chunk := fork[s.src..Le32(fork, 4 + (k - 1) * 4)];
        assert DecodesWithin(codecs, algorithm, chunk, Min(size - |s.out|, CHUNK_SIZE));
      }
    }
  }

  // ---- trailing bytes ----------------------------------------------------------

  lemma {:induction false} StepIgnoresTrailing(
    codecs: Codecs, algorithm: Algorithm, fork: Bytes, trailing: Bytes, size: usize, s: ChunkState, i: nat)
    requires i < 0x4000_0000 && ChunkStep(codecs, algorithm, fork, size, s, i).Ok?
    ensures ChunkStep(codecs, algorithm, fork + trailing, size, s, i) == ChunkStep(codecs, algorithm, fork, size, s, i)
  {
    if |s.out| < size {
      var end := Le32(fork, 4 + i * 4);
      assert Le32(fork + trailing, 4 + i * 4) == end;
      assert (fork + trailing)[s.src..end] == fork[s.src..end];
    }
  }

  lemma {:induction false} StepsIgnoreTrailing(
    codecs: Codecs, algorithm: Algorithm, fork: Bytes, trailing: Bytes, size: usize, headerSize: u32, k: nat)
    requires k <= 0x4000_0000 && ChunkSteps(codecs, algorithm, fork, size, headerSize, k).Ok?
    ensures ChunkSteps(codecs, algorithm, fork + trailing, size, headerSize, k)
         == ChunkSteps(codecs, algorithm, fork, size, headerSize, k)
  {
    if k > 0 {
      StepsIgnoreTrailing(codecs, algorithm, fork, trailing, size, headerSize, k - 1);
      var s := ChunkSteps(codecs, algorithm, fork, size, headerSize, k - 1).value;
      StepIgnoresTrailing(codecs, algorithm, fork, trailing, size, s, k - 1);
    }
  }

  /** A fork that decodes still decodes to the same bytes with anything appended. */
  lemma {:induction false} ChunkedIgnoresTrailing(
    codecs: Codecs, algorithm: Algorithm, fork: Bytes, trailing: Bytes, size: usize)
    requires ChunkedForkContent(codecs, algorithm, fork, size).Ok?
    ensures ChunkedForkContent(codecs, algorithm, fork + trailing, size)
         == ChunkedForkContent(codecs, algorithm, fork, size)
  {
    hide ChunkStep, ChunkSteps;
    var headerSize := Le32(fork, 0);
    ContentIsSteps(codecs, algorithm, fork, size);
    StepsIgnoreTrailing(codecs, algorithm, fork, trailing, size, headerSize, headerSize / 4 - 1);
    assert Le32(fork + trailing, 0) == headerSize;
    ContentIsSteps(codecs, algorithm, fork + trailing, size);
  }
}
