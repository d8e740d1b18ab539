/** Which error the decoder returns, and exactly when. */
module DecmpfsErrors {
  import opened Wrappers
  import opened ByteOrder
  import opened Decmpfs

  ghost predicate HasHeader(xattr: Bytes) {
    HEADER_LEN <= |xattr| && Le32(xattr, 0) == MAGIC
  }

  function KindOf(xattr: Bytes): u32
    requires HEADER_LEN <= |xattr|
  {
    Le32(xattr, COMPRESSION_TYPE_OFFSET)
  }

  /** The types the decoder decodes, from the attribute itself and from the resource fork. */
  const INLINE_TYPES: set<u32> := {1, 3, 7, 9, 11}
  const FORK_TYPES: set<u32> := {4, 8, 10, 12}
  /** The types it knows and refuses. */
  const REFUSED_TYPES: set<u32> := {5, 13, 14}

  ghost predicate FailsInside(e: DecmpfsError) {
    e == OutOfBounds || e == Codec
  }

  lemma {:induction false} ZlibBlocksFailInside(codecs: Codecs, fork: Bytes, table: usize, n: nat)
    requires table <= 0x1_0000_0003 && n <= 0x1_0000_0000
    ensures var r := ZlibBlocks(codecs, fork, table, n); r.Err? ==> FailsInside(r.error)
  {
    if n > 0 {
      ZlibBlocksFailInside(codecs, fork, table, n - 1);
    }
  }

  lemma {:induction false} ChunkStepsFailInside(
    codecs: Codecs, algorithm: Algorithm, fork: Bytes, size: usize, headerSize: u32, k: nat)
    requires k <= 0x4000_0000
    ensures var r := ChunkSteps(codecs, algorithm, fork, size, headerSize, k); r.Err? ==> FailsInside(r.error)
  {
    if k > 0 {
      ChunkStepsFailInside(codecs, algorithm, fork, size, headerSize, k - 1);
    }
  }

  lemma {:induction false} ForkFailsInside(codecs: Codecs, algorithm: Algorithm, fork: Bytes, size: usize)
    requires algorithm != LzBitmap
    ensures var r := ResourceForkContent(codecs, algorithm, fork, size); r.Err? ==> FailsInside(r.error)
  {
    hide ChunkSteps, ZlibBlocks;
    if algorithm == Zlib {
      if 4 <= |fork| {
        var table: usize := Be32(fork, 0) as int + 4;
        if table + 4 <= |fork| {
          ZlibBlocksFailInside(codecs, fork, table, Le32(fork, table));
        }
      }
    } else if 4 <= |fork| && 4 <= Le32(fork, 0) {
      ContentIsSteps(codecs, algorithm, fork, size);
      ChunkStepsFailInside(codecs, algorithm, fork, size, Le32(fork, 0), Le32(fork, 0) / 4 - 1);
    }
  }

  /** A payload the decoder looks at fails only inside, and without its fork not even there. */
  lemma {:induction false} PayloadFails(
    codecs: Codecs, c: Compression, xattr: Bytes, resource: Option<Bytes>, size: usize, kind: u32)
    requires HEADER_LEN <= |xattr| && c.algorithm != LzBitmap
    ensures var r := Payload(codecs, c, xattr, resource, size, kind);
      && (c.storage == ResourceFork && resource.None? ==> r == Err(MissingResourceFork))
      && (c.storage == Inline || resource.Some? ==> r.Err? ==> FailsInside(r.error))
  {
    hide ResourceForkContent;
    if resource.Some? {
      ForkFailsInside(codecs, c.algorithm, resource.value, size);
    }
  }

  /** What the payload of a decoded type unpacks to. */
  ghost function Unpacked(codecs: Codecs, xattr: Bytes, resource: Option<Bytes>): Decoding
    requires HasHeader(xattr) && KindOf(xattr) in INLINE_TYPES + FORK_TYPES
  {
    var kind := KindOf(xattr);
    Payload(codecs, Classify(kind).value, xattr, resource, Le64(xattr, UNCOMPRESSED_SIZE_OFFSET), kind)
  }

  /** Each error is returned in exactly one situation: the header's own defects, in this
      order, then a missing fork, then whatever fails inside a payload, and last a payload
      that unpacks to another length than the header declares. */
  lemma {:induction false} ErrorsAreExact(codecs: Codecs, xattr: Bytes, resource: Option<Bytes>, e: DecmpfsError)
    ensures Decoded(codecs, xattr, resource) == Err(e) <==>
      match e
      case Truncated => |xattr| < HEADER_LEN
      case BadMagic(magic) => HEADER_LEN <= |xattr| && magic == Le32(xattr, 0) != MAGIC
      case UnknownType(kind) =>
        HasHeader(xattr) && kind == KindOf(xattr) && kind !in INLINE_TYPES + FORK_TYPES + REFUSED_TYPES
      case Unsupported => HasHeader(xattr) && KindOf(xattr) in REFUSED_TYPES
      case MissingResourceFork => HasHeader(xattr) && KindOf(xattr) in FORK_TYPES && resource.None?
      case LengthMismatch(expected, got) =>
        && HasHeader(xattr) && KindOf(xattr) in INLINE_TYPES + FORK_TYPES
        && expected == Le64(xattr, UNCOMPRESSED_SIZE_OFFSET) != got
        && Unpacked(codecs, xattr, resource).Ok? && |Unpacked(codecs, xattr, resource).value| == got
      case _ =>
        && HasHeader(xattr) && (KindOf(xattr) in INLINE_TYPES || (KindOf(xattr) in FORK_TYPES && resource.Some?))
        && Unpacked(codecs, xattr, resource) == Err(e)
  {
    hide Payload;
    if HasHeader(xattr) {
      var kind := KindOf(xattr);
      var c, size := Classify(kind), Le64(xattr, UNCOMPRESSED_SIZE_OFFSET);
      if c.Some? && c.value.algorithm != LzBitmap {
        PayloadFails(codecs, c.value, xattr, resource, size, kind);
      }
    }
  }
}
