/** The zlib resource fork (type 4): exactly what its block table describes. */
module DecmpfsZlib {
  import opened Wrappers
  import opened Sequences
  import opened ByteOrder
  import opened Decmpfs
  import opened DecmpfsInline

  // ---- zlib resource fork ------------------------------------------------------

  /** The block table of `fork` names, entry by entry, streams that inflate to `blocks`:
      anywhere in the fork, in any order, overlapping or shared. */
  ghost predicate ZlibPlaced(codecs: Codecs, fork: Bytes, blocks: seq<Bytes>) {
    && 4 <= |fork|
    && var table := Be32(fork, 0) as int + 4;
    && table + 4 + 8 * |blocks| <= |fork|
    && Le32(fork, table) == |blocks|
    && forall i :: 0 <= i < |blocks| ==> ZlibEntry(codecs, fork, table, i, blocks[i])
  }

  ghost predicate ZlibEntry(codecs: Codecs, fork: Bytes, table: nat, i: nat, block: Bytes)
    requires table + 4 + 8 * (i + 1) <= |fork|
  {
    var start := table + Le32(fork, table + 4 + i * 8);
    var end := start + Le32(fork, table + 4 + i * 8 + 4);
    end <= |fork| && codecs.inflate(fork[start..end]) == Some(block)
  }

  lemma {:induction false} ZlibEntryIsBlock(codecs: Codecs, fork: Bytes, table: usize, i: nat, block: Bytes)
    requires table <= 0x1_0000_0003 && i < 0x1_0000_0000
    ensures ZlibBlock(codecs, fork, table, i) == Ok(block) <==>
      table + 4 + 8 * (i + 1) <= |fork| && ZlibEntry(codecs, fork, table, i, block)
  {
  }

  lemma {:induction false} ZlibBlocksExact(codecs: Codecs, fork: Bytes, table: usize, blocks: seq<Bytes>)
    requires table <= 0x1_0000_0003 && |blocks| <= 0x1_0000_0000
    requires forall i :: 0 <= i < |blocks| ==> ZlibBlock(codecs, fork, table, i) == Ok(blocks[i])
    ensures ZlibBlocks(codecs, fork, table, |blocks|) == Ok(Flatten(blocks))
  {
    if blocks != [] {
      ZlibBlocksExact(codecs, fork, table, DropLast(blocks));
      FlattenTake(blocks, |blocks| - 1);
      assert blocks[..|blocks|] == blocks;
    }
  }

  lemma {:induction false} ZlibBlocksOf(codecs: Codecs, fork: Bytes, table: usize, n: nat) returns (blocks: seq<Bytes>)
    requires table <= 0x1_0000_0003 && n <= 0x1_0000_0000 && ZlibBlocks(codecs, fork, table, n).Ok?
    ensures |blocks| == n
    ensures forall i :: 0 <= i < n ==> ZlibBlock(codecs, fork, table, i) == Ok(blocks[i])
  {
    if n == 0 {
      blocks := [];
    } else {
      blocks := ZlibBlocksOf(codecs, fork, table, n - 1);
      blocks := blocks + [ZlibBlock(codecs, fork, table, n - 1).value];
    }
  }

  lemma {:induction false} PlacedDecodes(codecs: Codecs, fork: Bytes, blocks: seq<Bytes>)
    requires ZlibPlaced(codecs, fork, blocks)
    ensures ZlibForkContent(codecs, fork) == Ok(Flatten(blocks))
  {
    hide ZlibBlock, ZlibBlocks;
    var table := Be32(fork, 0) as int + 4;
    forall i | 0 <= i < |blocks| ensures ZlibBlock(codecs, fork, table, i) == Ok(blocks[i]) {
      ZlibEntryIsBlock(codecs, fork, table, i, blocks[i]);
    }
    ZlibBlocksExact(codecs, fork, table, blocks);
  }

  lemma {:induction false} DecodesPlaced(codecs: Codecs, fork: Bytes) returns (blocks: seq<Bytes>)
    requires ZlibForkContent(codecs, fork).Ok?
    ensures ZlibPlaced(codecs, fork, blocks)
  {
    var table := Be32(fork, 0) as int + 4;
    blocks := ZlibBlocksOf(codecs, fork, table, Le32(fork, table));
    forall i | 0 <= i < |blocks|
      ensures table + 4 + 8 * (i + 1) <= |fork| && ZlibEntry(codecs, fork, table, i, blocks[i])
    {
      ZlibEntryIsBlock(codecs, fork, table, i, blocks[i]);
    }
    if blocks != [] {
      ZlibEntryIsBlock(codecs, fork, table, |blocks| - 1, blocks[|blocks| - 1]);
    }
  }

  /** A type-4 fork decodes to `out` exactly when its table places blocks whose
      concatenation in table order is `out`. */
  lemma {:induction false} ZlibForkExact(codecs: Codecs, fork: Bytes, out: Bytes)
    ensures ZlibForkContent(codecs, fork) == Ok(out)
       <==> exists blocks: seq<Bytes> :: ZlibPlaced(codecs, fork, blocks) && Flatten(blocks) == out
  {
    if ZlibForkContent(codecs, fork) == Ok(out) {
      var blocks := DecodesPlaced(codecs, fork);
      PlacedDecodes(codecs, fork, blocks);
    }
    if blocks: seq<Bytes> :| ZlibPlaced(codecs, fork, blocks) && Flatten(blocks) == out {
      PlacedDecodes(codecs, fork, blocks);
    }
  }

  /** A table that decodes lies inside the fork: the number of blocks a header can make
      the decoder attempt successfully is bounded by the input's length. */
  lemma {:induction false} ZlibWorkIsBounded(codecs: Codecs, fork: Bytes)
    requires ZlibForkContent(codecs, fork).Ok?
    ensures 4 <= |fork| && Be32(fork, 0) as int + 8 <= |fork|
    ensures Be32(fork, 0) as int + 8 + 8 * Le32(fork, Be32(fork, 0) as int + 4) <= |fork|
  {
    var blocks := DecodesPlaced(codecs, fork);
  }

  /** A type-4 file round trip: encoded blocks stored anywhere the table points. */
  lemma {:induction false} ZlibRoundTrip(codecs: Codecs, fork: Bytes, blocks: seq<Bytes>)
    requires ZlibPlaced(codecs, fork, blocks) && |Flatten(blocks)| <= USIZE_MAX
    ensures Decoded(codecs, Header(4, |Flatten(blocks)|), Some(fork)) == Ok(Flatten(blocks))
  {
    PlacedDecodes(codecs, fork, blocks);
    HeaderAloneReads(4, |Flatten(blocks)|);
  }
}
