/** Writing extents-overflow records, and what the auditor adds up from them. */
module OverflowWriter {
  import opened Wrappers
  import opened Sequences
  import opened ByteOrder
  import opened BTree
  import opened Forks
  import opened Findings
  import opened TreeWriter

  /** A run of a fork's extents behind its inline ones, from fork block `startBlock` on. */
  datatype OverflowFields = Overflow(forkType: byte, cnid: u32, startBlock: u32, extents: seq<Extent>)

  type Overflow = o: OverflowFields | |o.extents| <= 8 witness Overflow(0, 0, 0, [])

  function OverflowKey(o: Overflow): (b: Bytes)
    ensures |b| == 12
  {
    ToBe16(10) + [o.forkType, 0] + ToBe32(o.cnid) + ToBe32(o.startBlock)
  }

  function OverflowBytes(o: Overflow): (b: Bytes)
    ensures |b| == 76
  {
    OverflowKey(o) + SlotTable(o.extents, 8)
  }

  /** The blocks of the written records of one fork of one file. */
  ghost function BlocksFor(items: seq<Overflow>, cnid: u32, forkType: byte): nat {
    if items == [] then 0
    else
      var o := Last(items);
      BlocksFor(DropLast(items), cnid, forkType)
      + if o.cnid == cnid && o.forkType == forkType then TotalBlocks(o.extents) else 0
  }

  lemma {:induction false} KeyReads(o: Overflow, after: Bytes)
    ensures var rec := OverflowKey(o) + after;
      Be16(rec, 0) == 10 && rec[2] == o.forkType && Be32(rec, 4) == o.cnid
  {
    var rec := OverflowKey(o) + after;
    assert rec[0..2] == ToBe16(10);
    ReadBe16(rec, 0, 10);
    assert rec[4..8] == ToBe32(o.cnid);
    ReadBe32(rec, 4, o.cnid);
  }

  lemma {:induction false} SlotCounts(o: Overflow, m: nat, after: Bytes, i: nat)
    requires i < m
    ensures var rec := OverflowKey(o) + SlotTable(o.extents, m) + after;
      ExtentBlocks(rec, 12, i) == if i < |o.extents| then o.extents[i].count as int else 0
  {
    var key, table := OverflowKey(o), SlotTable(o.extents, m);
    var e := if i < |o.extents| then o.extents[i] else Extent(0, 0);
    SlotTableEntry(o.extents, m, i);
    HoldsInside(key, table, after, 8 * i, SlotBytes(e));
    var rec := key + table + after;
    assert rec[12 + 8 * i..12 + 8 * i + 8][4..] == rec[12 + 8 * i + 4..12 + 8 * i + 8];
    assert SlotBytes(e)[4..] == ToBe32(e.count);
    ReadBe32(rec, 12 + 8 * i + 4, e.count);
  }

  lemma {:induction false} SlotsAddUp(o: Overflow, m: nat, after: Bytes, n: nat)
    requires n <= m
    ensures var rec := OverflowKey(o) + SlotTable(o.extents, m) + after;
      ExtentsTotal(rec, 12, n) == TotalBlocks(o.extents[..Min(n, |o.extents|)])
  {
    hide SlotTable, OverflowKey, ExtentBlocks;
    if n > 0 {
      SlotsAddUp(o, m, after, n - 1);
      SlotCounts(o, m, after, n - 1);
      if n <= |o.extents| {
        TotalBlocksSnoc(o.extents[..n - 1], o.extents[n - 1]);
        assert o.extents[..n - 1] + [o.extents[n - 1]] == o.extents[..n];
      }
    }
  }

  /** A record counts for its own fork and file only, with all the blocks of its extents;
      one that ends after `m` of its eight slots counts those. */
  lemma {:induction false} RecordCounts(o: Overflow, m: nat, after: Bytes, cnid: u32, forkType: byte)
    requires m == 8 || (m < 8 && |after| < 8)
    ensures RecordBlocks(OverflowKey(o) + SlotTable(o.extents, m) + after, cnid, forkType)
         == if o.cnid == cnid && o.forkType == forkType then TotalBlocks(o.extents[..Min(m, |o.extents|)]) else 0
  {
    hide SlotTable, OverflowKey, ExtentBlocks, ExtentsTotal;
    var key, table := OverflowKey(o), SlotTable(o.extents, m);
    var rec := key + table + after;
    assert rec == key + (table + after);
    KeyReads(o, table + after);
    SlotsAddUp(o, m, after, m);
    if m < 8 {
      NothingPastTheEnd(rec, 12, m, 8);
    }
  }

  // ---- the whole tree ----------------------------------------------------------------

  function BlocksOf(cnid: u32, forkType: byte): Bytes -> Option<nat> {
    (rec: Bytes) => Some(RecordBlocks(rec, cnid, forkType))
  }

  function CountOf(cnid: u32, forkType: byte): Overflow -> Option<nat> {
    (o: Overflow) => Some(if o.cnid == cnid && o.forkType == forkType then TotalBlocks(o.extents) else 0)
  }

  ghost function Sum(xs: seq<nat>): nat {
    if xs == [] then 0 else Sum(DropLast(xs)) + Last(xs)
  }

  lemma {:induction false} TotalIsSum(recs: seq<Bytes>, cnid: u32, forkType: byte)
    ensures OverflowTotal(recs, cnid, forkType) == Sum(FilterMap(BlocksOf(cnid, forkType), recs))
  {
    hide RecordBlocks;
    if recs != [] {
      TotalIsSum(DropLast(recs), cnid, forkType);
      var before := FilterMap(BlocksOf(cnid, forkType), DropLast(recs));
      assert DropLast(before + [RecordBlocks(Last(recs), cnid, forkType)]) == before;
    }
  }

  lemma {:induction false} CountIsSum(items: seq<Overflow>, cnid: u32, forkType: byte)
    ensures BlocksFor(items, cnid, forkType) == Sum(FilterMap(CountOf(cnid, forkType), items))
  {
    if items != [] {
      CountIsSum(DropLast(items), cnid, forkType);
      var before := FilterMap(CountOf(cnid, forkType), DropLast(items));
      assert DropLast(before + [CountOf(cnid, forkType)(Last(items)).value]) == before;
    }
  }

  lemma {:induction false} CountReads(cnid: u32, forkType: byte, o: Overflow)
    ensures ReadsAs(OverflowBytes, BlocksOf(cnid, forkType), CountOf(cnid, forkType), o)
  {
    hide RecordBlocks, OverflowKey, SlotTable;
    forall tail: Bytes
      ensures BlocksOf(cnid, forkType)(OverflowBytes(o) + tail) == CountOf(cnid, forkType)(o)
    {
      RecordCounts(o, 8, tail, cnid, forkType);
      assert o.extents[..Min(8, |o.extents|)] == o.extents;
    }
  }

  /** The overflow blocks the auditor adds to a fork are those of the records written for
      that fork of that file, wherever the tree stores them. */
  lemma {:induction false} OverflowReadsBack(
    volume: Volume, loc: CatalogLoc, leaves: seq<seq<Overflow>>, nodes: seq<u32>, cnid: u32, forkType: byte)
    ensures StoresChain(volume, loc, OverflowBytes, leaves, nodes) && |nodes| <= 65536 ==>
      OverflowTotal(Records(volume, loc), cnid, forkType) == BlocksFor(Flatten(leaves), cnid, forkType)
  {
    hide ReadsAs, StoresLeaf, Records, OverflowBytes, FilterMap, BlocksOf, CountOf;
    if StoresChain(volume, loc, OverflowBytes, leaves, nodes) && |nodes| <= 65536 {
      forall o | o in Flatten(leaves)
        ensures ReadsAs(OverflowBytes, BlocksOf(cnid, forkType), CountOf(cnid, forkType), o)
      {
        CountReads(cnid, forkType, o);
      }
      RecordsReadBack(volume, loc, OverflowBytes, leaves, nodes, BlocksOf(cnid, forkType), CountOf(cnid, forkType));
      TotalIsSum(Records(volume, loc), cnid, forkType);
      CountIsSum(Flatten(leaves), cnid, forkType);
    }
  }
}
