/** HFSPlusForkData: parsing its eight extent slots and materialising its bytes. */
module Forks {
  import opened Wrappers
  import opened ByteOrder

  const FORK_DATA_LEN: usize := 80
  const EXTENT_SLOTS: nat := 8

  datatype Extent = Extent(start: u32, count: u32)
  datatype Fork = Fork(logical: u64, extents: seq<Extent>)

  // ---- parsing -------------------------------------------------------------

  function Slot(fork: Bytes, i: nat): Extent
    requires i < EXTENT_SLOTS && FORK_DATA_LEN <= |fork|
  {
    Extent(Be32(fork, 16 + i * 8), Be32(fork, 16 + i * 8 + 4))
  }

  /** The extents among the first `n` slots: a slot of zero blocks is no extent. */
  function UsedSlots(fork: Bytes, n: nat): (extents: seq<Extent>)
    requires n <= EXTENT_SLOTS && FORK_DATA_LEN <= |fork|
    ensures |extents| <= n
    ensures forall e :: e in extents ==> e.count != 0
  {
    if n == 0 then []
    else UsedSlots(fork, n - 1) + if Slot(fork, n - 1).count != 0 then [Slot(fork, n - 1)] else []
  }

  function ForkOf(fork: Bytes): Option<Fork> {
    if |fork| < FORK_DATA_LEN then None
    else Some(Fork(Be64(fork, 0), UsedSlots(fork, EXTENT_SLOTS)))
  }

  method ParseFork(fork: Bytes) returns (r: Option<Fork>)
    ensures r == ForkOf(fork)
  {
    if |fork| < FORK_DATA_LEN {
      return None;
    }
    var logical := Be64(fork, 0);
    var extents: seq<Extent> := [];
    for i := 0 to EXTENT_SLOTS
      invariant extents == UsedSlots(fork, i)
    {
      var e: usize := 16 + i * 8;
      var start := Be32(fork, e);
      var count := Be32(fork, e + 4);
      if count != 0 {
        extents := extents + [Extent(start, count)];
      }
    }
    return Some(Fork(logical, extents));
  }

  // ---- materialising -------------------------------------------------------

  /** An extent in bytes. */
  datatype Run = Run(begin: usize, len: usize)

  function RunOf(blockSize: u32, e: Extent): Run {
    ProductFits(e.start, blockSize);
    ProductFits(e.count, blockSize);
    Run(e.start * blockSize, e.count * blockSize)
  }

  function Runs(blockSize: u32, extents: seq<Extent>): (runs: seq<Run>)
    ensures |runs| == |extents|
    ensures forall i :: 0 <= i < |extents| ==> runs[i] == RunOf(blockSize, extents[i])
  {
    seq(|extents|, i requires 0 <= i < |extents| => RunOf(blockSize, extents[i]))
  }

  /** The bytes the runs allocate. */
  function ByteLength(runs: seq<Run>): nat {
    if runs == [] then 0 else runs[0].len as int + ByteLength(runs[1..])
  }

  /** The first `logical` bytes the runs yield. A run whose end leaves `usize` fails
      the read, one that begins past the volume ends it, and one that crosses the end
      is clipped; runs behind the logical size are never looked at. */
  function Materialize(volume: Volume, runs: seq<Run>, logical: nat): (r: Option<Bytes>)
    ensures r.Some? ==> |r.value| <= logical && |r.value| <= ByteLength(runs)
  {
    if runs == [] || logical == 0 then Some([])
    else
      var end := runs[0].begin as int + runs[0].len;
      if end > USIZE_MAX then None
      else if runs[0].begin >= |volume| then Some([])
      else
        var part := volume[runs[0].begin..Min(end, |volume|)];
        if |part| >= logical then Some(part[..logical])
        else Prepend(part, Materialize(volume, runs[1..], logical - |part|))
  }

  function Prepend(data: Bytes, r: Option<Bytes>): Option<Bytes> {
    match r case Some(b) => Some(data + b) case None => None
  }

  function ForkContent(volume: Volume, blockSize: u32, fork: Fork): Option<Bytes> {
    Materialize(volume, Runs(blockSize, fork.extents), fork.logical)
  }

  /** The two block products of one extent; on 64 bits neither multiplication fails. */
  method ByteRun(blockSize: u32, e: Extent) returns (run: Option<Run>)
    ensures run == Some(RunOf(blockSize, e))
  {
    ProductFits(e.start, blockSize);
    ProductFits(e.count, blockSize);
    var begin := CheckedMul(e.start, blockSize);
    var len := CheckedMul(e.count, blockSize);
    if begin.None? || len.None? {
      return None;
    }
    return Some(Run(begin.value, len.value));
  }

  method ForkBytes(volume: Volume, blockSize: u32, fork: Fork) returns (r: Option<Bytes>)
    ensures r == ForkContent(volume, blockSize, fork)
  {
    var logical: usize := fork.logical;
    var data: Bytes := [];
    ghost var runs := Runs(blockSize, fork.extents);
    ghost var todo := runs;
    var i := 0;
    ResumeStart(volume, runs, logical);
    while i < |fork.extents|
      invariant 0 <= i <= |fork.extents| && todo == runs[i..]
      invariant ForkContent(volume, blockSize, fork) == Resume(volume, data, todo, logical)
    {
      if |data| >= logical {
        break;
      }
      var run := ByteRun(blockSize, fork.extents[i]);
      if run.None? {
        return None;
      }
      assert todo[0] == run.value && todo[1..] == runs[i + 1..];
      var end := CheckedAdd(run.value.begin, run.value.len);
      if end.None? {
        return None;
      }
      if run.value.begin >= |volume| {
        ResumeStop(volume, data, todo, logical);
        return Some(data);
      }
      var part := volume[run.value.begin..Min(end.value, |volume|)];
      ResumeStep(volume, data, todo, logical);
      data := data + part;
      todo := todo[1..];
      i := i + 1;
    }
    if |data| < logical {
      ResumeStop(volume, data, todo, logical);
    }
    r := Some(if |data| >= logical then data[..logical] else data);
  }

  /** The read's result when `data` is already collected and `todo` is still to come. */
  ghost function Resume(volume: Volume, data: Bytes, todo: seq<Run>, logical: nat): Option<Bytes> {
    if |data| >= logical then Some(data[..logical])
    else Prepend(data, Materialize(volume, todo, logical - |data|))
  }

  lemma {:induction false} ResumeStart(volume: Volume, runs: seq<Run>, logical: nat)
    ensures Resume(volume, [], runs, logical) == Materialize(volume, runs, logical)
  {
    var r := Materialize(volume, runs, logical);
    assert r.Some? ==> [] + r.value == r.value;
  }

  lemma {:induction false} ResumeStop(volume: Volume, data: Bytes, todo: seq<Run>, logical: nat)
    requires |data| < logical
    requires todo == [] || (|volume| <= todo[0].begin && todo[0].begin as int + todo[0].len <= USIZE_MAX)
    ensures Resume(volume, data, todo, logical) == Some(data)
  {
    assert data + [] == data;
  }

  lemma {:induction false} ResumeStep(volume: Volume, data: Bytes, todo: seq<Run>, logical: nat)
    requires |data| < logical && todo != []
    requires todo[0].begin as int + todo[0].len <= USIZE_MAX && todo[0].begin < |volume|
    ensures Resume(volume, data, todo, logical)
         == Resume(volume, data + volume[todo[0].begin..Min(todo[0].begin as int + todo[0].len, |volume|)],
           todo[1..], logical)
  {
    var part := volume[todo[0].begin..Min(todo[0].begin as int + todo[0].len, |volume|)];
    if |part| >= logical - |data| {
      assert (data + part)[..logical] == data + part[..logical - |data|];
    } else {
      var rest := Materialize(volume, todo[1..], logical - |data| - |part|);
      assert rest.Some? ==> data + (part + rest.value) == (data + part) + rest.value;
    }
  }

  // ---- runs inside the volume ------------------------------------------------------

  /** Every run is a non-empty stretch of the volume. A parsed fork has no empty run:
      `ParseFork` drops slots of zero blocks, and a located volume's blocks have bytes. */
  ghost predicate AllInside(volume: Volume, runs: seq<Run>) {
    forall i :: 0 <= i < |runs| ==> 0 < runs[i].len && runs[i].begin as int + runs[i].len <= |volume|
  }

  lemma {:induction false} ForkLength(volume: Volume, runs: seq<Run>, logical: nat)
    requires AllInside(volume, runs)
    ensures var r := Materialize(volume, runs, logical);
      r.Some? && |r.value| == Min(logical, ByteLength(runs))
  {
    if runs != [] && runs[0].len < logical {
      ForkLength(volume, runs[1..], logical - runs[0].len);
    }
  }

  /** The slow reading: every run, one after the other, whatever the logical size is. */
  ghost function Concatenated(volume: Volume, runs: seq<Run>): Option<Bytes> {
    if runs == [] then Some([])
    else
      var end := runs[0].begin as int + runs[0].len;
      if end > USIZE_MAX then None
      else if runs[0].begin >= |volume| then Some([])
      else Prepend(volume[runs[0].begin..Min(end, |volume|)], Concatenated(volume, runs[1..]))
  }

  /** Leaving the loop once the logical size is reached loses nothing: where the slow
      reading succeeds the result is its first `logical` bytes, and where it fails the
      early exit either fails too or has met all bytes it needs before the bad run. */
  lemma {:induction false} EarlyExitIsTruncation(volume: Volume, runs: seq<Run>, logical: nat)
    ensures var all, r := Concatenated(volume, runs), Materialize(volume, runs, logical);
      match all
      case Some(bytes) => r == Some(bytes[..Min(logical, |bytes|)])
      case None => r.Some? ==> |r.value| == logical
  {
    if runs != [] && logical != 0 && runs[0].begin as int + runs[0].len <= USIZE_MAX && runs[0].begin < |volume| {
      var part := volume[runs[0].begin..Min(runs[0].begin as int + runs[0].len, |volume|)];
      if |part| < logical {
        EarlyExitIsTruncation(volume, runs[1..], logical - |part|);
      }
      var rest := Concatenated(volume, runs[1..]);
      if rest.Some? {
        TakeOfAppend(part, rest.value, logical);
      }
    }
  }

  lemma {:induction false} TakeOfAppend(a: Bytes, b: Bytes, n: nat)
    ensures (a + b)[..Min(n, |a + b|)] == if n <= |a| then a[..n] else a + b[..Min(n - |a|, |b|)]
  {
  }

  function TotalBlocks(extents: seq<Extent>): nat {
    if extents == [] then 0 else extents[0].count as int + TotalBlocks(extents[1..])
  }

  lemma {:induction false} ByteLengthIsBlocks(blockSize: u32, extents: seq<Extent>)
    ensures ByteLength(Runs(blockSize, extents)) == TotalBlocks(extents) * blockSize
  {
    if extents != [] {
      ByteLengthIsBlocks(blockSize, extents[1..]);
      assert Runs(blockSize, extents)[1..] == Runs(blockSize, extents[1..]);
    }
  }

  // ---- writing fork data -------------------------------------------------------

  function SlotBytes(e: Extent): (b: Bytes)
    ensures |b| == 8
  {
    ToBe32(e.start) + ToBe32(e.count)
  }

  /** The eight slots, filled from the front and zero behind the last extent. */
  function SlotTable(extents: seq<Extent>, n: nat): (b: Bytes)
    ensures |b| == 8 * n
  {
    if n == 0 then []
    else SlotTable(extents, n - 1) + SlotBytes(if n - 1 < |extents| then extents[n - 1] else Extent(0, 0))
  }

  /** `sizes` are the clump size and total block count, which the reader skips. */
  function ForkData(logical: u64, sizes: Bytes, extents: seq<Extent>): (b: Bytes)
    requires |sizes| == 8
    ensures |b| == FORK_DATA_LEN
  {
    ToBe64(logical) + sizes + SlotTable(extents, EXTENT_SLOTS)
  }

  lemma {:induction false} SlotTableEntry(extents: seq<Extent>, n: nat, i: nat)
    requires i < n
    ensures Holds(SlotTable(extents, n), 8 * i, SlotBytes(if i < |extents| then extents[i] else Extent(0, 0)))
  {
    var e := SlotBytes(if i < |extents| then extents[i] else Extent(0, 0));
    if i < n - 1 {
      SlotTableEntry(extents, n - 1, i);
      HoldsInFront(SlotTable(extents, n - 1), SlotBytes(if n - 1 < |extents| then extents[n - 1] else Extent(0, 0)),
        8 * i, e);
    } else {
      assert SlotTable(extents, n)[8 * i..8 * i + 8] == e;
    }
  }

  lemma {:induction false} SlotReads(fork: Bytes, i: nat, e: Extent)
    requires i < EXTENT_SLOTS && FORK_DATA_LEN <= |fork| && Holds(fork, 16 + 8 * i, SlotBytes(e))
    ensures Slot(fork, i) == e
  {
    var at := 16 + 8 * i;
    assert fork[at..at + 8][..4] == ToBe32(e.start) && fork[at..at + 8][4..] == ToBe32(e.count);
    assert fork[at..at + 4] == ToBe32(e.start) && fork[at + 4..at + 8] == ToBe32(e.count);
    ReadBe32(fork, at, e.start);
    ReadBe32(fork, at + 4, e.count);
  }

  lemma {:induction false} UsedSlotsAre(fork: Bytes, extents: seq<Extent>, n: nat)
    requires n <= EXTENT_SLOTS && FORK_DATA_LEN <= |fork| && forall e :: e in extents ==> e.count != 0
    requires forall i :: 0 <= i < n ==> Slot(fork, i) == if i < |extents| then extents[i] else Extent(0, 0)
    ensures UsedSlots(fork, n) == extents[..Min(n, |extents|)]
  {
    if n > 0 {
      UsedSlotsAre(fork, extents, n - 1);
      assert Slot(fork, n - 1) == if n - 1 < |extents| then extents[n - 1] else Extent(0, 0);
    }
  }

  /** Fork data written for up to eight extents reads back exactly, whatever follows it. */
  lemma {:induction false} ForkReadsBack(logical: u64, sizes: Bytes, extents: seq<Extent>, tail: Bytes)
    requires |sizes| == 8 && |extents| <= EXTENT_SLOTS && forall e :: e in extents ==> e.count != 0
    ensures ForkOf(ForkData(logical, sizes, extents) + tail) == Some(Fork(logical, extents))
  {
    var n := EXTENT_SLOTS;
    var fork := ForkData(logical, sizes, extents) + tail;
    assert fork[0..8] == ToBe64(logical);
    ReadBe64(fork, 0, logical);
    forall i | 0 <= i < n ensures Slot(fork, i) == if i < |extents| then extents[i] else Extent(0, 0) {
      var e := if i < |extents| then extents[i] else Extent(0, 0);
      SlotTableEntry(extents, n, i);
      HoldsInside(ToBe64(logical) + sizes, SlotTable(extents, n), tail, 8 * i, SlotBytes(e));
      SlotReads(fork, i, e);
    }
    UsedSlotsAre(fork, extents, n);
    assert extents[..Min(n, |extents|)] == extents;
  }
}
