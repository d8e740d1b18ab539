/** Where the bytes of a fork lie: its extents in blocks, against what a read returns. */
module ExtentMap {
  import opened Wrappers
  import opened ByteOrder
  import opened Forks

  /** The volume offset of byte `q` of an extent. */
  ghost function Place(blockSize: u32, e: Extent, q: nat): nat {
    e.start * blockSize + q
  }

  /** The offset in the fork of byte `q` of extent `i`: all blocks before it come first. */
  ghost function Logical(blockSize: u32, extents: seq<Extent>, i: nat, q: nat): nat
    requires i <= |extents|
  {
    TotalBlocks(extents[..i]) * blockSize + q
  }

  /** The extent has blocks, and the volume has all of them. */
  ghost predicate Inside(volume: Volume, blockSize: u32, e: Extent) {
    0 < e.count && (e.start as int + e.count) * blockSize <= |volume|
  }

  ghost predicate ExtentsInside(volume: Volume, blockSize: u32, extents: seq<Extent>) {
    0 < blockSize && forall i :: 0 <= i < |extents| ==> Inside(volume, blockSize, extents[i])
  }

  /** Byte `q` of extent `i`, if the logical size reaches that far, comes from its place. */
  ghost predicate ByteIsMapped(
    volume: Volume, blockSize: u32, fork: Fork, content: Bytes, i: nat, q: nat)
    requires i < |fork.extents|
  {
    var k, p := Logical(blockSize, fork.extents, i, q), Place(blockSize, fork.extents[i], q);
    q < fork.extents[i].count * blockSize && k < fork.logical ==>
      k < |content| && p < |volume| && content[k] == volume[p]
  }

  lemma {:induction false} TailBlocks(extents: seq<Extent>, i: nat)
    requires 0 < i <= |extents|
    ensures TotalBlocks(extents[..i]) == extents[0].count as int + TotalBlocks(extents[1..][..i - 1])
  {
    assert extents[..i][1..] == extents[1..][..i - 1];
  }

  lemma {:induction false} RunInside(volume: Volume, blockSize: u32, e: Extent)
    requires Inside(volume, blockSize, e)
    ensures var run := RunOf(blockSize, e);
      run.begin == e.start * blockSize && run.len == e.count * blockSize
      && run.begin as int + run.len <= |volume|
  {
    assert (e.start as int + e.count) * blockSize == e.start * blockSize + e.count * blockSize;
  }

  lemma {:induction false} RunsTail(blockSize: u32, extents: seq<Extent>)
    requires extents != []
    ensures Runs(blockSize, extents)[0] == RunOf(blockSize, extents[0])
    ensures Runs(blockSize, extents)[1..] == Runs(blockSize, extents[1..])
  {
  }

  /** Behind extents that lie inside the volume, every byte of an extent that the volume
      has is read from its place, clipped or not. */
  lemma {:induction false} ReadByteIsVolumeByte(
    volume: Volume, blockSize: u32, extents: seq<Extent>, logical: nat, i: nat, q: nat)
    requires i < |extents| && q < extents[i].count * blockSize
    requires forall h :: 0 <= h < i ==> Inside(volume, blockSize, extents[h])
    requires Place(blockSize, extents[i], q) < |volume|
    requires Logical(blockSize, extents, i, q) < logical
    requires Materialize(volume, Runs(blockSize, extents), logical).Some?
    ensures var content := Materialize(volume, Runs(blockSize, extents), logical).value;
      && Logical(blockSize, extents, i, q) < |content|
      && content[Logical(blockSize, extents, i, q)] == volume[Place(blockSize, extents[i], q)]
  {
    hide Materialize, Runs;
    if i == 0 {
      FirstByte(volume, blockSize, extents, logical, q);
    } else {
      var len: nat := extents[0].count * blockSize;
      LogicalTail(blockSize, extents, i, q);
      ReadTail(volume, blockSize, extents, logical);
      ReadByteIsVolumeByte(volume, blockSize, extents[1..], logical - len, i - 1, q);
    }
  }

  lemma {:induction false} LogicalTail(blockSize: u32, extents: seq<Extent>, i: nat, q: nat)
    requires 0 < i <= |extents|
    ensures 0 <= extents[0].count * blockSize
    ensures Logical(blockSize, extents, i, q)
         == extents[0].count * blockSize + Logical(blockSize, extents[1..], i - 1, q)
  {
    TailBlocks(extents, i);
    Distribute(extents[0].count, TotalBlocks(extents[1..][..i - 1]), blockSize);
  }

  /** A read that goes past its first extent goes on with the others. */
  lemma {:induction false} ReadTail(volume: Volume, blockSize: u32, extents: seq<Extent>, logical: nat)
    requires extents != [] && Inside(volume, blockSize, extents[0])
    requires 0 < blockSize && 0 <= extents[0].count * blockSize < logical
    requires Materialize(volume, Runs(blockSize, extents), logical).Some?
    ensures var len: nat := extents[0].count * blockSize;
      var rest := Materialize(volume, Runs(blockSize, extents[1..]), logical - len);
      var content := Materialize(volume, Runs(blockSize, extents), logical).value;
      rest.Some? && |content| >= len && content[len..] == rest.value
  {
    hide Runs, RunOf;
    RunsTail(blockSize, extents);
    RunInside(volume, blockSize, extents[0]);
    MulMonotone(1, extents[0].count, blockSize);
    StepOfRead(volume, Runs(blockSize, extents), logical);
  }

  lemma {:induction false} StepOfRead(volume: Volume, runs: seq<Run>, logical: nat)
    requires runs != [] && 0 < runs[0].len < logical && runs[0].begin as int + runs[0].len <= |volume|
    requires Materialize(volume, runs, logical).Some?
    ensures var rest := Materialize(volume, runs[1..], logical - runs[0].len);
      var content := Materialize(volume, runs, logical).value;
      rest.Some? && |content| >= runs[0].len && content[runs[0].len..] == rest.value
  {
  }

  lemma {:induction false} Distribute(a: nat, b: nat, c: nat)
    ensures (a + b) * c == a * c + b * c && 0 <= a * c && 0 <= b * c
  {
  }

  lemma {:induction false} FirstByte(volume: Volume, blockSize: u32, extents: seq<Extent>, logical: nat, q: nat)
    requires extents != [] && q < extents[0].count * blockSize && q < logical
    requires Place(blockSize, extents[0], q) < |volume|
    requires Materialize(volume, Runs(blockSize, extents), logical).Some?
    ensures var content := Materialize(volume, Runs(blockSize, extents), logical).value;
      q < |content| && content[q] == volume[Place(blockSize, extents[0], q)]
  {
    var run := RunOf(blockSize, extents[0]);
    RunsTail(blockSize, extents);
    assert run.begin == extents[0].start * blockSize && run.len == extents[0].count * blockSize;
    var part := volume[run.begin..Min(run.begin as int + run.len, |volume|)];
    assert part[q] == volume[run.begin + q];
  }

  lemma {:induction false} InsideRuns(volume: Volume, blockSize: u32, extents: seq<Extent>)
    requires ExtentsInside(volume, blockSize, extents)
    ensures AllInside(volume, Runs(blockSize, extents))
  {
    forall i | 0 <= i < |extents| ensures 0 < RunOf(blockSize, extents[i]).len {
      RunInside(volume, blockSize, extents[i]);
      MulMonotone(1, extents[i].count, blockSize);
    }
    forall i | 0 <= i < |extents|
      ensures RunOf(blockSize, extents[i]).begin as int + RunOf(blockSize, extents[i]).len <= |volume|
    {
      RunInside(volume, blockSize, extents[i]);
    }
  }

  /** A read of a fork whose extents lie inside the volume succeeds with the smaller of its
      logical size and its blocks, each byte from its block of the volume. */
  lemma {:induction false} ForkReadsItsBlocks(volume: Volume, blockSize: u32, fork: Fork)
    requires ExtentsInside(volume, blockSize, fork.extents)
    ensures var r := ForkContent(volume, blockSize, fork);
      && r.Some? && |r.value| == Min(fork.logical, TotalBlocks(fork.extents) * blockSize)
      && forall i: nat, q: nat :: i < |fork.extents| ==> ByteIsMapped(volume, blockSize, fork, r.value, i, q)
  {
    hide Runs, Materialize;
    InsideRuns(volume, blockSize, fork.extents);
    ForkLength(volume, Runs(blockSize, fork.extents), fork.logical);
    ByteLengthIsBlocks(blockSize, fork.extents);
    var r := ForkContent(volume, blockSize, fork);
    forall i: nat, q: nat | i < |fork.extents| ensures ByteIsMapped(volume, blockSize, fork, r.value, i, q) {
      if q < fork.extents[i].count * blockSize && Logical(blockSize, fork.extents, i, q) < fork.logical {
        PlaceIsInside(volume, blockSize, fork.extents[i], q);
        ReadByteIsVolumeByte(volume, blockSize, fork.extents, fork.logical, i, q);
      }
    }
  }

  lemma {:induction false} PlaceIsInside(volume: Volume, blockSize: u32, e: Extent, q: nat)
    requires Inside(volume, blockSize, e) && q < e.count * blockSize
    ensures Place(blockSize, e, q) < |volume|
  {
    Distribute(e.start, e.count, blockSize);
  }

  // ---- a file stored under its extents -----------------------------------------------

  /** Byte `q` of extent `i` holds the byte of `data` that comes there. */
  ghost predicate HoldsByte(volume: Volume, blockSize: u32, extents: seq<Extent>, data: Bytes, i: nat, q: nat)
    requires i < |extents|
  {
    var k, p := Logical(blockSize, extents, i, q), Place(blockSize, extents[i], q);
    q < extents[i].count * blockSize && k < |data| ==> p < |volume| && volume[p] == data[k]
  }

  /** The volume stores `data`, in order, in the blocks of `extents`. */
  ghost predicate HoldsFile(volume: Volume, blockSize: u32, extents: seq<Extent>, data: Bytes) {
    && ExtentsInside(volume, blockSize, extents)
    && |data| <= TotalBlocks(extents) * blockSize
    && forall i: nat, q: nat :: i < |extents| ==> HoldsByte(volume, blockSize, extents, data, i, q)
  }

  /** Every byte of a fork belongs to one of its extents. */
  lemma {:induction false} ByteHasExtent(blockSize: u32, extents: seq<Extent>, k: nat) returns (i: nat, q: nat)
    requires k < TotalBlocks(extents) * blockSize
    ensures i < |extents| && q < extents[i].count * blockSize && Logical(blockSize, extents, i, q) == k
  {
    var first := extents[0].count * blockSize;
    if k < first {
      i, q := 0, k;
      assert TotalBlocks(extents[..0]) * blockSize == 0;
    } else {
      Distribute(extents[0].count, TotalBlocks(extents[1..]), blockSize);
      i, q := ByteHasExtent(blockSize, extents[1..], k - first);
      i := i + 1;
      TailBlocks(extents, i);
      Distribute(extents[0].count, TotalBlocks(extents[1..][..i - 1]), blockSize);
    }
  }

  /** What is stored under a fork's extents is what reading the fork returns. */
  lemma {:induction false} HeldFileReads(volume: Volume, blockSize: u32, fork: Fork, data: Bytes)
    requires HoldsFile(volume, blockSize, fork.extents, data) && fork.logical == |data|
    ensures ForkContent(volume, blockSize, fork) == Some(data)
  {
    hide ForkContent, Logical, Place, ExtentsInside;
    ForkReadsItsBlocks(volume, blockSize, fork);
    var content := ForkContent(volume, blockSize, fork).value;
    forall k | 0 <= k < |data| ensures content[k] == data[k] {
      var i, q := ByteHasExtent(blockSize, fork.extents, k);
      assert ByteIsMapped(volume, blockSize, fork, content, i, q);
      assert HoldsByte(volume, blockSize, fork.extents, data, i, q);
    }
    assert content == data;
  }
}
