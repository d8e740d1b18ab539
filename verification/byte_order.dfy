/** Machine integers, checked arithmetic and the big/little-endian readers.

    `usize` is 64 bits wide. A local declared `usize` carries the obligation that
    an unchecked `+` or `*` of the source does not leave the machine's range, so
    verifying the readers proves that none of those additions can wrap. */
module ByteOrder {
  import opened Wrappers

  type byte = x: int | 0 <= x < 0x100
  type u16 = x: int | 0 <= x < 0x1_0000
  type u32 = x: int | 0 <= x < 0x1_0000_0000
  type u64 = x: int | 0 <= x < 0x1_0000_0000_0000_0000
  type usize = u64

  const U16_MAX: u16 := 0xFFFF
  const U32_MAX: u32 := 0xFFFF_FFFF
  const USIZE_MAX: usize := 0xFFFF_FFFF_FFFF_FFFF
  const ISIZE_MAX: usize := 0x7FFF_FFFF_FFFF_FFFF

  type Bytes = seq<byte>
  /** A Rust slice never holds more than isize::MAX bytes. */
  type Volume = v: Bytes | |v| <= ISIZE_MAX

  function CheckedAdd(a: usize, b: usize): Option<usize> {
    if a + b <= USIZE_MAX then Some(a + b) else None
  }

  function CheckedMul(a: usize, b: usize): Option<usize> {
    if a * b <= USIZE_MAX then Some(a * b) else None
  }

  function CheckedSub(a: usize, b: usize): Option<usize> {
    if a >= b then Some(a - b) else None
  }

  function SaturatingAdd(a: u32, b: u32): u32 {
    if a + b <= U32_MAX then a + b else U32_MAX
  }

  function Min(a: int, b: int): int {
    if a <= b then a else b
  }

  lemma {:induction false} MulMonotone(a: nat, b: nat, c: nat)
    requires a <= b
    ensures 0 <= a * c <= b * c
  {
    assert b * c == a * c + (b - a) * c;
  }

  /** A product of two 32-bit values leaves room for 34 more in `usize`, so the
      source's checked_mul on block numbers never fails. */
  lemma {:induction false} ProductFits(a: u32, b: u32)
    ensures 0 <= a * b <= USIZE_MAX - 34
  {
    MulMonotone(a, U32_MAX, b);
    MulMonotone(b, U32_MAX, U32_MAX);
  }

  // ---- readers -------------------------------------------------------------

  function Be16(b: Bytes, off: nat): (r: u16)
    requires off + 2 <= |b|
  {
    b[off] as int * 0x100 + b[off + 1]
  }

  function Be32(b: Bytes, off: nat): (r: u32)
    requires off + 4 <= |b|
  {
    Be16(b, off) as int * 0x1_0000 + Be16(b, off + 2)
  }

  function Be64(b: Bytes, off: nat): (r: u64)
    requires off + 8 <= |b|
  {
    Be32(b, off) as int * 0x1_0000_0000 + Be32(b, off + 4)
  }

  /** i16::from_be_bytes */
  function BeI16(b: Bytes, off: nat): (r: int)
    requires off + 2 <= |b|
  {
    var u := Be16(b, off);
    if u < 0x8000 then u else u - 0x1_0000
  }

  function Le32(b: Bytes, off: nat): (r: u32)
    requires off + 4 <= |b|
  {
    b[off] as int + b[off + 1] as int * 0x100 + b[off + 2] as int * 0x1_0000 + b[off + 3] as int * 0x100_0000
  }

  function Le64(b: Bytes, off: nat): (r: u64)
    requires off + 8 <= |b|
  {
    Le32(b, off) as int + Le32(b, off + 4) as int * 0x1_0000_0000
  }

  // ---- writers -------------------------------------------------------------

  function ToBe16(n: u16): (b: Bytes)
    ensures |b| == 2 && Be16(b, 0) == n
  {
    [n / 0x100, n % 0x100]
  }

  function ToBe32(n: u32): (b: Bytes)
    ensures |b| == 4 && Be32(b, 0) == n
  {
    var b := ToBe16(n / 0x1_0000) + ToBe16(n % 0x1_0000);
    assert Be16(b, 0) == Be16(ToBe16(n / 0x1_0000), 0);
    assert Be16(b, 2) == Be16(ToBe16(n % 0x1_0000), 0);
    b
  }

  function ToBe64(n: u64): (b: Bytes)
    ensures |b| == 8 && Be64(b, 0) == n
  {
    var b := ToBe32(n / 0x1_0000_0000) + ToBe32(n % 0x1_0000_0000);
    assert Be32(b, 0) == Be32(ToBe32(n / 0x1_0000_0000), 0);
    assert Be32(b, 4) == Be32(ToBe32(n % 0x1_0000_0000), 0);
    b
  }

  function ToLe32(n: u32): (b: Bytes)
    ensures |b| == 4 && Le32(b, 0) == n
  {
    var low, high := n % 0x1_0000, n / 0x1_0000;
    [low % 0x100, low / 0x100, high % 0x100, high / 0x100]
  }

  function ToLe64(n: u64): (b: Bytes)
    ensures |b| == 8 && Le64(b, 0) == n
  {
    var b := ToLe32(n % 0x1_0000_0000) + ToLe32(n / 0x1_0000_0000);
    assert Le32(b, 0) == Le32(ToLe32(n % 0x1_0000_0000), 0);
    assert Le32(b, 4) == Le32(ToLe32(n / 0x1_0000_0000), 0);
    b
  }

  function Zeros(n: nat): (z: Bytes)
    ensures |z| == n
  {
    seq(n, i => 0)
  }

  // ---- reading inside a larger buffer ---------------------------------------

  /** `part` sits in `b` at `off`. */
  ghost predicate Holds(b: Bytes, off: nat, part: Bytes) {
    off + |part| <= |b| && b[off..off + |part|] == part
  }

  lemma {:induction false} HoldsBehind(before: Bytes, part: Bytes, after: Bytes)
    ensures Holds(before + part + after, |before|, part)
  {
    assert (before + part + after)[|before|..|before| + |part|] == part;
  }

  lemma {:induction false} ReadBe16(b: Bytes, off: nat, n: u16)
    requires Holds(b, off, ToBe16(n))
    ensures Be16(b, off) == n
  {
    var p := b[off..off + 2];
    assert p[0] == b[off] && p[1] == b[off + 1];
  }

  lemma {:induction false} ReadBe32(b: Bytes, off: nat, n: u32)
    requires Holds(b, off, ToBe32(n))
    ensures Be32(b, off) == n
  {
    var p := b[off..off + 4];
    assert forall k :: 0 <= k < 4 ==> p[k] == b[off + k];
    assert Be16(p, 0) == Be16(b, off) && Be16(p, 2) == Be16(b, off + 2);
  }

  lemma {:induction false} ReadBe64(b: Bytes, off: nat, n: u64)
    requires Holds(b, off, ToBe64(n))
    ensures Be64(b, off) == n
  {
    var p := b[off..off + 8];
    assert forall k :: 0 <= k < 8 ==> p[k] == b[off + k];
    assert Be32(p, 0) == Be32(b, off) && Be32(p, 4) == Be32(b, off + 4);
  }

  lemma {:induction false} SameBe64(rec: Bytes, off: nat)
    requires off + 8 <= |rec|
    ensures Be64(rec[off..], 0) == Be64(rec, off)
  {
  }

  lemma {:induction false} ReadLe32(b: Bytes, off: nat, n: u32)
    requires Holds(b, off, ToLe32(n))
    ensures Le32(b, off) == n
  {
    var p := b[off..off + 4];
    assert p[0] == b[off] && p[1] == b[off + 1] && p[2] == b[off + 2] && p[3] == b[off + 3];
  }

  lemma {:induction false} ReadLe64(b: Bytes, off: nat, n: u64)
    requires Holds(b, off, ToLe64(n))
    ensures Le64(b, off) == n
  {
    var p := b[off..off + 8];
    assert forall k :: 0 <= k < 8 ==> p[k] == b[off + k];
    assert Le32(p, 0) == Le32(b, off) && Le32(p, 4) == Le32(b, off + 4);
  }

  /** A part of a buffer stays where it is when the buffer is put inside a larger one. */
  lemma {:induction false} HoldsInside(before: Bytes, b: Bytes, after: Bytes, off: nat, part: Bytes)
    requires Holds(b, off, part)
    ensures Holds(before + b + after, |before| + off, part)
  {
    var all := before + b + after;
    assert all[|before| + off..|before| + off + |part|] == b[off..off + |part|];
  }

  lemma {:induction false} HoldsInFront(b: Bytes, after: Bytes, off: nat, part: Bytes)
    requires Holds(b, off, part)
    ensures Holds(b + after, off, part)
  {
    assert (b + after)[off..off + |part|] == b[off..off + |part|];
  }
}
