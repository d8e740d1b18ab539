/** Lossy big-endian UTF-16 decoding of names (String::from_utf16_lossy). */
module Utf16 {
  import opened ByteOrder

  const REPLACEMENT: char := '\U{FFFD}'

  /** Pairs of bytes become code units; an odd last byte is dropped. */
  function Units(b: Bytes): seq<u16> {
    if |b| < 2 then [] else [Be16(b, 0)] + Units(b[2..])
  }

  /** An unpaired surrogate becomes U+FFFD; the unit after it is read again. */
  function FromUnits(u: seq<u16>): string {
    if u == [] then ""
    else if u[0] < 0xD800 || 0xE000 <= u[0] then [u[0] as char] + FromUnits(u[1..])
    else if 0xDC00 <= u[0] || |u| < 2 || u[1] < 0xDC00 || 0xE000 <= u[1] then
      [REPLACEMENT] + FromUnits(u[1..])
    else
      var scalar := 0x1_0000 + (u[0] as int - 0xD800) * 0x400 + (u[1] as int - 0xDC00);
      [scalar as char] + FromUnits(u[2..])
  }

  function DecodeUtf16(b: Bytes): string {
    FromUnits(Units(b))
  }

  // ---- the encoder --------------------------------------------------------------

  function CharUnits(c: char): seq<u16> {
    var scalar := c as int;
    if scalar < 0x1_0000 then [scalar]
    else [0xD800 + (scalar - 0x1_0000) / 0x400, 0xDC00 + (scalar - 0x1_0000) % 0x400]
  }

  function ToUnits(s: string): seq<u16> {
    if s == "" then [] else CharUnits(s[0]) + ToUnits(s[1..])
  }

  function UnitBytes(u: seq<u16>): (b: Bytes)
    ensures |b| == 2 * |u|
  {
    if u == [] then [] else ToBe16(u[0]) + UnitBytes(u[1..])
  }

  function EncodeUtf16(s: string): Bytes {
    UnitBytes(ToUnits(s))
  }

  lemma {:induction false} UnitsReadBack(u: seq<u16>)
    ensures Units(UnitBytes(u)) == u
  {
    if u != [] {
      var b := UnitBytes(u);
      UnitsReadBack(u[1..]);
      assert b[..2] == ToBe16(u[0]) && b[2..] == UnitBytes(u[1..]);
      ReadBe16(b, 0, u[0]);
    }
  }

  lemma {:induction false} CharDecodes(c: char, after: seq<u16>)
    ensures FromUnits(CharUnits(c) + after) == [c] + FromUnits(after)
  {
    var first := CharUnits(c);
    assert (first + after)[|first|..] == after;
  }

  lemma {:induction false} CharsReadBack(s: string)
    ensures FromUnits(ToUnits(s)) == s
  {
    if s != "" {
      CharsReadBack(s[1..]);
      CharDecodes(s[0], ToUnits(s[1..]));
    }
  }

  /** Well-formed names survive: decoding undoes the encoding of any string, surrogate
      pairs included. Only ill-formed UTF-16 is changed. */
  lemma {:induction false} NamesReadBack(s: string)
    ensures DecodeUtf16(EncodeUtf16(s)) == s
  {
    UnitsReadBack(ToUnits(s));
    CharsReadBack(s);
  }

  // ---- ill-formed names ------------------------------------------------------------

  predicate IsHigh(u: u16) {
    0xD800 <= u < 0xDC00
  }

  predicate IsLow(u: u16) {
    0xDC00 <= u < 0xE000
  }

  lemma {:induction false} GoesOn(s: string, rest: seq<u16>)
    ensures FromUnits(ToUnits(s) + rest) == s + FromUnits(rest)
  {
    hide FromUnits, CharUnits;
    if s == "" {
      assert ToUnits(s) + rest == rest && s + FromUnits(rest) == FromUnits(rest);
    } else {
      var later := ToUnits(s[1..]);
      GoesOn(s[1..], rest);
      CharDecodes(s[0], later + rest);
      assert ToUnits(s) + rest == CharUnits(s[0]) + (later + rest);
      assert [s[0]] + (s[1..] + FromUnits(rest)) == s + FromUnits(rest);
    }
  }

  /** Behind any well-formed text a surrogate without its partner becomes U+FFFD, and
      decoding goes on with the unit after it; a last odd byte is dropped. */
  lemma {:induction false} IllFormedIsReplaced(s: string, u: u16, rest: seq<u16>, odd: Bytes)
    requires IsLow(u) || (IsHigh(u) && (rest == [] || !IsLow(rest[0])))
    requires |odd| <= 1
    ensures DecodeUtf16(UnitBytes(ToUnits(s) + [u] + rest) + odd) == s + [0xFFFD as char] + FromUnits(rest)
  {
    var units := ToUnits(s) + ([u] + rest);
    assert ToUnits(s) + [u] + rest == units;
    OddByteIsDropped(units, odd);
    GoesOn(s, [u] + rest);
    assert ([u] + rest)[1..] == rest;
    assert s + ([0xFFFD as char] + FromUnits(rest)) == s + [0xFFFD as char] + FromUnits(rest);
  }

  lemma {:induction false} OddByteIsDropped(u: seq<u16>, odd: Bytes)
    requires |odd| <= 1
    ensures Units(UnitBytes(u) + odd) == u
  {
    if u != [] {
      var b := UnitBytes(u) + odd;
      OddByteIsDropped(u[1..], odd);
      assert b[..2] == ToBe16(u[0]) && b[2..] == UnitBytes(u[1..]) + odd;
      ReadBe16(b, 0, u[0]);
    }
  }
}
