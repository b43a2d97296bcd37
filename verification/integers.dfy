/** Rust's fixed-width unsigned integers and the big-endian reading of a byte
    sequence, shared by both packers.

    Arithmetic on `u8` and `u32` is Dafny arithmetic on the newtype, so every
    `+` and `*` carried out in `u32` must be proved to stay below 2^32: that is
    the obligation a debug build of Rust checks at run time (it panics on
    overflow). */
module Integers {

  newtype u8 = x: int | 0 <= x < 0x100
  newtype u32 = x: int | 0 <= x < 0x1_0000_0000

  /** 256^n */
  function Pow256(n: nat): (r: nat)
    ensures r > 0
  {
    if n == 0 then 1 else 0x100 * Pow256(n - 1)
  }

  /** Rust's `((v >> shift) & 0xff) as u8` for a whole-byte shift below the
      width of u32: the byte of `v` whose lowest bit has weight 2^shift. */
  function ShiftMask(v: u32, shift: nat): u8
    requires shift < 32 && shift % 8 == 0
  {
    ((v as int / Pow256(shift / 8)) % 0x100) as u8
  }

  /** The four whole-byte shifts of a u32, masked, are its base-256 digits. */
  lemma ShiftMaskDigits(v: u32)
    ensures ShiftMask(v, 24) as int * 0x100_0000 + ShiftMask(v, 16) as int * 0x1_0000
            + ShiftMask(v, 8) as int * 0x100 + ShiftMask(v, 0) as int == v as int
  {
    var x := v as int;
    var q1, q2, q3 := x / 0x100, x / 0x1_0000, x / 0x100_0000;
    assert Pow256(1) == 0x100 && Pow256(2) == 0x1_0000 && Pow256(3) == 0x100_0000;
    assert x == q1 * 0x100 + x % 0x100;
    assert q2 == q1 / 0x100;
    assert q3 == q2 / 0x100;
    assert q1 == q2 * 0x100 + q1 % 0x100;
    assert q2 == q3 * 0x100 + q2 % 0x100;
    assert q3 < 0x100;
  }

  /** The number a byte sequence denotes when read as base-256 digits, most
      significant first. This is the reference definition both packers are
      checked against. */
  function BigEndianValue(s: seq<u8>): (r: nat)
  {
    if s == [] then 0 else BigEndianValue(s[..|s| - 1]) * 0x100 + s[|s| - 1] as nat
  }

  /** On four bytes the big-endian value is the weighted sum with weights
      2^24, 2^16, 2^8 and 1, and it fits in a u32. */
  lemma {:induction false} BigEndianValue4(s: seq<u8>)
    requires |s| == 4
    ensures BigEndianValue(s) == s[0] as int * 0x100_0000 + s[1] as int * 0x1_0000
                                 + s[2] as int * 0x100 + s[3] as int
    ensures BigEndianValue(s) < 0x1_0000_0000
  {
    assert s[..1][..0] == [];
    assert BigEndianValue(s[..1]) == s[0] as int;
    assert s[..2][..1] == s[..1];
    assert BigEndianValue(s[..2]) == s[0] as int * 0x100 + s[1] as int;
    assert s[..3][..2] == s[..2];
    assert BigEndianValue(s[..3]) == s[0] as int * 0x1_0000 + s[1] as int * 0x100 + s[2] as int;
  }

  /** Two byte sequences of the same length with the same big-endian value
      are the same sequence: the base-256 digits of a number are unique. */
  lemma {:induction false} BigEndianInjective(a: seq<u8>, b: seq<u8>)
    requires |a| == |b|
    requires BigEndianValue(a) == BigEndianValue(b)
    ensures a == b
  {
    if a != [] {
      var n := |a| - 1;
      assert BigEndianValue(a) == BigEndianValue(a[..n]) * 0x100 + a[n] as nat;
      assert BigEndianValue(b) == BigEndianValue(b[..n]) * 0x100 + b[n] as nat;
      assert a[n] == b[n];
      BigEndianInjective(a[..n], b[..n]);
      assert a == a[..n] + [a[n]];
      assert b == b[..n] + [b[n]];
    }
  }
}
