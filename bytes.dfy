/** Bytes and the fixed-width unsigned integers of the GLB2.0 layout.
    The source reads its integers in the host's byte order; the model fixes
    that order as little-endian, the order of the x86 hosts the game ran on. */
module Bytes {

  type byte = x: int | 0 <= x < 256

  /** A `uint32_t` field. */
  type u32 = x: nat | x < 0x1_0000_0000

  /** A `uint64_t` field. */
  type u64 = x: nat | x < 0x1_0000_0000_0000_0000

  /** 256 to the power n: one more than the largest value n bytes can hold. */
  function Pow256(n: nat): (r: nat)
    ensures r > 0
  {
    if n == 0 then 1 else 256 * Pow256(n - 1)
  }

  /** The unsigned value of `s` read least-significant byte first. */
  function LittleEndian(s: seq<byte>): (r: nat)
    ensures r < Pow256(|s|)
  {
    if s == [] then 0 else s[0] + 256 * LittleEndian(s[1..])
  }

  /** The `width` bytes that hold `n`, least-significant byte first. */
  function ToLittleEndian(n: nat, width: nat): (s: seq<byte>)
    requires n < Pow256(width)
    ensures |s| == width
  {
    if width == 0 then [] else [n % 256] + ToLittleEndian(n / 256, width - 1)
  }

  /** Encoding a value and reading it back gives the value. */
  lemma {:induction false} LittleEndianOfToLittleEndian(n: nat, width: nat)
    requires n < Pow256(width)
    ensures LittleEndian(ToLittleEndian(n, width)) == n
  {
    if width > 0 {
      var s := ToLittleEndian(n, width);
      assert s[1..] == ToLittleEndian(n / 256, width - 1);
      LittleEndianOfToLittleEndian(n / 256, width - 1);
    }
  }

  /** Reading bytes and encoding the value again gives the same bytes. */
  lemma {:induction false} ToLittleEndianOfLittleEndian(s: seq<byte>)
    ensures ToLittleEndian(LittleEndian(s), |s|) == s
  {
    if s != [] {
      var n := LittleEndian(s);
      assert n == s[0] + 256 * LittleEndian(s[1..]);
      assert n % 256 == s[0];
      assert n / 256 == LittleEndian(s[1..]);
      ToLittleEndianOfLittleEndian(s[1..]);
    }
  }

  lemma Pow256Widths()
    ensures Pow256(4) == 0x1_0000_0000
    ensures Pow256(8) == 0x1_0000_0000_0000_0000
  {
  }
}
