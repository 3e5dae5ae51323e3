/** Bytes, fixed-width integers and their little-endian encodings. */
module Bytes {

  type byte = b: int | 0 <= b < 0x100
  type u16 = x: int | 0 <= x < 0x1_0000
  type u32 = x: int | 0 <= x < 0x1_0000_0000

  const TWO_TO_THE_32 := 0x1_0000_0000

  function Min(a: int, b: int): int { if a <= b then a else b }

  function RoundUp4(n: nat): nat { (n + 3) / 4 * 4 }

  lemma QuotientIs(n: nat, d: int, r: nat, b: nat)
    requires b > 0 && n == d * b + r && r < b
    ensures n / b == d && n % b == r
  {
    var e := n / b - d;
    assert e * b == r - n % b;
    assert e >= 1 ==> e * b >= b;
    assert e <= -1 ==> e * b + b <= 0;
  }

  lemma Regroup<T>(a: seq<T>, b: seq<T>, c: seq<T>)
    ensures (a + b) + c == a + (b + c)
  {
  }

  function Zeros(n: nat): (s: seq<byte>)
    ensures |s| == n && forall i :: 0 <= i < n ==> s[i] == 0
  {
    seq(n, _ => 0)
  }

  function Le16(x: u16): (s: seq<byte>)
    ensures |s| == 2
  {
    [x % 256, x / 256]
  }

  function FromLe16(lo: byte, hi: byte): u16 { lo + 256 * hi }

  /** Low byte first, in both directions. */
  lemma Le16Means(x: u16, lo: byte, hi: byte)
    ensures FromLe16(lo, hi) % 0x100 == lo && FromLe16(lo, hi) / 0x100 == hi
    ensures Le16(x)[0] == x % 0x100 && Le16(x)[1] == x / 0x100
  {
  }

  function Le32(x: u32): (s: seq<byte>)
    ensures |s| == 4
  {
    [x % 256, (x / 256) % 256, (x / 0x1_0000) % 256, x / 0x100_0000]
  }

  function FromLe32(b0: byte, b1: byte, b2: byte, b3: byte): u32 {
    b0 + 256 * b1 + 0x1_0000 * b2 + 0x100_0000 * b3
  }

  lemma Le32RoundTrip(x: u32)
    ensures var s := Le32(x); FromLe32(s[0], s[1], s[2], s[3]) == x
  {
    assert x / 0x1_0000 == (x / 256) / 256;
    assert x / 0x100_0000 == (x / 0x1_0000) / 256;
  }

  /** The u16 stored at `off`. */
  function U16At(s: seq<byte>, off: nat): u16
    requires off + 2 <= |s|
  {
    FromLe16(s[off], s[off + 1])
  }

  /** The u32 stored at `off`. */
  function U32At(s: seq<byte>, off: nat): u32
    requires off + 4 <= |s|
  {
    FromLe32(s[off], s[off + 1], s[off + 2], s[off + 3])
  }
}
