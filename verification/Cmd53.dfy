/**
 CMD53 (IO_RW_EXTENDED): the argument word (kernel/sdhci/src/sdio_ops.rs), what the card reads out
 of it, and the way a transfer is split into commands.
 */
module Cmd53 {
  import opened Bytes

  const BLOCK := 512
  const MAX_BLOCKS := 511
  const DMA_POOL_SIZE := 256 * 1024

  // ---------- Words ----------

  /** Bitwise or of two words; shifts and masks are multiplication, division and remainder by powers of two. */
  function Or(a: nat, b: nat): nat
    decreases a + b
  {
    if a == 0 && b == 0 then 0
    else (if a % 2 == 1 || b % 2 == 1 then 1 else 0) + 2 * Or(a / 2, b / 2)
  }

  lemma {:induction false} OrZero(a: nat)
    ensures Or(a, 0) == a && Or(0, a) == a
  {
    if a != 0 { OrZero(a / 2); }
  }

  function Pow2(k: nat): (p: nat)
    ensures p > 0
  {
    if k == 0 then 1 else 2 * Pow2(k - 1)
  }

  /** Bit `k` of a word. */
  predicate Bit(a: nat, k: nat) { a / Pow2(k) % 2 == 1 }

  lemma HalfBit(a: nat, k: nat)
    requires k > 0
    ensures Bit(a, k) <==> Bit(a / 2, k - 1)
  {
    HalfThenRest(a, Pow2(k - 1));
  }

  lemma HalfThenRest(a: nat, p: nat)
    requires p > 0
    ensures 2 * p > 0 && a / (2 * p) == a / 2 / p
  {
    var h := a / 2;
    var q, r := h / p, h % p;
    assert h == q * p + r;
    assert a == q * (2 * p) + (2 * r + a % 2);
    QuotientIs(a, q, 2 * r + a % 2, 2 * p);
  }

  /** `Or` is the bitwise or: a bit is set in it exactly if it is set in one of the two. */
  lemma {:induction false} OrBits(a: nat, b: nat, k: nat)
    ensures Bit(Or(a, b), k) <==> Bit(a, k) || Bit(b, k)
  {
    OrUnfold(a, b);
    hide Or;
    if k > 0 {
      HalfBit(a, k);
      HalfBit(b, k);
      HalfBit(Or(a, b), k);
      OrBits(a / 2, b / 2, k - 1);
    }
  }

  lemma OrUnfold(a: nat, b: nat)
    ensures Or(a, b) == (if a % 2 == 1 || b % 2 == 1 then 1 else 0) + 2 * Or(a / 2, b / 2)
  {
  }

  /** `a << k`. */
  function Shl(a: nat, k: nat): nat { if k == 0 then a else 2 * Shl(a, k - 1) }

  lemma {:induction false} ShlIsProduct(a: nat, k: nat)
    ensures Shl(a, k) == a * Pow2(k)
  {
    if k > 0 {
      ShlIsProduct(a, k - 1);
      var p := Pow2(k - 1);
      assert a * (2 * p) == 2 * (a * p);
    }
  }

  /** Or works separately above and below any bit position. */
  lemma {:induction false} OrSplit(a: nat, b: nat, c: nat, d: nat, k: nat)
    requires b < Pow2(k) && d < Pow2(k)
    ensures Or(Shl(a, k) + b, Shl(c, k) + d) == Shl(Or(a, c), k) + Or(b, d)
  {
    if k > 0 {
      OrSplit(a, b / 2, c, d / 2, k - 1);
      OrUnfold(Shl(a, k) + b, Shl(c, k) + d);
      OrUnfold(b, d);
    }
  }

  /** Or of two words split at bit `k`, with `p == 1 << k`. */
  lemma OrAt(a: nat, b: nat, c: nat, d: nat, p: nat, k: nat)
    requires p == Pow2(k) && b < p && d < p
    ensures Or(a * p + b, c * p + d) == Or(a, c) * p + Or(b, d)
  {
    OrSplit(a, b, c, d, k);
    ShlIsProduct(a, k);
    ShlIsProduct(c, k);
    ShlIsProduct(Or(a, c), k);
  }

  /** Or of a multiple of a power of two with something below it is a sum. */
  lemma OrBelow(high: nat, p: nat, k: nat, low: nat)
    requires p == Pow2(k) && low < p
    ensures Or(high * p, low) == high * p + low
  {
    OrAt(high, 0, 0, low, p, k);
    OrZero(high);
    OrZero(low);
  }

  // ---------- The argument word ----------

  const WRITE := 0x8000_0000
  const BLOCK_MODE := 0x0800_0000
  const INCR_ADDR := 0x0400_0000

  /** What both argument forms start with: direction, function, address mode, 17-bit address. */
  function ArgBase(write: bool, fn: nat, addr: nat, incrAddr: bool): nat {
    Or(Or(Or(if write then WRITE else 0, fn * 0x1000_0000), if incrAddr then INCR_ADDR else 0),
       addr % 0x2_0000 * 512)
  }

  /** `mmc_io_rw_extended_arg_block`. */
  function ArgBlock(write: bool, fn: nat, addr: nat, incrAddr: bool, blocks: nat): nat {
    Or(ArgBase(write, fn, addr, incrAddr), Or(BLOCK_MODE, blocks % 512))
  }

  /** `mmc_io_rw_extended_arg_byte`; a count of 512 is written as zero. */
  function ArgByte(write: bool, fn: nat, addr: nat, incrAddr: bool, blksz: nat): nat {
    Or(ArgBase(write, fn, addr, incrAddr), if blksz == 512 then 0 else blksz % 512)
  }

  /** The fields of a CMD53 argument, section 5.3.1 of the SDIO Simplified Specification (Part E1). */
  datatype Access = Access(write: bool, fn: nat, blockMode: bool, incrAddr: bool, addr: nat, count: nat)

  function Decode(arg: nat): Access {
    Access(arg / WRITE % 2 == 1, arg / 0x1000_0000 % 8, arg / BLOCK_MODE % 2 == 1, arg / INCR_ADDR % 2 == 1,
           arg / 512 % 0x2_0000, arg % 512)
  }

  /** Bytes an access moves with 512-byte blocks: a byte count of zero stands for 512. */
  function TransferLength(a: Access): nat {
    if a.blockMode then a.count * BLOCK else if a.count == 0 then 512 else a.count
  }

  lemma Powers()
    ensures Pow2(9) == 512 && Pow2(26) == INCR_ADDR && Pow2(27) == BLOCK_MODE
    ensures Pow2(28) == 0x1000_0000 && Pow2(31) == WRITE
  {
    assert Pow2(5) == 32;
    assert Pow2(9) == 512;
    assert Pow2(13) == 0x2000;
    assert Pow2(17) == 0x2_0000;
    assert Pow2(21) == 0x20_0000;
    assert Pow2(25) == 0x200_0000;
    assert Pow2(29) == 0x2000_0000;
  }

  lemma ArgBaseIsSum(write: bool, fn: nat, addr: nat, incrAddr: bool)
    requires fn <= 7 && addr < 0x2_0000
    ensures ArgBase(write, fn, addr, incrAddr)
         == (if write then WRITE else 0) + fn * 0x1000_0000 + (if incrAddr then INCR_ADDR else 0) + addr * 512
  {
    Powers();
    hide Or, Pow2;
    var w := if write then 1 else 0;
    var i := if incrAddr then 1 else 0;
    OrBelow(w, WRITE, 31, fn * 0x1000_0000);
    var a := w * WRITE + fn * 0x1000_0000;
    assert a == (w * 8 + fn) * 0x1000_0000;
    OrBelow(w * 8 + fn, 0x1000_0000, 28, i * INCR_ADDR);
    var b := a + i * INCR_ADDR;
    assert b == (w * 32 + fn * 4 + i) * INCR_ADDR;
    OrBelow(w * 32 + fn * 4 + i, INCR_ADDR, 26, addr * 512);
  }

  /** An argument as the sum of its fields; flags are 0 or 1. */
  function Fields(w: nat, fn: nat, b: nat, i: nat, addr: nat, low: nat): nat {
    w * WRITE + fn * 0x1000_0000 + b * BLOCK_MODE + i * INCR_ADDR + addr * 512 + low
  }

  function Flag(b: bool): nat { if b then 1 else 0 }

  lemma DecodeFields(w: nat, fn: nat, b: nat, i: nat, addr: nat, low: nat)
    requires w <= 1 && fn <= 7 && b <= 1 && i <= 1 && addr < 0x2_0000 && low < 512
    ensures Decode(Fields(w, fn, b, i, addr, low)) == Access(w == 1, fn, b == 1, i == 1, addr, low)
  {
    var arg := Fields(w, fn, b, i, addr, low);
    assert arg / 512 == w * 0x40_0000 + fn * 0x8_0000 + b * 0x4_0000 + i * 0x2_0000 + addr;
    assert arg / INCR_ADDR == w * 32 + fn * 4 + b * 2 + i;
    assert arg / BLOCK_MODE == w * 16 + fn * 2 + b;
    assert arg / 0x1000_0000 == w * 8 + fn;
    assert arg / WRITE == w;
  }

  lemma OrBlockMode(top: nat, rest: nat, blocks: nat)
    requires rest < 0x4_0000 && blocks < 512
    ensures Or(top * 0x1000_0000 + rest * 512, Or(BLOCK_MODE, blocks))
         == top * 0x1000_0000 + BLOCK_MODE + rest * 512 + blocks
  {
    hide Or;
    Powers();
    OrBelow(1, BLOCK_MODE, 27, blocks);
    OrAt(top, rest * 512, 0, BLOCK_MODE + blocks, 0x1000_0000, 28);
    OrZero(top);
    OrAt(0, rest * 512, 1, blocks, BLOCK_MODE, 27);
    OrZero(1);
    OrBelow(rest, 512, 9, blocks);
  }

  lemma OrByteCount(rest: nat, count: nat)
    requires count < 512
    ensures Or(rest * 512, count) == rest * 512 + count
  {
    hide Or;
    Powers();
    OrBelow(rest, 512, 9, count);
  }

  /** The card reads back every field of a block-mode argument. */
  lemma DecodeArgBlock(write: bool, fn: nat, addr: nat, incrAddr: bool, blocks: nat)
    requires fn <= 7 && addr < 0x2_0000 && 1 <= blocks <= MAX_BLOCKS
    ensures Decode(ArgBlock(write, fn, addr, incrAddr, blocks)) == Access(write, fn, true, incrAddr, addr, blocks)
  {
    hide Or;
    var w, i := Flag(write), Flag(incrAddr);
    assert ArgBlock(write, fn, addr, incrAddr, blocks) == Fields(w, fn, 1, i, addr, blocks) by {
      ArgBaseIsSum(write, fn, addr, incrAddr);
      OrBlockMode(w * 8 + fn, i * 0x2_0000 + addr, blocks);
    }
    DecodeFields(w, fn, 1, i, addr, blocks);
  }

  /** ... and of a byte-mode argument, where it moves exactly the bytes asked for, 512 included. */
  lemma DecodeArgByte(write: bool, fn: nat, addr: nat, incrAddr: bool, blksz: nat)
    requires fn <= 7 && addr < 0x2_0000 && 1 <= blksz <= 512
    ensures var a := Decode(ArgByte(write, fn, addr, incrAddr, blksz));
            a == Access(write, fn, false, incrAddr, addr, blksz % 512) && TransferLength(a) == blksz
  {
    hide Or;
    var w, i := Flag(write), Flag(incrAddr);
    assert ArgByte(write, fn, addr, incrAddr, blksz) == Fields(w, fn, 0, i, addr, blksz % 512) by {
      ArgBaseIsSum(write, fn, addr, incrAddr);
      OrByteCount(w * 0x40_0000 + fn * 0x8_0000 + i * 0x2_0000 + addr, blksz % 512);
    }
    DecodeFields(w, fn, 0, i, addr, blksz % 512);
  }

  // ---------- Data phase ----------

  /** One data-port word from up to four bytes, first byte lowest. */
  function Word(bytes: seq<byte>): u32
    requires |bytes| <= 4
  {
    FromLe32(if |bytes| > 0 then bytes[0] else 0, if |bytes| > 1 then bytes[1] else 0,
             if |bytes| > 2 then bytes[2] else 0, if |bytes| > 3 then bytes[3] else 0)
  }

  /** Eight bits of a word, counted from the lowest. */
  function ByteOf(x: u32, k: nat): nat {
    if k == 0 then x % 0x100 else if k == 1 then x / 0x100 % 0x100
    else if k == 2 then x / 0x1_0000 % 0x100 else x / 0x100_0000
  }

  /** The first byte is the lowest, and what is missing is zero. */
  lemma WordValue(bytes: seq<byte>)
    requires |bytes| <= 4
    ensures forall k :: 0 <= k < 4 ==> ByteOf(Word(bytes), k) == if k < |bytes| then bytes[k] else 0
  {
    hide FromLe32, ByteOf, Word;
    var b0: byte := if |bytes| > 0 then bytes[0] else 0;
    var b1: byte := if |bytes| > 1 then bytes[1] else 0;
    var b2: byte := if |bytes| > 2 then bytes[2] else 0;
    var b3: byte := if |bytes| > 3 then bytes[3] else 0;
    WordJoins(bytes);
    WordDigits(b0, b1, b2, b3);
  }

  lemma WordJoins(bytes: seq<byte>)
    requires |bytes| <= 4
    ensures Word(bytes)
         == FromLe32(if |bytes| > 0 then bytes[0] else 0, if |bytes| > 1 then bytes[1] else 0,
                     if |bytes| > 2 then bytes[2] else 0, if |bytes| > 3 then bytes[3] else 0)
  {
    hide FromLe32;
  }

  lemma WordDigits(b0: byte, b1: byte, b2: byte, b3: byte)
    ensures var x := FromLe32(b0, b1, b2, b3);
            ByteOf(x, 0) == b0 && ByteOf(x, 1) == b1 && ByteOf(x, 2) == b2 && ByteOf(x, 3) == b3
  {
    DivTwice(FromLe32(b0, b1, b2, b3));
    Div256(b1 + 256 * (b2 + 256 * b3), b0);
    Div256(b2 + 256 * b3, b1);
    Div256(b3, b2);
  }

  function PackWords(bytes: seq<byte>): (w: seq<u32>)
    ensures |w| == (|bytes| + 3) / 4
  {
    if bytes == [] then []
    else
      var n := Min(4, |bytes|);
      [Word(bytes[..n])] + PackWords(bytes[n..])
  }

  function UnpackWords(words: seq<u32>): (s: seq<byte>)
    ensures |s| == 4 * |words|
  {
    if words == [] then [] else Le32(words[0]) + UnpackWords(words[1..])
  }

  lemma WordBytes(bytes: seq<byte>)
    requires 1 <= |bytes| <= 4
    ensures Le32(Word(bytes))[..|bytes|] == bytes
  {
    var b0 := bytes[0];
    var b1 := if |bytes| > 1 then bytes[1] else 0;
    var b2 := if |bytes| > 2 then bytes[2] else 0;
    var b3 := if |bytes| > 3 then bytes[3] else 0;
    Le32Of(b0, b1, b2, b3);
  }

  lemma Div256(q: nat, r: byte)
    ensures (r + 256 * q) / 256 == q && (r + 256 * q) % 256 == r
  {
  }

  lemma DivTwice(x: nat)
    ensures x / 0x1_0000 == x / 256 / 256 && x / 0x100_0000 == x / 256 / 256 / 256
  {
  }

  lemma Le32Of(b0: byte, b1: byte, b2: byte, b3: byte)
    ensures Le32(FromLe32(b0, b1, b2, b3)) == [b0, b1, b2, b3]
  {
    var x := FromLe32(b0, b1, b2, b3);
    DivTwice(x);
    Div256(b1 + 256 * (b2 + 256 * b3), b0);
    Div256(b2 + 256 * b3, b1);
    Div256(b3, b2);
  }

  /** The words written to the data port carry the bytes in order. */
  lemma {:induction false} UnpackPackWords(bytes: seq<byte>)
    ensures UnpackWords(PackWords(bytes))[..|bytes|] == bytes
  {
    if bytes != [] {
      var n := Min(4, |bytes|);
      var w := Word(bytes[..n]);
      WordBytes(bytes[..n]);
      UnpackPackWords(bytes[n..]);
      assert PackWords(bytes)[1..] == PackWords(bytes[n..]);
      if n < 4 {
        assert bytes[..n] == bytes && bytes[n..] == [];
      } else {
        var rest := UnpackWords(PackWords(bytes[n..]));
        assert (Le32(w) + rest)[..|bytes|] == Le32(w) + rest[..|bytes| - 4];
        assert bytes == bytes[..4] + bytes[4..];
      }
    }
  }
}
