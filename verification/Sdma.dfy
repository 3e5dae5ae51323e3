/** The SDMA boundary arithmetic of the interrupt handler (driver/bsp/src/sdio/backend.rs). */
module Sdma {
  import opened Bytes

  /** Host SDMA buffer boundary: 512 KiB. */
  const BOUNDARY := 0x8_0000

  /** Driver cells of a DMA transfer and the controller's address register. */
  datatype Dma = Dma(base: u32, total: nat, xferred: u32, saddr: u32)

  /** One INT_DMA_END: to the next boundary, in 32-bit arithmetic; the register only within the transfer. */
  function Advance(d: Dma): Dma {
    var now := (d.base + d.xferred) % TWO_TO_THE_32;
    var next := (now / BOUNDARY * BOUNDARY + BOUNDARY) % TWO_TO_THE_32;
    var newBytes := (next - d.base) % TWO_TO_THE_32;
    d.(xferred := newBytes, saddr := if newBytes < d.total then next else d.saddr)
  }

  /** The transfer after `k` such interrupts, and the address writes they made. */
  function Walk(base: u32, total: nat, k: nat): Dma {
    if k == 0 then Dma(base, total, 0, base) else Advance(Walk(base, total, k - 1))
  }

  function Writes(base: u32, total: nat, k: nat): seq<u32> {
    if k == 0 then []
    else
      var d := Walk(base, total, k);
      Writes(base, total, k - 1) + if d.xferred < total then [d.saddr] else []
  }

  /** The `k`-th boundary above `base`, not reduced to 32 bits. */
  function BoundaryAfter(base: nat, k: nat): nat { (base / BOUNDARY + k) * BOUNDARY }

  /** How many boundaries lie strictly inside (base, base + total). */
  function BoundariesInside(base: u32, total: nat): nat {
    if total == 0 then 0 else (base + total - 1) / BOUNDARY - base / BOUNDARY
  }

  lemma BoundariesInsideMeaning(base: u32, total: nat, k: nat)
    requires k >= 1
    ensures k <= BoundariesInside(base, total) <==> base < BoundaryAfter(base, k) < base + total
  {
  }

  // ---------- Any number of interrupts ----------

  lemma ModAdd(a: int, b: int)
    ensures (a + b % TWO_TO_THE_32) % TWO_TO_THE_32 == (a + b) % TWO_TO_THE_32
  {
  }

  lemma ModSub(a: int, b: int)
    ensures (a % TWO_TO_THE_32 - b) % TWO_TO_THE_32 == (a - b) % TWO_TO_THE_32
  {
  }

  lemma ModIs(x: int, q: int, r: int)
    requires x == q * TWO_TO_THE_32 + r && 0 <= r < TWO_TO_THE_32
    ensures x % TWO_TO_THE_32 == r
  {
  }

  lemma WholeBoundaries(r: nat)
    ensures r * BOUNDARY / BOUNDARY * BOUNDARY == r * BOUNDARY
  {
  }

  /** The boundary above a boundary, in 32-bit arithmetic. */
  lemma NextBoundary(m: nat)
    ensures (m * BOUNDARY % TWO_TO_THE_32 / BOUNDARY * BOUNDARY + BOUNDARY) % TWO_TO_THE_32
         == (m + 1) * BOUNDARY % TWO_TO_THE_32
  {
    var q, r := m / 8192, m % 8192;
    ModIs(m * BOUNDARY, q, r * BOUNDARY);
    WholeBoundaries(r);
    if r == 8191 {
      ModIs((m + 1) * BOUNDARY, q + 1, 0);
      ModIs(r * BOUNDARY + BOUNDARY, 1, 0);
    } else {
      ModIs((m + 1) * BOUNDARY, q, r * BOUNDARY + BOUNDARY);
      ModIs(r * BOUNDARY + BOUNDARY, 0, r * BOUNDARY + BOUNDARY);
    }
  }

  /** The next boundary as the handler computes it, from wherever the byte count stands. */
  lemma NextFrom(d: Dma, m: nat, k: nat)
    requires k >= 1 && m == d.base / BOUNDARY + k - 1
    requires if k == 1 then d.xferred == 0 else d.xferred == (m * BOUNDARY - d.base) % TWO_TO_THE_32
    ensures var now := (d.base + d.xferred) % TWO_TO_THE_32;
            (now / BOUNDARY * BOUNDARY + BOUNDARY) % TWO_TO_THE_32 == (m + 1) * BOUNDARY % TWO_TO_THE_32
  {
    if k > 1 {
      ModAdd(d.base, m * BOUNDARY - d.base);
      NextBoundary(m);
    }
  }

  /** One interrupt, without its reductions to 32 bits. */
  lemma AdvanceToBoundary(d: Dma, k: nat)
    requires k >= 1
    requires if k == 1 then d.xferred == 0 else d.xferred == (BoundaryAfter(d.base, k - 1) - d.base) % TWO_TO_THE_32
    ensures Advance(d).base == d.base && Advance(d).total == d.total
    ensures Advance(d).xferred == (BoundaryAfter(d.base, k) - d.base) % TWO_TO_THE_32
    ensures Advance(d).xferred < d.total ==> Advance(d).saddr == BoundaryAfter(d.base, k) % TWO_TO_THE_32
  {
    var m := d.base / BOUNDARY + k - 1;
    NextFrom(d, m, k);
    ModSub((m + 1) * BOUNDARY, d.base);
  }

  /** After any number of interrupts, from any base, the byte count stands at the k-th boundary modulo 2^32. */
  lemma {:induction false} WalkIsAtBoundary(base: u32, total: nat, k: nat)
    requires k >= 1
    ensures Walk(base, total, k).base == base && Walk(base, total, k).total == total
    ensures Walk(base, total, k).xferred == (BoundaryAfter(base, k) - base) % TWO_TO_THE_32
    ensures Walk(base, total, k).xferred < total ==>
              Walk(base, total, k).saddr == BoundaryAfter(base, k) % TWO_TO_THE_32
  {
    hide BoundaryAfter, Advance;
    if k > 1 {
      WalkIsAtBoundary(base, total, k - 1);
    } else {
      assert Walk(base, total, 0) == Dma(base, total, 0, base);
    }
    AdvanceToBoundary(Walk(base, total, k - 1), k);
  }

  /** The walk starts over after 8192 interrupts, the size of the 32-bit space. */
  lemma WrapRestarts(base: u32, total: nat, k: nat)
    requires k >= 1
    ensures Walk(base, total, k + 8192).xferred == Walk(base, total, k).xferred
    ensures Walk(base, total, k).xferred < total ==> Walk(base, total, k + 8192).saddr == Walk(base, total, k).saddr
    ensures Walk(base, total, k).xferred == 0 <==> base % BOUNDARY == 0 && k % 8192 == 0
  {
    WalkIsAtBoundary(base, total, k);
    WalkIsAtBoundary(base, total, k + 8192);
    hide Walk;
    var at := BoundaryAfter(base, k);
    assert BoundaryAfter(base, k + 8192) == at + TWO_TO_THE_32;
    FullTurn(at, base);
    BackAtBase(base, k);
  }

  lemma FullTurn(at: int, base: int)
    ensures (at + TWO_TO_THE_32 - base) % TWO_TO_THE_32 == (at - base) % TWO_TO_THE_32
    ensures (at + TWO_TO_THE_32) % TWO_TO_THE_32 == at % TWO_TO_THE_32
  {
  }

  lemma TurnsDoNotCount(q: int, e: int)
    requires -TWO_TO_THE_32 < e < TWO_TO_THE_32
    ensures (q * TWO_TO_THE_32 + e) % TWO_TO_THE_32 == 0 <==> e == 0
  {
  }

  lemma BackAtBase(base: u32, k: nat)
    ensures (BoundaryAfter(base, k) - base) % TWO_TO_THE_32 == 0 <==> base % BOUNDARY == 0 && k % 8192 == 0
  {
    var r, q, n := base % BOUNDARY, k / 8192, k % 8192;
    assert BoundaryAfter(base, k) - base == k * BOUNDARY - r;
    assert k * BOUNDARY - r == q * TWO_TO_THE_32 + (n * BOUNDARY - r);
    TurnsDoNotCount(q, n * BOUNDARY - r);
  }

  /** Before the wrap there is nothing to reduce. */
  lemma NoWrap(base: u32, k: nat)
    requires 1 <= k <= 8191
    ensures (BoundaryAfter(base, k) - base) % TWO_TO_THE_32 == BoundaryAfter(base, k) - base
  {
  }

  /**
   The writes to SDMA_SADDR are exactly the boundaries strictly inside the buffer, ascending and
   once each, as far as the interrupts have come; further interrupts write nothing, and the register
   stays at the last of them.
   */
  lemma {:induction false} WritesAreBoundaries(base: u32, total: nat, k: nat)
    requires base + total <= TWO_TO_THE_32 && k <= 8191
    ensures |Writes(base, total, k)| == Min(k, BoundariesInside(base, total))
    ensures forall i :: 0 <= i < |Writes(base, total, k)| ==> Writes(base, total, k)[i] == BoundaryAfter(base, i + 1)
    ensures Walk(base, total, k).saddr
         == if Writes(base, total, k) == [] then base else Writes(base, total, k)[|Writes(base, total, k)| - 1]
  {
    WalkStarts(base, total);
    hide Walk, Advance, BoundaryAfter, BoundariesInside;
    if k > 0 {
      WritesAreBoundaries(base, total, k - 1);
      LastWrite(base, total, k);
    }
  }

  lemma LastWrite(base: u32, total: nat, k: nat)
    requires base + total <= TWO_TO_THE_32 && 1 <= k <= 8191
    ensures Walk(base, total, k).xferred < total <==> k <= BoundariesInside(base, total)
    ensures k <= BoundariesInside(base, total) ==> Walk(base, total, k).saddr == BoundaryAfter(base, k)
    ensures k > 1 && k <= BoundariesInside(base, total) ==> k - 1 <= BoundariesInside(base, total)
    ensures k > BoundariesInside(base, total) ==> Walk(base, total, k).saddr == Walk(base, total, k - 1).saddr
  {
    StaysPut(base, total, k);
    hide Advance, BoundaryAfter, BoundariesInside;
    WalkIsAtBoundary(base, total, k);
    NoWrap(base, k);
    BoundariesInsideMeaning(base, total, k);
    BoundaryInOrder(base, k);
  }

  lemma WalkStarts(base: u32, total: nat)
    ensures Walk(base, total, 0).saddr == base
  {
  }

  /** Past the end of the buffer the register is left alone. */
  lemma StaysPut(base: u32, total: nat, k: nat)
    requires k >= 1
    ensures Walk(base, total, k).xferred >= total ==> Walk(base, total, k).saddr == Walk(base, total, k - 1).saddr
  {
    if k > 1 { WalkIsAtBoundary(base, total, k - 1); }
    hide BoundaryAfter;
  }

  lemma BoundaryInOrder(base: nat, k: nat)
    requires k >= 1
    ensures BoundaryAfter(base, k - 1) < BoundaryAfter(base, k) && base < BoundaryAfter(base, k)
  {
  }

  /** Those are all the boundaries: every multiple of 512 KiB strictly inside the buffer is one of them. */
  lemma BoundariesAreAll(base: u32, total: nat, m: nat)
    ensures m % BOUNDARY == 0 && base < m < base + total
       <==> exists k :: 1 <= k <= BoundariesInside(base, total) && m == BoundaryAfter(base, k)
  {
    if m % BOUNDARY == 0 && base < m < base + total {
      var k := m / BOUNDARY - base / BOUNDARY;
      assert m == BoundaryAfter(base, k);
      BoundariesInsideMeaning(base, total, k);
    }
    forall k | 1 <= k <= BoundariesInside(base, total)
      ensures BoundaryAfter(base, k) % BOUNDARY == 0 && base < BoundaryAfter(base, k) < base + total
    {
      BoundariesInsideMeaning(base, total, k);
    }
  }

  /** A single CMD53 crosses at most one boundary. */
  lemma AtMostOneWrite(base: u32, total: nat, k: nat)
    requires base + total <= TWO_TO_THE_32 && total <= 511 * 512 && k <= 8191
    ensures |Writes(base, total, k)| <= 1
  {
    WritesAreBoundaries(base, total, k);
  }
}
