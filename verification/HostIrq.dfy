/**
 The host controller's interrupt handler (driver/bsp/src/sdio/backend.rs,
 `handle_sdhci_host_irq`) over a write-1-to-clear status register that the hardware may raise bits
 in at any moment.
 */
module HostIrq {
  import opened Bytes
  import opened Sdma

  /** The named status bits, and the others. */
  datatype Bit =
    | Response | DataEnd | BlkGap | DmaEnd | SpaceAvail | DataAvail | CardInt | Retune
    | Timeout | Crc | EndBit | Index | DataTimeout | DataCrc | DataEndBit | BusPower | AutoCmdErr | AdmaError
    | Other(n: nat)

  type Bits = set<Bit>

  const CMD_MASK: Bits := {Response, Timeout, Crc, EndBit, Index, AutoCmdErr}
  const DATA_MASK: Bits := {DataEnd, DmaEnd, DataAvail, SpaceAvail, DataTimeout, DataCrc, DataEndBit, AdmaError, BlkGap}
  /** Reading all ones means the controller is gone. */
  const ALL_ONES: Bits :=
    CMD_MASK + DATA_MASK + {CardInt, Retune, BusPower} + (set n: nat | n < 14 :: Other(n))

  /** It has every named bit, and fourteen others: thirty-two in all. */
  lemma AllOnesMeans(b: Bit)
    ensures b in ALL_ONES <==> (b.Other? ==> b.n < 14)
  {
  }

  /** Register file and driver cells; the counters record results published since the last arming. */
  datatype Irq = Irq(
    sts: Bits,
    stsEn: Bits,
    sigEn: Bits,
    cmdPending: bool,
    dmaPending: bool,
    cmdResult: int,
    dmaResult: int,
    dma: Dma,
    irqPending: bool,
    cmdPublished: nat,
    dmaPublished: nat)

  // ---------- What a snapshot means ----------

  function CmdVerdict(snap: Bits): int {
    if Timeout in snap then -110
    else if Crc in snap then -84
    else if EndBit in snap then -74
    else if Response in snap then 0
    else -5
  }

  datatype DataVerdict = Publish(r: int) | MoveOn

  function DataVerdictOf(snap: Bits): DataVerdict {
    if DataEnd in snap then Publish(0)
    else if DataTimeout in snap then Publish(-110)
    else if DataEndBit in snap then Publish(-84)
    else if DataCrc in snap then Publish(-84)
    else if AdmaError in snap then Publish(-5)
    else if DmaEnd in snap then MoveOn
    else Publish(-5)
  }

  /** The three values written back to the status register for a snapshot. */
  function Clear1(snap: Bits, dmaPending: bool): Bits {
    if dmaPending then snap * (CMD_MASK + {BusPower}) else snap * (CMD_MASK + {BusPower}) + snap * DATA_MASK
  }

  function Clear2(snap: Bits, dmaPending: bool): Bits {
    if snap * DATA_MASK == {} || !dmaPending then {}
    else if DataVerdictOf(snap).MoveOn? then {DmaEnd}
    else snap * DATA_MASK
  }

  function Clear3(snap: Bits): Bits { snap * {CardInt, Retune} }

  /** The driver's side of one pass over a snapshot: command, data, card interrupt. */
  function HandledCmd(s: Irq, snap: Bits): Irq {
    if snap * CMD_MASK != {} && s.cmdPending
    then s.(cmdResult := CmdVerdict(snap), cmdPending := false, cmdPublished := s.cmdPublished + 1)
    else s
  }

  function HandledData(s: Irq, snap: Bits): Irq {
    if snap * DATA_MASK != {} && s.dmaPending then
      match DataVerdictOf(snap)
      case Publish(r) => s.(dmaResult := r, dmaPending := false, dmaPublished := s.dmaPublished + 1)
      case MoveOn => s.(dma := Advance(s.dma))
    else s
  }

  function HandledCard(s: Irq, snap: Bits): Irq {
    if CardInt in snap && CardInt in s.stsEn
    then s.(stsEn := s.stsEn - {CardInt}, sigEn := s.sigEn - {CardInt}, irqPending := true)
    else s
  }

  function Handled(s: Irq, snap: Bits): Irq {
    HandledCard(HandledData(HandledCmd(s, snap), snap), snap)
  }

  /** What the hardware raises before the pass reads the status, and before each of its three write-backs. */
  datatype Pass = Pass(rise0: Bits, rise1: Bits, rise2: Bits, rise3: Bits)

  function StsAfter(snap: Bits, dmaPending: bool, r1: Bits, r2: Bits, r3: Bits): Bits {
    snap + r1 - Clear1(snap, dmaPending) + r2 - Clear2(snap, dmaPending) + r3 - Clear3(snap)
  }

  /** One pass: read the status, act on what was read, write back. */
  function AfterPass(s: Irq, p: Pass): Irq {
    var snap := s.sts + p.rise0;
    Handled(s.(sts := snap), snap).(sts := StsAfter(snap, s.dmaPending, p.rise1, p.rise2, p.rise3))
  }

  function AfterPasses(s: Irq, ps: seq<Pass>): Irq {
    if ps == [] then s else AfterPass(AfterPasses(s, ps[..|ps| - 1]), ps[|ps| - 1])
  }

  // ---------- What is lost ----------

  /**
   A pass writes back only bits it read.  What was set or raised during it is still set at the end
   or was in its snapshot, so nothing goes unseen.
   */
  lemma PassLosesNothing(s: Irq, p: Pass)
    ensures var snap := s.sts + p.rise0;
            && Clear1(snap, s.dmaPending) + Clear2(snap, s.dmaPending) + Clear3(snap) <= snap
            && s.sts + RisesOf(p) <= AfterPass(s, p).sts + snap
  {
    var snap := s.sts + p.rise0;
    var all := Clear1(snap, s.dmaPending) + Clear2(snap, s.dmaPending) + Clear3(snap);
    assert all <= snap;
    hide Clear1, Clear2, Clear3, Handled;
  }

  function RisesOf(p: Pass): Bits { p.rise0 + p.rise1 + p.rise2 + p.rise3 }

  /** Everything raised during the passes. */
  function Rises(ps: seq<Pass>): Bits {
    if ps == [] then {} else Rises(ps[..|ps| - 1]) + RisesOf(ps[|ps| - 1])
  }

  /** Everything the passes read. */
  function Snaps(s: Irq, ps: seq<Pass>): Bits {
    if ps == [] then {}
    else Snaps(s, ps[..|ps| - 1]) + (AfterPasses(s, ps[..|ps| - 1]).sts + ps[|ps| - 1].rise0)
  }

  /** Over any number of passes: every bit set before or raised meanwhile is still set, or some pass read it. */
  lemma {:induction false} PassesLoseNothing(s: Irq, ps: seq<Pass>)
    ensures s.sts + Rises(ps) <= AfterPasses(s, ps).sts + Snaps(s, ps)
  {
    if ps != [] {
      PassesLoseNothing(s, ps[..|ps| - 1]);
      hide AfterPass, RisesOf;
      PassLosesNothing(AfterPasses(s, ps[..|ps| - 1]), ps[|ps| - 1]);
    }
  }

  /**
   A bit of the snapshot that the hardware raises a second time is not seen twice when a write-back
   still clears it.  Exactly which raises after the read are gone at the end of the pass: with the
   handler's three write-backs in turn, those that one still to come clears, unless the bit is
   raised yet again behind it.
   */
  lemma LateRaiseIsLost(s: Irq, p: Pass, b: Bit)
    ensures var snap := s.sts + p.rise0;
            var c1, c2, c3 := Clear1(snap, s.dmaPending), Clear2(snap, s.dmaPending), Clear3(snap);
            var gone := b !in AfterPass(s, p).sts;
            var again := p.rise2 + p.rise3;
            && (b in p.rise1 ==> (gone <==> b in c3 || (b in c2 && b !in p.rise3) || (b in c1 && b !in again)))
            && (b in p.rise2 ==> (gone <==> b in c3 || (b in c2 && b !in p.rise3)))
            && (b in p.rise3 ==> (gone <==> b in c3))
            && (b in RisesOf(p) && gone ==> b in snap)
  {
    hide Handled;
    ClearedOnlyIfRead(s.sts + p.rise0, s.dmaPending);
    MasksDiffer(s.sts + p.rise0, s.dmaPending);
    hide Clear1, Clear2, Clear3;
  }

  lemma ClearedOnlyIfRead(snap: Bits, dmaPending: bool)
    ensures Clear1(snap, dmaPending) + Clear2(snap, dmaPending) + Clear3(snap) <= snap
  {
  }

  lemma MasksDiffer(snap: Bits, dmaPending: bool)
    ensures Clear1(snap, dmaPending) !! Clear2(snap, dmaPending)
    ensures Clear1(snap, dmaPending) !! Clear3(snap) && Clear2(snap, dmaPending) !! Clear3(snap)
  {
  }

  /** Two DMA_END interrupts in one pass move the address on once. */
  lemma DmaEndsMerge(s: Irq)
    requires s.sts == {} && s.dmaPending
    ensures var p := Pass({DmaEnd}, {}, {DmaEnd}, {});
            AfterPass(s, p).sts == {} && AfterPass(s, p).dma == Advance(s.dma) && AfterPass(s, p).dmaPending
  {
    hide Advance;
    var snap: Bits := s.sts + {DmaEnd};
    assert snap == {DmaEnd};
    assert DataVerdictOf(snap).MoveOn? && DmaEnd in snap * DATA_MASK && snap * CMD_MASK == {};
  }

  /**
   Which data bits a pass clears while a DMA transfer is pending: all it read when it publishes a
   result, DMA_END alone when it moves the address on, and none otherwise.
   */
  lemma DataBitsHeld(s: Irq, p: Pass)
    requires s.dmaPending
    ensures var snap := s.sts + p.rise0;
            var cleared := (Clear1(snap, true) + Clear2(snap, true) + Clear3(snap)) * DATA_MASK;
            var s' := AfterPass(s, p);
            && (!s'.dmaPending <==> cleared == snap * DATA_MASK != {} && DataVerdictOf(snap).Publish?)
            && (s'.dmaPending && cleared != {} ==> cleared == {DmaEnd} && DmaEnd in snap && s'.dma == Advance(s.dma))
            && (s'.dmaPending && cleared == {} ==> snap * DATA_MASK == {} && s'.dma == s.dma)
            && (s'.dmaPending ==> {DataEnd, DataTimeout, DataEndBit, DataCrc, AdmaError} * snap == {})
  {
    var snap := s.sts + p.rise0;
    MasksAreDisjoint(snap);
    var cleared := (Clear1(snap, true) + Clear2(snap, true) + Clear3(snap)) * DATA_MASK;
    assert cleared == Clear2(snap, true);
  }

  lemma MasksAreDisjoint(snap: Bits)
    ensures Clear1(snap, true) !! DATA_MASK && Clear3(snap) !! DATA_MASK && Clear2(snap, true) <= DATA_MASK
  {
  }

  predicate NoneOf(snap: Bits, bits: Bits) { bits !! snap }

  /**
   Which result each status publishes.  For a command, an error outranks the response and an index
   error does not count beside one; for data, DATA_END outranks every error.
   */
  lemma VerdictsMean(snap: Bits)
    ensures CmdVerdict(snap) == 0 <==> Response in snap && NoneOf(snap, {Timeout, Crc, EndBit})
    ensures CmdVerdict(snap) == -110 <==> Timeout in snap
    ensures CmdVerdict(snap) == -84 <==> Crc in snap && Timeout !in snap
    ensures CmdVerdict(snap) == -74 <==> EndBit in snap && NoneOf(snap, {Timeout, Crc})
    ensures CmdVerdict(snap) == -5 <==> NoneOf(snap, {Timeout, Crc, EndBit, Response})
    ensures DataVerdictOf(snap) == Publish(0) <==> DataEnd in snap
    ensures DataVerdictOf(snap) == Publish(-110) <==> DataTimeout in snap && DataEnd !in snap
    ensures DataVerdictOf(snap) == Publish(-84)
       <==> (DataEndBit in snap || DataCrc in snap) && NoneOf(snap, {DataEnd, DataTimeout})
    ensures DataVerdictOf(snap).MoveOn?
       <==> DmaEnd in snap && NoneOf(snap, {DataEnd, DataTimeout, DataEndBit, DataCrc, AdmaError})
    ensures DataVerdictOf(snap) == Publish(-5)
       <==> NoneOf(snap, {DataEnd, DataTimeout, DataEndBit, DataCrc}) && (AdmaError in snap || DmaEnd !in snap)
  {
  }

  /** With the hardware quiet after the read, which bits are cleared: all the handler knows, except during DMA. */
  lemma QuietPassClears(s: Irq, p: Pass)
    requires p.rise1 == p.rise2 == p.rise3 == {}
    ensures var snap, left := s.sts + p.rise0, AfterPass(s, p).sts;
            var cmd: Bits := {Response, Timeout, Crc, EndBit, Index, AutoCmdErr, BusPower, CardInt, Retune};
            var data: Bits :=
              {DataEnd, BlkGap, DmaEnd, SpaceAvail, DataAvail, DataTimeout, DataCrc, DataEndBit, AdmaError};
            && (!s.dmaPending ==> left == snap - cmd - data)
            && (s.dmaPending && DataVerdictOf(snap).Publish? ==> left == snap - cmd - data)
            && (s.dmaPending && DataVerdictOf(snap).MoveOn? ==> left == snap - cmd - {DmaEnd})
  {
    hide Handled, DataVerdictOf;
    var snap := s.sts + p.rise0;
    assert snap * DATA_MASK == {} ==> snap - DATA_MASK == snap;
  }

  /**
   The card interrupt: found in the status while it is enabled, it leaves both enable registers, and
   work is pending; otherwise the pass touches none of the three.
   */
  lemma CardSignalled(s: Irq, p: Pass)
    ensures var s' := AfterPass(s, p);
            if CardInt in s.sts + p.rise0 && CardInt in s.stsEn
            then s'.stsEn == s.stsEn - {CardInt} && s'.sigEn == s.sigEn - {CardInt} && s'.irqPending
            else s'.stsEn == s.stsEn && s'.sigEn == s.sigEn && s'.irqPending == s.irqPending
  {
    hide CmdVerdict, DataVerdictOf, Advance, StsAfter, DATA_MASK, CMD_MASK;
  }

  /** A card interrupt in the status read is gone after the pass; one raised later is there. */
  lemma CardCleared(s: Irq, p: Pass)
    ensures CardInt in AfterPass(s, p).sts
       <==> CardInt in p.rise1 + p.rise2 + p.rise3 && CardInt !in s.sts + p.rise0
  {
    hide Handled, DataVerdictOf;
  }

  /** The same for any number of passes: it is the first that finds it, and there is no second. */
  lemma {:induction false} CardOverPasses(s: Irq, ps: seq<Pass>)
    ensures var t := AfterPasses(s, ps);
            if CardInt in s.stsEn && CardInt in Snaps(s, ps)
            then t.stsEn == s.stsEn - {CardInt} && t.sigEn == s.sigEn - {CardInt} && t.irqPending
            else t.stsEn == s.stsEn && t.sigEn == s.sigEn && t.irqPending == s.irqPending
  {
    if ps != [] {
      CardOverPasses(s, ps[..|ps| - 1]);
      CardSignalled(AfterPasses(s, ps[..|ps| - 1]), ps[|ps| - 1]);
      hide AfterPass;
    }
  }

  predicate EndsCmd(snap: Bits) { !NoneOf(snap, {Response, Timeout, Crc, EndBit, Index, AutoCmdErr}) }

  predicate HasData(snap: Bits) {
    !NoneOf(snap, {DataEnd, DmaEnd, DataAvail, SpaceAvail, DataTimeout, DataCrc, DataEndBit, AdmaError, BlkGap})
  }

  predicate EndsData(snap: Bits) { HasData(snap) && DataVerdictOf(snap).Publish? }

  /** The three cells of the command, given the status that ends it, if one does. */
  predicate CmdCells(s: Irq, s': Irq, ends: bool, snap: Bits) {
    if s.cmdPending && ends
    then !s'.cmdPending && s'.cmdResult == CmdVerdict(snap) && s'.cmdPublished == s.cmdPublished + 1
    else s'.cmdPending == s.cmdPending && s'.cmdResult == s.cmdResult && s'.cmdPublished == s.cmdPublished
  }

  /** The three cells of the data phase, likewise. */
  predicate DataCells(s: Irq, s': Irq, ends: bool, snap: Bits) {
    if s.dmaPending && ends
    then !s'.dmaPending && Publish(s'.dmaResult) == DataVerdictOf(snap) && s'.dmaPublished == s.dmaPublished + 1
    else s'.dmaPending == s.dmaPending && s'.dmaResult == s.dmaResult && s'.dmaPublished == s.dmaPublished
  }

  /** What one pass does to them, and to the transfer: exactly when it ends either, and when the address moves on. */
  lemma PassMeans(s: Irq, p: Pass)
    ensures var snap, s' := s.sts + p.rise0, AfterPass(s, p);
            && CmdCells(s, s', EndsCmd(snap), snap) && DataCells(s, s', EndsData(snap), snap)
            && s'.dma == if MovesOn(s, snap) then Advance(s.dma) else s.dma
  {
    hide CmdVerdict, Advance, StsAfter;
    NamedMasks(s.sts + p.rise0);
    hide DATA_MASK, CMD_MASK, EndsCmd, HasData;
  }

  predicate MovesOn(s: Irq, snap: Bits) { s.dmaPending && HasData(snap) && DataVerdictOf(snap).MoveOn? }

  lemma NamedMasks(snap: Bits)
    ensures EndsCmd(snap) <==> snap * CMD_MASK != {}
    ensures HasData(snap) <==> snap * DATA_MASK != {}
  {
    MeetsIffNotNone(snap, CMD_MASK);
    MeetsIffNotNone(snap, DATA_MASK);
  }

  lemma MeetsIffNotNone(snap: Bits, bits: Bits)
    ensures NoneOf(snap, bits) <==> snap * bits == {}
  {
    if snap * bits == {} {
      assert forall b :: b in snap && b in bits ==> b in snap * bits;
    } else {
      var b :| b in snap * bits;
    }
  }

  /** The status that pass `j` reads. */
  function SnapAt(s: Irq, ps: seq<Pass>, j: nat): Bits
    requires j < |ps|
  {
    AfterPasses(s, ps[..j]).sts + ps[j].rise0
  }

  lemma SnapsOfFront(s: Irq, ps: seq<Pass>)
    requires ps != []
    ensures forall j :: 0 <= j < |ps| - 1 ==> SnapAt(s, ps, j) == SnapAt(s, ps[..|ps| - 1], j)
  {
    hide AfterPasses;
    var front := ps[..|ps| - 1];
    assert forall j {:trigger ps[..j]} :: 0 <= j < |front| ==> ps[..j] == front[..j];
  }

  /** Over any number of passes a waiting command gets the result of the first one that ends it, once. */
  lemma {:induction false} CmdOverPasses(s: Irq, ps: seq<Pass>) returns (k: nat)
    ensures k <= |ps| && forall j :: 0 <= j < k ==> !EndsCmd(SnapAt(s, ps, j))
    ensures k < |ps| ==> EndsCmd(SnapAt(s, ps, k))
    ensures CmdCells(s, AfterPasses(s, ps), k < |ps|, if k < |ps| then SnapAt(s, ps, k) else {})
  {
    k := 0;
    hide AfterPass, EndsCmd;
    if ps != [] {
      var front, n := ps[..|ps| - 1], |ps| - 1;
      k := CmdOverPasses(s, front);
      SnapsOfFront(s, ps);
      PassMeans(AfterPasses(s, front), ps[n]);
      if k == n && !EndsCmd(SnapAt(s, ps, n)) { k := |ps|; }
      hide CmdVerdict;
    }
  }

  /** So does a waiting data phase. */
  lemma {:induction false} DataOverPasses(s: Irq, ps: seq<Pass>) returns (k: nat)
    ensures k <= |ps| && forall j :: 0 <= j < k ==> !EndsData(SnapAt(s, ps, j))
    ensures k < |ps| ==> EndsData(SnapAt(s, ps, k))
    ensures DataCells(s, AfterPasses(s, ps), k < |ps|, if k < |ps| then SnapAt(s, ps, k) else {})
  {
    k := 0;
    hide AfterPass, EndsData;
    if ps != [] {
      var front, n := ps[..|ps| - 1], |ps| - 1;
      k := DataOverPasses(s, front);
      SnapsOfFront(s, ps);
      PassMeans(AfterPasses(s, front), ps[n]);
      if k == n && !EndsData(SnapAt(s, ps, n)) { k := |ps|; }
      hide DataVerdictOf;
    }
  }

  /** How many passes move the address on. */
  function Moves(s: Irq, ps: seq<Pass>): nat {
    if ps == [] then 0
    else
      var t, p := AfterPasses(s, ps[..|ps| - 1]), ps[|ps| - 1];
      Moves(s, ps[..|ps| - 1]) + if MovesOn(t, t.sts + p.rise0) then 1 else 0
  }

  /** The passes walk the transfer from boundary to boundary, a step for each that moves it on. */
  lemma {:induction false} PassesWalk(s: Irq, ps: seq<Pass>, base: u32, total: nat, i: nat)
    requires s.dma == Walk(base, total, i)
    ensures AfterPasses(s, ps).dma == Walk(base, total, i + Moves(s, ps))
  {
    hide AfterPass, MovesOn, Advance, CmdCells, DataCells, Walk;
    if ps != [] {
      var front := ps[..|ps| - 1];
      PassesWalk(s, front, base, total, i);
      PassMeans(AfterPasses(s, front), ps[|ps| - 1]);
      WalkNext(base, total, i + Moves(s, front));
    }
  }

  lemma WalkNext(base: u32, total: nat, k: nat)
    ensures Walk(base, total, k + 1) == Advance(Walk(base, total, k))
  {
    hide Advance;
  }

  /**
   Command bits are cleared whether or not anyone waits for them through the handler: with no
   command armed the pass publishes nothing and the completion is gone, also for a thread polling it.
   */
  lemma UnarmedCompletionIsDropped(s: Irq, p: Pass)
    requires !s.cmdPending
    ensures var s' := AfterPass(s, p);
            && s'.cmdResult == s.cmdResult && s'.cmdPublished == s.cmdPublished
            && s'.sts * (s.sts + p.rise0) * CMD_MASK <= p.rise2 + p.rise3
  {
    var snap := s.sts + p.rise0;
    assert snap * CMD_MASK <= Clear1(snap, s.dmaPending);
    hide DataVerdictOf, Advance, Clear2;
  }

  // ---------- The handler ----------

  /** The moments at which the hardware could raise bits during the passes, in order. */
  function Moments(ps: seq<Pass>): seq<Bits> {
    if ps == [] then []
    else
      var p := ps[|ps| - 1];
      Moments(ps[..|ps| - 1]) + [p.rise0, p.rise1, p.rise2, p.rise3]
  }

  class Controller {
    var s: Irq
    /** What the hardware raised, each time it could. */
    ghost var raised: seq<Bits>

    /** The hardware raises any bits. */
    method Raise() returns (rise: Bits)
      modifies this
      ensures s == old(s).(sts := old(s).sts + rise) && raised == old(raised) + [rise]
    {
      rise := *;
      s := s.(sts := s.sts + rise);
      raised := raised + [rise];
    }

    /** Writes a value back if it has any bit: written bits are cleared. */
    method WriteSts(value: Bits)
      modifies `s
      ensures s == old(s).(sts := old(s).sts - value)
    {
      if value != {} {
        s := s.(sts := s.sts - value);
      } else {
        assert s.sts - value == s.sts;
      }
    }

    method CompleteCmd(snap: Bits)
      modifies `s
      ensures s == HandledCmd(old(s), snap)
    {
      if snap * CMD_MASK != {} && s.cmdPending {
        s := s.(cmdResult := CmdVerdict(snap), cmdPending := false, cmdPublished := s.cmdPublished + 1);
      }
    }

    method CompleteData(snap: Bits) returns (ghost rise: Bits)
      modifies this
      ensures s == HandledData(old(s), snap).(sts := old(s).sts + rise - Clear2(snap, old(s).dmaPending))
      ensures raised == old(raised) + [rise]
    {
      hide Advance;
      var r := Raise();
      rise := r;
      if snap * DATA_MASK != {} && s.dmaPending {
        match DataVerdictOf(snap)
        case Publish(result) =>
          s := s.(dmaResult := result, dmaPending := false, dmaPublished := s.dmaPublished + 1);
          WriteSts(snap * DATA_MASK);
        case MoveOn =>
          s := s.(dma := Advance(s.dma));
          WriteSts({DmaEnd});
      } else {
        WriteSts({});
      }
    }

    method SignalCard(snap: Bits)
      modifies `s
      ensures s == HandledCard(old(s), snap)
    {
      if CardInt in snap && CardInt in s.stsEn {
        s := s.(stsEn := s.stsEn - {CardInt}, sigEn := s.sigEn - {CardInt}, irqPending := true);
      }
    }

    /** The body of the handler's loop, for the status just read. */
    method ServicePass(snap: Bits) returns (ghost r1: Bits, ghost r2: Bits, ghost r3: Bits)
      requires s.sts == snap
      modifies this
      ensures s == Handled(old(s), snap).(sts := StsAfter(snap, old(s.dmaPending), r1, r2, r3))
      ensures raised == old(raised) + [r1, r2, r3]
    {
      ghost var s0 := s;
      var rise := Raise();
      r1 := rise;
      var clearMask := snap * (CMD_MASK + {BusPower});
      if !s.dmaPending { clearMask := clearMask + snap * DATA_MASK; }
      WriteSts(clearMask);
      assert s == s0.(sts := snap + r1 - Clear1(snap, s0.dmaPending));
      hide Clear1, Clear2, Clear3, HandledCmd, HandledData, HandledCard, Handled, StsAfter, CMD_MASK, DATA_MASK;
      CompleteCmd(snap);
      r2 := CompleteData(snap);
      SignalCard(snap);
      rise := Raise();
      r3 := rise;
      WriteSts(Clear3(snap));
      ServiceComposes(s0, snap, r1, r2, r3);
    }

    /**
     `handle_sdhci_host_irq`: passes in order, each over a status that is neither empty nor all
     ones, until one of those is read or sixteen are done.  Every bit that was set or was raised
     meanwhile is still set or was read by one of the passes.  The card interrupt, once read while it
     is enabled, is disabled in both registers and work is pending.
     */
    method HandleSdhciHostIrq() returns (ghost passes: seq<Pass>, ghost last: Bits)
      modifies this
      ensures |passes| <= 16 && AllBusy(old(s), passes)
      ensures |passes| == 16 || s.sts == {} || s.sts == ALL_ONES
      ensures var t := AfterPasses(old(s), passes); s == t.(sts := t.sts + last)
      ensures raised == old(raised) + Moments(passes) + (if |passes| == 16 then [] else [last])
      ensures |passes| == 16 ==> last == {}
      ensures old(s).sts + Rises(passes) + last <= s.sts + Snaps(old(s), passes)
      ensures if CardInt in old(s).stsEn && CardInt in Snaps(old(s), passes)
              then s.stsEn == old(s).stsEn - {CardInt} && s.sigEn == old(s).sigEn - {CardInt} && s.irqPending
              else s.stsEn == old(s).stsEn && s.sigEn == old(s).sigEn && s.irqPending == old(s).irqPending
    {
      passes, last := [], {};
      ghost var s0, raised0 := s, raised;
      ServingStarts(s0, raised0);
      hide Serving, AfterPass, AfterPasses, AllBusy, Moments, Rises, Snaps, Handled, StsAfter, ALL_ONES;
      var maxLoops := 16;
      while true
        invariant 0 < maxLoops <= 16 && |passes| == 16 - maxLoops
        invariant Serving(s0, raised0, s, raised, passes)
        decreases maxLoops
      {
        ghost var t, soFar := s, raised;
        var rise := Raise();
        var snap := s.sts;
        if snap == {} || snap == ALL_ONES {
          last := rise;
          ServingEnds(s0, raised0, t, soFar, passes, rise);
          return;
        }
        ghost var r1, r2, r3 := ServicePass(snap);
        ghost var p := Pass(rise, r1, r2, r3);
        ServingNext(s0, raised0, t, soFar, passes, p);
        assert raised == soFar + [rise, r1, r2, r3];
        passes := passes + [p];
        maxLoops := maxLoops - 1;
        if maxLoops == 0 {
          ServingEnds(s0, raised0, s, raised, passes, {});
          return;
        }
      }
    }
  }

  /** The handler between passes. */
  predicate Serving(s0: Irq, raised0: seq<Bits>, s: Irq, raised: seq<Bits>, passes: seq<Pass>) {
    s == AfterPasses(s0, passes) && AllBusy(s0, passes) && raised == raised0 + Moments(passes)
  }

  lemma ServingStarts(s0: Irq, raised0: seq<Bits>)
    ensures Serving(s0, raised0, s0, raised0, [])
  {
  }

  lemma ServingNext(s0: Irq, raised0: seq<Bits>, s: Irq, raised: seq<Bits>, passes: seq<Pass>, p: Pass)
    requires Serving(s0, raised0, s, raised, passes) && Busy(s.sts + p.rise0)
    ensures Serving(s0, raised0, AfterPass(s, p), raised + [p.rise0, p.rise1, p.rise2, p.rise3], passes + [p])
    ensures AfterPass(s, p)
         == Handled(s.(sts := s.sts + p.rise0), s.sts + p.rise0)
              .(sts := StsAfter(s.sts + p.rise0, s.dmaPending, p.rise1, p.rise2, p.rise3))
  {
    PassesSnoc(s0, passes, p);
    hide AfterPasses, AllBusy, Moments, Busy, Handled, StsAfter;
    assert raised + [p.rise0, p.rise1, p.rise2, p.rise3]
        == raised0 + (Moments(passes) + [p.rise0, p.rise1, p.rise2, p.rise3]);
  }

  lemma ServingEnds(s0: Irq, raised0: seq<Bits>, s: Irq, raised: seq<Bits>, passes: seq<Pass>, last: Bits)
    requires Serving(s0, raised0, s, raised, passes)
    ensures s == AfterPasses(s0, passes) && AllBusy(s0, passes) && raised == raised0 + Moments(passes)
    ensures s.(sts := s.sts + {}) == s && raised + [] == raised
    ensures if CardInt in s0.stsEn && CardInt in Snaps(s0, passes)
            then s.stsEn == s0.stsEn - {CardInt} && s.sigEn == s0.sigEn - {CardInt} && s.irqPending
            else s.stsEn == s0.stsEn && s.sigEn == s0.sigEn && s.irqPending == s0.irqPending
    ensures s0.sts + Rises(passes) + last <= s.sts + last + Snaps(s0, passes)
  {
    PassesLoseNothing(s0, passes);
    CardOverPasses(s0, passes);
    hide AfterPasses, AllBusy, Moments, Rises, Snaps;
    assert s.sts + {} == s.sts;
  }

  /** The steps of one pass, put together. */
  lemma ServiceComposes(s0: Irq, snap: Bits, r1: Bits, r2: Bits, r3: Bits)
    requires s0.sts == snap
    ensures var a := s0.(sts := snap + r1 - Clear1(snap, s0.dmaPending));
            var b := HandledCmd(a, snap);
            var c := HandledData(b, snap).(sts := b.sts + r2 - Clear2(snap, b.dmaPending));
            var d := HandledCard(c, snap);
            d.(sts := d.sts + r3 - Clear3(snap)) == Handled(s0, snap).(sts := StsAfter(snap, s0.dmaPending, r1, r2, r3))
  {
    hide Clear1, Clear2, Clear3, HandledCmd, HandledData, HandledCard;
    var x := snap + r1 - Clear1(snap, s0.dmaPending);
    HandlingIgnoresSts(s0, snap, x);
    HandlingIgnoresSts(HandledCmd(s0, snap), snap, x);
    HandlingIgnoresSts(HandledData(HandledCmd(s0, snap), snap), snap, x + r2 - Clear2(snap, s0.dmaPending));
  }

  /** Every pass of the list reads a status that has a bit and is not all ones. */
  predicate AllBusy(s: Irq, ps: seq<Pass>) {
    ps == [] ||
    (AllBusy(s, ps[..|ps| - 1]) && Busy(AfterPasses(s, ps[..|ps| - 1]).sts + ps[|ps| - 1].rise0))
  }

  predicate Busy(snap: Bits) { snap != {} && snap != ALL_ONES }

  /** Handling a snapshot neither reads nor writes the status register. */
  lemma HandlingIgnoresSts(s: Irq, snap: Bits, x: Bits)
    ensures HandledCmd(s.(sts := x), snap) == HandledCmd(s, snap).(sts := x)
    ensures HandledData(s.(sts := x), snap) == HandledData(s, snap).(sts := x)
    ensures HandledCard(s.(sts := x), snap) == HandledCard(s, snap).(sts := x)
    ensures HandledCmd(s, snap).dmaPending == s.dmaPending
  {
    hide CmdVerdict, DataVerdictOf, Advance;
  }

  lemma PassesSnoc(s: Irq, passes: seq<Pass>, p: Pass)
    ensures AfterPasses(s, passes + [p]) == AfterPass(AfterPasses(s, passes), p)
    ensures Moments(passes + [p]) == Moments(passes) + [p.rise0, p.rise1, p.rise2, p.rise3]
    ensures AllBusy(s, passes + [p]) <==> AllBusy(s, passes) && Busy(AfterPasses(s, passes).sts + p.rise0)
  {
    hide AfterPass, Busy;
    assert (passes + [p])[..|passes|] == passes;
  }
}
