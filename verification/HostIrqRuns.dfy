/**
 Whole runs of block transfers and interrupts (driver/bsp/src/sdio/backend.rs, `cmd53_write_blocks`
 and `cmd53_read_blocks` with their two waits, against `handle_sdhci_host_irq`).  Waits end at will:
 woken by a published result, or timed out.
 */
module HostIrqRuns {
  import opened Bytes
  import opened Sdma
  import opened HostIrq

  /** Where the transferring thread is. */
  datatype Phase = Idle | CmdWait | DmaWait

  /** How the last transfer left its waits. */
  datatype Outcome = NoTransfer | FailedInCmd | DmaTimedOut | DmaResult

  datatype Sys = Sys(irq: Irq, phase: Phase, outcome: Outcome)

  datatype Event =
    | Arm(dma: Dma)
    | Interrupt(passes: seq<Pass>)
    | CmdWake
    | CmdTimeout
    | DmaWake
    | DmaTimeout
    | Registers(sts: Bits, stsEn: Bits, sigEn: Bits)

  predicate Enabled(s: Sys, e: Event) {
    match e
    case Arm(_) => s.phase.Idle?
    case CmdWake => s.phase.CmdWait? && s.irq.cmdPublished > 0
    case CmdTimeout => s.phase.CmdWait?
    case DmaWake => s.phase.DmaWait? && s.irq.dmaPublished > 0
    case DmaTimeout => s.phase.DmaWait?
    case _ => true
  }

  /** `Registers` stands for everything else that touches the status and enable registers. */
  function Next(s: Sys, e: Event): Sys
    requires Enabled(s, e)
  {
    match e
    case Arm(dma) =>
      Sys(s.irq.(cmdPending := true, dmaPending := true, dma := dma, cmdPublished := 0, dmaPublished := 0),
          CmdWait, s.outcome)
    case Interrupt(passes) => s.(irq := AfterPasses(s.irq, passes))
    case CmdWake => if s.irq.cmdResult == 0 then s.(phase := DmaWait) else s.(phase := Idle, outcome := FailedInCmd)
    case CmdTimeout => Sys(s.irq.(cmdPending := false), Idle, FailedInCmd)
    case DmaWake => s.(phase := Idle, outcome := DmaResult)
    case DmaTimeout => Sys(s.irq.(dmaPending := false), Idle, DmaTimedOut)
    case Registers(sts, stsEn, sigEn) => s.(irq := s.irq.(sts := sts, stsEn := stsEn, sigEn := sigEn))
  }

  predicate IsRun(h: seq<Event>)
    decreases |h|, 0
  {
    h == [] || (IsRun(h[..|h| - 1]) && Enabled(After(h[..|h| - 1]), h[|h| - 1]))
  }

  function After(h: seq<Event>): Sys
    requires IsRun(h)
    decreases |h|, 1
  {
    if h == [] then Sys(Irq({}, {}, {}, false, false, 0, 0, Dma(0, 0, 0, 0), false, 0, 0), Idle, NoTransfer)
    else Next(After(h[..|h| - 1]), h[|h| - 1])
  }

  /** Publishing a result and dropping the pending flag are one act. */
  predicate PublishesOncePerFlag(s: Irq, s': Irq) {
    && (s'.cmdPending ==> s.cmdPending) && (s'.dmaPending ==> s.dmaPending)
    && s'.cmdPublished == s.cmdPublished + (if s.cmdPending && !s'.cmdPending then 1 else 0)
    && s'.dmaPublished == s.dmaPublished + (if s.dmaPending && !s'.dmaPending then 1 else 0)
  }

  lemma {:induction false} PassesPublish(s: Irq, ps: seq<Pass>)
    ensures PublishesOncePerFlag(s, AfterPasses(s, ps))
  {
    hide AfterPass;
    if ps != [] {
      PassesPublish(s, ps[..|ps| - 1]);
      PassPublishes(AfterPasses(s, ps[..|ps| - 1]), ps[|ps| - 1]);
    }
  }

  lemma PassPublishes(s: Irq, p: Pass)
    ensures PublishesOncePerFlag(s, AfterPass(s, p))
  {
    hide CmdVerdict, Advance, StsAfter, DATA_MASK, CMD_MASK;
  }

  /** The state of the flags in terms of where the transfer is and what was published since it was armed. */
  predicate FlagsInv(s: Sys) {
    var i := s.irq;
    && i.cmdPublished <= 1 && i.dmaPublished <= 1
    && (i.cmdPending <==> s.phase.CmdWait? && i.cmdPublished == 0)
    && (s.phase.Idle? ==> (i.dmaPending <==> s.outcome.FailedInCmd? && i.dmaPublished == 0))
    && (!s.phase.Idle? ==> (i.dmaPending <==> i.dmaPublished == 0))
  }

  /**
   Over every run: since it was armed, a transfer has seen at most one command result and at most
   one data result; and between transfers the data flag is still up exactly when the last one
   failed in its command phase and no data result has come since.
   */
  lemma {:induction false} EveryRunKeepsFlags(h: seq<Event>)
    requires IsRun(h)
    ensures FlagsInv(After(h))
  {
    if h != [] {
      EveryRunKeepsFlags(h[..|h| - 1]);
      FlagsStep(After(h[..|h| - 1]), h[|h| - 1]);
    }
  }

  lemma FlagsStep(s: Sys, e: Event)
    requires FlagsInv(s) && Enabled(s, e)
    ensures FlagsInv(Next(s, e))
  {
    hide AfterPasses;
    if e.Interrupt? { PassesPublish(s.irq, e.passes); }
  }

  /** A transfer that was just armed walks from its base, whatever the handler finds. */
  lemma ArmedTransferWalks(s: Sys, base: u32, total: nat, ps: seq<Pass>)
    requires s.phase.Idle?
    ensures var a := Next(s, Arm(Dma(base, total, 0, base)));
            Next(a, Interrupt(ps)).irq.dma == Walk(base, total, Moves(a.irq, ps))
  {
    hide AfterPasses, Moves, Advance;
    var a := Next(s, Arm(Dma(base, total, 0, base)));
    PassesWalk(a.irq, ps, base, total, 0);
  }

  /** A snapshot that ends the data phase. */
  predicate PublishesData(snap: Bits) { snap * DATA_MASK != {} && DataVerdictOf(snap).Publish? }

  /** The two results of one pass with both flags up. */
  lemma PassResults(s: Irq, p: Pass)
    ensures var snap, s' := s.sts + p.rise0, AfterPass(s, p);
            && (s'.dmaPending <==> s.dmaPending && !PublishesData(snap))
            && (s.dmaPending && PublishesData(snap) ==> s'.dmaResult == DataVerdictOf(snap).r)
            && s'.dmaPublished == s.dmaPublished + (if s.dmaPending && PublishesData(snap) then 1 else 0)
            && (s.cmdPending && snap * CMD_MASK != {} ==>
                  !s'.cmdPending && s'.cmdResult == CmdVerdict(snap) && s'.cmdPublished == s.cmdPublished + 1)
  {
    hide CmdVerdict, Advance, StsAfter, DATA_MASK, CMD_MASK;
  }

  lemma OnePass(s: Irq, p: Pass)
    ensures AfterPasses(s, [p]) == AfterPass(s, p)
  {
    assert [p][..0] == [];
    hide AfterPass;
  }

  /**
   A command error, whatever it is, fails the transfer in its command phase; the data flag stays up
   exactly if the same status did not end the data phase too.
   */
  lemma CommandErrorLeavesFlag(s: Sys, dma: Dma, p: Pass)
    requires s.phase.Idle?
    requires (s.irq.sts + p.rise0) * CMD_MASK != {} && CmdVerdict(s.irq.sts + p.rise0) != 0
    ensures var snap := s.irq.sts + p.rise0;
            var s1 := Next(Next(s, Arm(dma)), Interrupt([p]));
            && Enabled(s1, CmdWake)
            && var s2 := Next(s1, CmdWake);
               && s2.phase.Idle? && s2.outcome.FailedInCmd? && s2.irq.cmdResult == CmdVerdict(snap)
               && (s2.irq.dmaPending <==> !PublishesData(snap))
  {
    var a := Next(s, Arm(dma)).irq;
    OnePass(a, p);
    PassResults(a, p);
    hide AfterPasses, AfterPass, PublishesData, CmdVerdict, CMD_MASK;
  }

  /**
   A command that succeeds goes on to the data wait, and that ends with the result of the first
   status that ends a data phase, whether it came with the command's own status or in a later pass.
   */
  lemma CommandThenData(s: Sys, dma: Dma, p: Pass, q: Pass)
    requires s.phase.Idle?
    requires (s.irq.sts + p.rise0) * CMD_MASK != {} && CmdVerdict(s.irq.sts + p.rise0) == 0
    ensures var snap := s.irq.sts + p.rise0;
            var s1 := Next(Next(s, Arm(dma)), Interrupt([p]));
            && Enabled(s1, CmdWake)
            && var s2 := Next(s1, CmdWake);
               var snap2, s3 := s2.irq.sts + q.rise0, Next(s2, Interrupt([q]));
               && s2.phase.DmaWait? && (Enabled(s2, DmaWake) <==> PublishesData(snap))
               && (Enabled(s3, DmaWake) <==> PublishesData(snap) || PublishesData(snap2))
               && (Enabled(s3, DmaWake) ==>
                     && Next(s3, DmaWake).phase.Idle? && Next(s3, DmaWake).outcome.DmaResult?
                     && Publish(s3.irq.dmaResult) == DataVerdictOf(if PublishesData(snap) then snap else snap2))
  {
    var a := Next(s, Arm(dma)).irq;
    OnePass(a, p);
    PassResults(a, p);
    var b := AfterPass(a, p);
    OnePass(b, q);
    PassResults(b, q);
    hide AfterPasses, AfterPass, PublishesData, CmdVerdict, CMD_MASK, DataVerdictOf;
  }

  /**
   With the flag still up between transfers, the next status that ends a data phase is taken for the failed
   transfer's result.
   */
  lemma LateDataIsTaken(s: Sys, late: Pass)
    requires s.phase.Idle? && s.irq.dmaPending
    ensures var snap, t := s.irq.sts + late.rise0, Next(s, Interrupt([late])).irq;
            && (t.dmaPending <==> !PublishesData(snap))
            && (PublishesData(snap) ==> t.dmaResult == DataVerdictOf(snap).r)
            && (PublishesData(snap) ==> t.dmaPublished == s.irq.dmaPublished + 1)
  {
    OnePass(s.irq, late);
    PassResults(s.irq, late);
    hide AfterPasses, AfterPass, PublishesData;
  }
}
