/**
 The CARD_INT disable / work / acknowledge protocol between the interrupt handler, the work thread
 and the transfer entry (driver/bsp/src/sdio/backend.rs, driver/bsp/src/sdio/flow.rs).  The
 handler and each register access is one step; everything else interleaves at will.
 */
module CardIntProtocol {
  import opened Wrappers
  import HostIrq

  /** The work thread: asleep (perhaps with a wake-up on its way), waiting for the lock, or inside `sdio_run_irqs`. */
  datatype Worker = Asleep(notified: bool) | Woken | Locked | Swapped | ReadDone | Acking | Finished

  datatype Lock = Free | ByWorker | ByTransfer

  /** What an observer sees: firings, disables by a transfer, and the worker's three acts. */
  datatype Mark = Fired | Disabled | Cleared | Attempted | Reenabled

  /**
   `card`: the status bit; `enabled`: CARD_INT in INT_STS_EN; `disabling`: the transfer entry has
   disabled it and not yet signalled; `saved`: the bit as read by `set_transfer_irqs_dma`.
   */
  datatype State = State(card: bool, enabled: bool, pending: bool, worker: Worker, lock: Lock,
                         disabling: bool, saved: Option<bool>, log: seq<Mark>)

  const INITIAL := State(false, false, false, Asleep(false), Free, false, None, [])

  datatype Step =
    | Hardware(card: bool)
    | Isr
    | Wake | LoseWake | WorkerLock | Swap | ReadCccr | CheckPending | Ack | WorkerUnlock
    | TransferLock | TransferDisable | TransferSignal | TransferUnlock
    | DmaIrqsRead | DmaIrqsWrite
    | SpuriousWake

  predicate Enabled(s: State, a: Step) {
    match a
    case Hardware(_) => true
    case Isr => true
    case Wake => s.worker == Asleep(true)
    case LoseWake => s.worker == Asleep(true)
    case WorkerLock => s.worker.Woken? && s.lock.Free?
    case Swap => s.worker.Locked?
    case ReadCccr => s.worker.Swapped?
    case CheckPending => s.worker.ReadDone?
    case Ack => s.worker.Acking?
    case WorkerUnlock => s.worker.Finished?
    case TransferLock => s.lock.Free?
    case TransferDisable => s.lock.ByTransfer? && s.card && !s.disabling && s.saved.None?
    case TransferSignal => s.disabling
    case TransferUnlock => s.lock.ByTransfer? && !s.disabling && s.saved.None?
    case DmaIrqsRead => s.lock.ByTransfer? && !s.disabling && s.saved.None?
    case DmaIrqsWrite => s.saved.Some?
    case SpuriousWake => s.worker.Asleep?
  }

  /** `notify_one`: reaches the worker only while it sleeps. */
  function Notify(w: Worker): Worker { if w.Asleep? then Asleep(true) else w }

  function Next(s: State, a: Step): State
    requires Enabled(s, a)
  {
    match a
    case Hardware(card) => s.(card := card)
    case Isr =>
      if s.card && s.enabled
      then s.(card := false, enabled := false, pending := true, worker := Notify(s.worker), log := s.log + [Fired])
      else s.(card := false)
    case Wake => s.(worker := Woken)
    case LoseWake => s.(worker := Asleep(false))
    case WorkerLock => s.(worker := Locked, lock := ByWorker)
    case Swap => s.(worker := Swapped, pending := false, log := s.log + [Cleared])
    case ReadCccr => s.(worker := ReadDone, log := s.log + [Attempted])
    case CheckPending => s.(worker := if s.pending then Finished else Acking)
    case Ack => s.(worker := Finished, enabled := true, log := s.log + [Reenabled])
    case WorkerUnlock => s.(worker := Asleep(false), lock := Free)
    case TransferLock => s.(lock := ByTransfer)
    case TransferDisable => s.(enabled := false, disabling := true, log := s.log + [Disabled])
    case TransferSignal => s.(pending := true, disabling := false, worker := Notify(s.worker))
    case TransferUnlock => s.(lock := Free)
    case DmaIrqsRead => s.(saved := Some(s.enabled))
    case DmaIrqsWrite => s.(enabled := s.saved.value, saved := None)
    case SpuriousWake => s.(worker := Woken)
  }

  predicate IsRun(h: seq<Step>)
    decreases |h|, 0
  {
    h == [] || (IsRun(h[..|h| - 1]) && Enabled(After(h[..|h| - 1]), h[|h| - 1]))
  }

  function After(h: seq<Step>): State
    requires IsRun(h)
    decreases |h|, 1
  {
    if h == [] then INITIAL else Next(After(h[..|h| - 1]), h[|h| - 1])
  }

  // ---------- Safety ----------

  /**
   Where the observer is: CARD_INT on, or off and how far a pass has come since.  `Bad` is a firing
   while it is off, or an enabling that no pass led up to.
   */
  datatype Cycle = Off | AfterClear | AfterRead | On | Bad

  function Turn(c: Cycle, m: Mark): Cycle {
    match (c, m)
    case (Bad, _) => Bad
    case (On, Fired) => Off
    case (_, Fired) => Bad
    case (_, Disabled) => Off
    case (On, _) => On
    case (_, Cleared) => AfterClear
    case (AfterClear, Attempted) => AfterRead
    case (_, Attempted) => Off
    case (AfterRead, Reenabled) => On
    case (_, Reenabled) => Bad
  }

  function CycleOf(log: seq<Mark>): Cycle {
    if log == [] then Off else Turn(CycleOf(log[..|log| - 1]), log[|log| - 1])
  }

  /** CARD_INT is disabled while work is pending. */
  predicate OffWhilePending(s: State) { s.pending ==> !s.enabled }

  /**
   CARD_INT is disabled while work is pending, and it is on exactly if a pass that cleared the flag
   and then attempted the read has turned it on since it was last turned off.
   */
  predicate Safe(s: State) {
    OffWhilePending(s) && CycleOf(s.log) != Bad && (s.enabled <==> CycleOf(s.log).On?)
  }

  /**
   The two writes that turn CARD_INT on act on what was read before them.  They are fresh if that
   still holds: no work is pending at the acknowledgement, and the value `set_transfer_irqs_dma`
   writes back is the current one.
   */
  predicate Fresh(s: State, a: Step) {
    && (a.Ack? ==> !s.pending)
    && (a.DmaIrqsWrite? && s.saved.Some? ==> s.saved.value == s.enabled)
  }

  predicate InPass(w: Worker) { w.Locked? || w.Swapped? || w.ReadDone? || w.Acking? || w.Finished? }

  /** In a pass with CARD_INT off, the observer has seen the pass come this far, or a firing in it. */
  predicate Follows(s: State, c: Cycle) {
    s.enabled || CycleOf(s.log) == c || (CycleOf(s.log).Off? && s.pending)
  }

  /** What fresh runs keep beside safety. */
  predicate Inv(s: State) {
    && Safe(s)
    && (InPass(s.worker) <==> s.lock.ByWorker?)
    && (s.disabling ==> !s.enabled && s.lock.ByTransfer?)
    && (s.saved.Some? ==> s.lock.ByTransfer? && !s.disabling)
    && (s.saved == Some(true) && !s.enabled ==> s.pending)
    && (s.saved == Some(false) ==> !s.enabled)
    && (s.worker.Swapped? ==> Follows(s, AfterClear))
    && (s.worker.ReadDone? || s.worker.Acking? ==> Follows(s, AfterRead))
  }

  lemma CycleSnoc(log: seq<Mark>, m: Mark)
    ensures CycleOf(log + [m]) == Turn(CycleOf(log), m)
  {
    assert (log + [m])[..|log|] == log;
  }

  /** A fresh step keeps the invariant. */
  lemma InvStep(s: State, a: Step)
    requires Inv(s) && Enabled(s, a) && Fresh(s, a)
    ensures Inv(Next(s, a))
  {
    hide CycleOf;
    forall m: Mark { CycleSnoc(s.log, m); }
  }

  /** Exactly the fresh steps are safe. */
  lemma StepIsSafeIffFresh(s: State, a: Step)
    requires Inv(s) && Enabled(s, a)
    ensures Safe(Next(s, a)) <==> Fresh(s, a)
    ensures OffWhilePending(Next(s, a)) <==> Fresh(s, a)
  {
    if Fresh(s, a) {
      InvStep(s, a);
    } else {
      hide CycleOf;
    }
  }

  predicate FreshRun(h: seq<Step>)
    requires IsRun(h)
  {
    h == [] || (FreshRun(h[..|h| - 1]) && Fresh(After(h[..|h| - 1]), h[|h| - 1]))
  }

  predicate AlwaysSafe(h: seq<Step>)
    requires IsRun(h)
  {
    Safe(After(h)) && (h == [] || AlwaysSafe(h[..|h| - 1]))
  }

  predicate AlwaysOffWhilePending(h: seq<Step>)
    requires IsRun(h)
  {
    OffWhilePending(After(h)) && (h == [] || AlwaysOffWhilePending(h[..|h| - 1]))
  }

  lemma InitialInv()
    ensures OffWhilePending(INITIAL) && Inv(INITIAL) && Safe(INITIAL)
    ensures Tidy(INITIAL) && WakesInOrder(INITIAL) && Served(INITIAL)
  {
  }

  lemma {:induction false} FreshRunsKeepInv(h: seq<Step>)
    requires IsRun(h) && FreshRun(h)
    ensures Inv(After(h))
  {
    hide Inv, Next, Enabled, Fresh;
    if h == [] {
      InitialInv();
    } else {
      FreshRunsKeepInv(h[..|h| - 1]);
      InvStep(After(h[..|h| - 1]), h[|h| - 1]);
    }
  }

  /**
   A run of any steps keeps CARD_INT disabled while work is pending if and only if its steps are
   fresh, and then nothing but whole passes ever turns it on.
   */
  lemma {:induction false} EveryRunIsSafe(h: seq<Step>)
    requires IsRun(h)
    ensures AlwaysOffWhilePending(h) <==> FreshRun(h)
    ensures AlwaysSafe(h) <==> FreshRun(h)
  {
    hide Inv, Safe, OffWhilePending, Next, Enabled, Fresh;
    if h == [] {
      InitialInv();
    } else {
      var h0 := h[..|h| - 1];
      EveryRunIsSafe(h0);
      if FreshRun(h0) {
        FreshRunsKeepInv(h0);
        StepIsSafeIffFresh(After(h0), h[|h| - 1]);
      }
    }
  }

  // ---------- What makes steps fresh ----------

  /** A pass starts only with CARD_INT disabled, and the enable register is updated as if in one step. */
  predicate Orderly(s: State, a: Step) {
    && (a.Swap? ==> !s.enabled)
    && (a.DmaIrqsWrite? && s.saved.Some? ==> s.saved.value == s.enabled)
  }

  predicate OrderlyRun(h: seq<Step>)
    requires IsRun(h)
  {
    h == [] || (OrderlyRun(h[..|h| - 1]) && Orderly(After(h[..|h| - 1]), h[|h| - 1]))
  }

  /** Nothing can fire in a pass that started disabled. */
  predicate Tidy(s: State) {
    && (s.worker.Swapped? || s.worker.ReadDone? || s.worker.Acking? ==> !s.enabled)
    && (s.worker.Acking? ==> !s.pending)
  }

  lemma OrderlyStepIsFresh(s: State, a: Step)
    requires Inv(s) && Tidy(s) && Enabled(s, a) && Orderly(s, a)
    ensures Fresh(s, a) && Tidy(Next(s, a))
  {
    hide CycleOf;
  }

  /** Runs whose passes start disabled are fresh. */
  lemma {:induction false} OrderlyRunsAreFresh(h: seq<Step>)
    requires IsRun(h) && OrderlyRun(h)
    ensures FreshRun(h) && Tidy(After(h))
  {
    hide Inv, Next, Enabled, Fresh, Orderly, Tidy;
    if h == [] {
      InitialInv();
    } else {
      OrderlyRunsAreFresh(h[..|h| - 1]);
      FreshRunsKeepInv(h[..|h| - 1]);
      OrderlyStepIsFresh(After(h[..|h| - 1]), h[|h| - 1]);
    }
  }

  /** The handler finds the card interrupt while it is enabled. */
  predicate Fires(s: State, a: Step) { a.Isr? && s.card && s.enabled }

  /** The handler fired after the last time a pass looked whether work is pending. */
  predicate FiredSinceCheck(h: seq<Step>)
    requires IsRun(h)
  {
    h != [] && !h[|h| - 1].CheckPending?
    && (Fires(After(h[..|h| - 1]), h[|h| - 1]) || FiredSinceCheck(h[..|h| - 1]))
  }

  /** No acknowledgement raced with a firing, and no write-back with another write. */
  predicate RaceFreeRun(h: seq<Step>)
    requires IsRun(h)
  {
    h == [] ||
    (var s := After(h[..|h| - 1]);
     RaceFreeRun(h[..|h| - 1])
     && (h[|h| - 1].Ack? ==> !FiredSinceCheck(h[..|h| - 1]))
     && (h[|h| - 1].DmaIrqsWrite? && s.saved.Some? ==> s.saved.value == s.enabled))
  }

  /**
   The check before the acknowledgement leaves just one gap: a run is fresh if and only if nothing
   fires between a check and the acknowledgement that follows it, and write-backs are of current
   values.
   */
  lemma {:induction false} FreshIffRaceFree(h: seq<Step>)
    requires IsRun(h)
    ensures FreshRun(h) <==> RaceFreeRun(h)
    ensures FreshRun(h) && After(h).worker.Acking? ==> (After(h).pending <==> FiredSinceCheck(h))
  {
    hide Inv, Next, Enabled, Fires;
    if h == [] {
      InitialInv();
    } else {
      var h0, a := h[..|h| - 1], h[|h| - 1];
      FreshIffRaceFree(h0);
      if FreshRun(h0) {
        FreshRunsKeepInv(h0);
        AckingStep(After(h0), a, FiredSinceCheck(h0));
      }
    }
  }

  lemma AckingStep(s: State, a: Step, fired: bool)
    requires Inv(s) && Enabled(s, a) && (s.worker.Acking? ==> (s.pending <==> fired))
    ensures a.Ack? ==> s.worker.Acking?
    ensures var fired' := !a.CheckPending? && (Fires(s, a) || fired);
            Next(s, a).worker.Acking? ==> (Next(s, a).pending <==> fired')
  {
    hide CycleOf;
  }

  /** A run whose wakes all answer a notification, and whose write-backs are of current values. */
  predicate NotifiedRun(h: seq<Step>)
    requires IsRun(h)
  {
    h == [] ||
    (var s := After(h[..|h| - 1]);
     NotifiedRun(h[..|h| - 1]) && !h[|h| - 1].SpuriousWake?
     && (h[|h| - 1].DmaIrqsWrite? && s.saved.Some? ==> s.saved.value == s.enabled))
  }

  /** A worker on its way to a pass finds CARD_INT disabled. */
  predicate WakesInOrder(s: State) {
    s.worker == Asleep(true) || s.worker.Woken? || s.worker.Locked? ==> !s.enabled
  }

  /** Wakes that answer a notification only start passes with CARD_INT disabled. */
  lemma {:induction false} NotifiedRunsAreOrderly(h: seq<Step>)
    requires IsRun(h) && NotifiedRun(h)
    ensures OrderlyRun(h) && WakesInOrder(After(h))
  {
    hide Inv, Next, Enabled, WakesInOrder, Tidy, FreshRun;
    if h == [] {
      InitialInv();
    } else {
      var s, a := After(h[..|h| - 1]), h[|h| - 1];
      NotifiedRunsAreOrderly(h[..|h| - 1]);
      OrderlyRunsAreFresh(h[..|h| - 1]);
      FreshRunsKeepInv(h[..|h| - 1]);
      WakesStep(s, a);
    }
  }

  lemma WakesStep(s: State, a: Step)
    requires Inv(s) && WakesInOrder(s) && Enabled(s, a) && !a.SpuriousWake?
    requires a.DmaIrqsWrite? && s.saved.Some? ==> s.saved.value == s.enabled
    ensures Orderly(s, a) && WakesInOrder(Next(s, a))
  {
    hide CycleOf;
  }

  /** Between two firings of the handler lie a clear, a read attempt and an enabling, in a row. */
  lemma FiringsAreSeparated(log: seq<Mark>, i: nat, j: nat)
    requires CycleOf(log) != Bad && i < j < |log| && log[i] == log[j] == Fired
    ensures exists k :: i < k <= j - 3 && PassAt(log, k)
  {
    hide CycleOf;
    NotBadBefore(log, j + 1);
    var c := log[..j];
    assert log[..j + 1] == c + [Fired];
    CycleSnoc(c, Fired);
    var k := EnablingPass(c, i);
    assert PassAt(log, k);
  }

  /** The worker's three acts one after the other. */
  predicate PassAt(log: seq<Mark>, k: nat) {
    k + 3 <= |log| && log[k] == Cleared && log[k + 1] == Attempted && log[k + 2] == Reenabled
  }

  /** CARD_INT that is on after a firing was turned on by a pass after it. */
  lemma {:induction false} EnablingPass(c: seq<Mark>, i: nat) returns (k: nat)
    requires CycleOf(c).On? && i < |c| && c[i] == Fired
    ensures i < k && PassAt(c, k)
  {
    LastTurn(c);
    hide CycleOf;
    var b := c[..|c| - 1];
    if CycleOf(b).On? {
      k := EnablingPass(b, i);
    } else {
      LastTurn(b);
      var a := b[..|b| - 1];
      LastTurn(a);
      k := |c| - 3;
      assert a[|a| - 1] == c[k] && b[|b| - 1] == c[k + 1];
    }
  }

  lemma {:induction false} LastTurn(c: seq<Mark>)
    ensures c == [] ==> CycleOf(c).Off?
    ensures c != [] ==> CycleOf(c) == Turn(CycleOf(c[..|c| - 1]), c[|c| - 1])
  {
  }

  lemma {:induction false} NotBadBefore(log: seq<Mark>, n: nat)
    requires n <= |log| && CycleOf(log) != Bad
    ensures CycleOf(log[..n]) != Bad
  {
    hide CycleOf;
    if n < |log| {
      var front := log[..|log| - 1];
      LastTurn(log);
      NotBadBefore(front, n);
      assert front[..n] == log[..n];
    } else {
      assert log[..n] == log;
    }
  }

  // ---------- Is pending work served ----------

  /** Pending work has a worker on its way. */
  predicate Served(s: State) {
    s.pending ==> s.worker == Asleep(true) || s.worker.Woken? || s.worker.Locked?
  }

  /** A firing in a pass that has already cleared the flag, or a wake-up that the wait never sees. */
  predicate Drops(s: State, a: Step) {
    || (a.Isr? && s.card && s.enabled && InPass(s.worker) && !s.worker.Locked?)
    || (a.LoseWake? && s.pending)
  }

  /** Exactly which steps leave pending work without a worker. */
  lemma StepServesIffNotDropped(s: State, a: Step)
    requires Inv(s) && Served(s) && Enabled(s, a) && Fresh(s, a)
    ensures Served(Next(s, a)) <==> !Drops(s, a)
  {
    hide CycleOf;
  }

  predicate AlwaysServed(h: seq<Step>)
    requires IsRun(h)
  {
    Served(After(h)) && (h == [] || AlwaysServed(h[..|h| - 1]))
  }

  predicate DropsNothing(h: seq<Step>)
    requires IsRun(h)
  {
    h == [] || (DropsNothing(h[..|h| - 1]) && !Drops(After(h[..|h| - 1]), h[|h| - 1]))
  }

  /** A fresh run keeps a worker on its way to pending work throughout if and only if it drops no notification. */
  lemma {:induction false} ServedIffNothingDropped(h: seq<Step>)
    requires IsRun(h) && FreshRun(h)
    ensures AlwaysServed(h) <==> DropsNothing(h)
  {
    hide Inv, Next, Enabled, Fresh, Served, Drops;
    if h == [] {
      InitialInv();
    } else {
      var h0 := h[..|h| - 1];
      ServedIffNothingDropped(h0);
      FreshRunsKeepInv(h0);
      if AlwaysServed(h0) {
        StepServesIffNotDropped(After(h0), h[|h| - 1]);
      }
    }
  }

  // ---------- The handler itself ----------

  /** The machine's view of the controller. */
  predicate Shows(c: State, sts: HostIrq.Bits, irq: HostIrq.Irq) {
    && (c.card <==> HostIrq.CardInt in sts)
    && (c.enabled <==> HostIrq.CardInt in irq.stsEn)
    && (c.pending <==> irq.irqPending)
  }

  /**
   The machine's handler step is one pass of the interrupt handler, which then also shows a card
   interrupt that was raised only after the pass had read the status.
   */
  lemma HandlerIsIsr(c: State, s: HostIrq.Irq, p: HostIrq.Pass)
    requires Shows(c, s.sts + p.rise0, s)
    ensures var s' := HostIrq.AfterPass(s, p);
            var late := HostIrq.CardInt in p.rise1 + p.rise2 + p.rise3 && HostIrq.CardInt !in s.sts + p.rise0;
            Shows(Next(c, Isr).(card := late), s'.sts, s')
  {
    var snap := s.sts + p.rise0;
    HostIrq.CardSignalled(s, p);
    HostIrq.CardCleared(s, p);
    hide HostIrq.AfterPass;
  }

  // ---------- Witnesses ----------

  lemma Extend(h: seq<Step>, a: Step) returns (h': seq<Step>, s: State)
    requires IsRun(h) && Enabled(After(h), a)
    ensures h' == h + [a] && IsRun(h') && After(h') == s == Next(After(h), a)
    ensures FreshRun(h) && Fresh(After(h), a) ==> FreshRun(h')
    ensures OrderlyRun(h') <==> OrderlyRun(h) && Orderly(After(h), a)
  {
    h' := h + [a];
    assert h'[..|h|] == h;
    s := After(h');
  }

  lemma EmptyRun()
    ensures IsRun([]) && After([]) == INITIAL && FreshRun([])
  {
  }

  lemma ReachSignalled() returns (h: seq<Step>, s: State)
    ensures IsRun(h) && FreshRun(h) && After(h) == s
    ensures s == INITIAL.(card := true, pending := true, worker := Asleep(true), log := [Disabled])
  {
    h, s := [], INITIAL;
    EmptyRun();
    hide IsRun, After, FreshRun, OrderlyRun;
    h, s := Extend(h, Hardware(true));
    h, s := Extend(h, TransferLock);
    h, s := Extend(h, TransferDisable);
    h, s := Extend(h, TransferSignal);
    h, s := Extend(h, TransferUnlock);
  }

  /** The interrupt is first enabled by a worker pass that a transfer asked for. */
  lemma ReachAcked() returns (h: seq<Step>, s: State)
    ensures IsRun(h) && FreshRun(h) && After(h) == s
    ensures s.enabled && !s.pending && s.worker.Finished? && s.lock.ByWorker? && s.saved.None? && !s.disabling
  {
    h, s := ReachSignalled();
    hide IsRun, After, FreshRun, OrderlyRun;
    h, s := Extend(h, Wake);
    h, s := Extend(h, WorkerLock);
    h, s := Extend(h, Swap);
    h, s := Extend(h, ReadCccr);
    h, s := Extend(h, CheckPending);
    h, s := Extend(h, Ack);
  }

  /** A firing between the read and the write of the enable register is undone. */
  lemma SplitWriteBreaksSafety()
    ensures exists h :: IsRun(h) && After(h).pending && After(h).enabled
  {
    var h, s := ReachAcked();
    hide IsRun, After, FreshRun, OrderlyRun;
    h, s := Extend(h, WorkerUnlock);
    h, s := Extend(h, TransferLock);
    h, s := Extend(h, DmaIrqsRead);
    h, s := Extend(h, Hardware(true));
    h, s := Extend(h, Isr);
    h, s := Extend(h, DmaIrqsWrite);
    assert s.pending && s.enabled;
  }

  /** A worker pass that nothing asked for can overwrite a firing between its check and its acknowledgement. */
  lemma SpuriousWakeBreaksSafety()
    ensures exists h :: IsRun(h) && After(h).pending && After(h).enabled
  {
    var h, s := ReachAcked();
    hide IsRun, After, FreshRun, OrderlyRun;
    h, s := Extend(h, WorkerUnlock);
    h, s := Extend(h, SpuriousWake);
    h, s := Extend(h, WorkerLock);
    h, s := Extend(h, Swap);
    h, s := Extend(h, ReadCccr);
    h, s := Extend(h, CheckPending);
    h, s := Extend(h, Hardware(true));
    h, s := Extend(h, Isr);
    h, s := Extend(h, Ack);
    assert s.pending && s.enabled;
  }

  /** A pass that nothing asked for does no harm as long as nothing fires in it: orderly is more than is needed. */
  lemma EarlyPassCanBeFresh()
    ensures exists h :: IsRun(h) && FreshRun(h) && !OrderlyRun(h) && After(h).enabled
  {
    var h, s := ReachAcked();
    hide IsRun, After, FreshRun, OrderlyRun;
    h, s := Extend(h, WorkerUnlock);
    h, s := Extend(h, SpuriousWake);
    h, s := Extend(h, WorkerLock);
    h, s := Extend(h, Swap);
    h, s := Extend(h, ReadCccr);
    h, s := Extend(h, CheckPending);
    h, s := Extend(h, Ack);
    assert s.enabled;
  }

  /** A fresh run that rests with work pending, the interrupt disabled and nobody woken. */
  lemma NotificationCanBeLost()
    ensures exists h :: IsRun(h) && FreshRun(h) &&
              var s := After(h); s.pending && !s.enabled && s.worker == Asleep(false) && s.lock.Free? && !s.card
  {
    var h, s := ReachAcked();
    hide IsRun, After, FreshRun, OrderlyRun;
    h, s := Extend(h, Hardware(true));
    h, s := Extend(h, Isr);
    h, s := Extend(h, WorkerUnlock);
    assert s.pending && !s.enabled && s.worker == Asleep(false) && s.lock.Free? && !s.card;
  }
}
