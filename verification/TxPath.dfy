/**
 The threads put together (driver/bsp/src/sdio/flow.rs): submitter, bustx and receive thread on the
 shared mailbox cells, the command manager and one SDIO host.  Each method of the sending side is
 one step, or a sequence of steps, of the mailbox machine; reads share the wire with its writes.
 */
module TxPath {
  import opened Wrappers
  import opened Bytes
  import opened TxPad
  import opened Transfer
  import opened SdioHost
  import opened Mailbox
  import opened CmdMgr
  import opened RxDemux
  import opened RxPath

  class Path {
    const host: Host
    const mgr: RwnxCmdMgr
    /** PENDING_CMD_TX, TX_RESULT, and the padded message in the hands of the bustx thread. */
    var pending: Option<seq<byte>>
    var txResult: Option<int>
    var message: Option<seq<byte>>
    /** The bustx thread has panicked. */
    var dead: bool
    /** How many waits timed out before a submitter gave up. */
    ghost var expired: nat
    /** The state of the mailbox machine these cells are in. */
    ghost var st: State

    ghost predicate Valid()
      reads this, host, mgr, mgr.slots
    {
      !host.dmaBusy && mgr.Valid() && Coherent(st, host.wire, pending, txResult, message, dead)
    }

    /** No submit in progress, none that timed out, and the bustx thread asleep. */
    ghost predicate Quiet()
      reads this
    {
      st.sub.Idle? && pending.None? && st.bus.Asleep? && !st.timedOut
    }

    constructor ()
      ensures Valid() && Quiet() && fresh(host) && fresh(mgr) && fresh(mgr.slots)
      ensures host.wire == [] && mgr.Value() == New()
    {
      host := new Host();
      mgr := new RwnxCmdMgr();
      pending, txResult, message, dead := None, None, None, false;
      st, expired := INITIAL, 0;
    }

    /** bustx: take the pending payload and pad it in a mailbox-sized buffer. */
    method BustxTake()
      requires Valid() && Enabled(st, Wake)
      modifies `pending, `txResult, `message, `dead, `st
      ensures Valid() && st == Apply(old(st), Wake)
    {
      ghost var s := st;
      var payload := pending.value;
      Taken(s, host.wire, payload, txResult, message, dead);
      hide Coherent, Apply, Enabled, Padded, PadLen, RwnxCmdMgr.Valid;
      pending := None;
      var padded := PadMessage(payload);
      st := Apply(s, Wake);
      if padded.Some? {
        message := padded;
      } else {
        dead := true;
      }
    }

    /** The padded payload in a mailbox-sized buffer, or none if it does not fit. */
    method PadMessage(payload: seq<byte>) returns (padded: Option<seq<byte>>)
      requires |payload| <= PENDING_CMD_TX_CAP
      ensures padded == if PadLen(|payload|) <= PENDING_CMD_TX_CAP then Some(Padded(payload)) else None
    {
      hide Padded, PadLen;
      var buf := new byte[PENDING_CMD_TX_CAP](i => if 0 <= i < |payload| then payload[i] else 0);
      assert buf[..|payload|] == payload;
      var sendLen := AicwfSdioTxMsgPad(buf, |payload|);
      padded := if sendLen <= buf.Length then Some(buf[..sendLen]) else None;
    }

    /** The send itself. */
    method SendHeld() returns (r: int, ghost k: nat)
      requires !host.dmaBusy && message.Some?
      modifies host
      ensures !host.dmaBusy
      ensures r == 0 ==> host.wire == old(host.wire) + AllCompleted(WR_FIFO, Plan(message.value))
      ensures r != 0 ==> Failed(old(host.wire), host.wire, WR_FIFO, Plan(message.value), r, k)
      ensures host.polls == old(host.polls) && old(host.troubles) <= host.troubles
      ensures r != EAGAIN ==> Caused(old(host.troubles), host.troubles, r)
    {
      hide Plan, Failed, AllCompleted, GateAfter, Polled;
      r, k := host.SendMsg(message.value);
    }

    /** bustx: one pass of the send loop; EAGAIN keeps the message for another pass. */
    method BustxAttempt() returns (ghost a: Action)
      requires Valid() && st.bus.Holding?
      modifies `pending, `txResult, `message, `dead, `st, host
      ensures Valid() && (a.Retry? || a.Finish?) && Enabled(old(st), a) && st == Apply(old(st), a)
      ensures old(host.wire) <= host.wire && host.polls == old(host.polls) && old(host.troubles) <= host.troubles
      ensures a.Finish? ==> Caused(old(host.troubles), host.troubles, a.r)
    {
      ghost var s, w := st, host.wire;
      assert message == Some(Padded(st.bus.payload));
      hide Coherent, Apply, Enabled, Plan, Failed, Padded, AllCompleted, RwnxCmdMgr.Valid, Caused;
      var r, k := SendHeld();
      a := Attempted(s, w, host.wire, r, k, pending, txResult, message, dead);
      Settle(r, Apply(s, a));
    }

    /** bustx: the result, unless the message is to be sent again. */
    method Settle(r: int, ghost next: State)
      modifies `st, `txResult, `message
      ensures st == next
      ensures txResult == if r == EAGAIN then old(txResult) else Some(r)
      ensures message == if r == EAGAIN then old(message) else None
    {
      st := next;
      if r != EAGAIN {
        txResult := Some(r);
        message := None;
      }
    }

    /** bustx: whatever it can do next, if anything. */
    method BustxStep()
      requires Valid()
      modifies `pending, `txResult, `message, `dead, `st, host
      ensures Valid() && BusMoves(old(st), st) && old(host.wire) <= host.wire
      ensures host.polls == old(host.polls) && old(host.troubles) <= host.troubles
      ensures st.result != old(st.result) ==>
                st.result.Some? && Caused(old(host.troubles), host.troubles, st.result.value)
    {
      hide Caused, WireInv, WritesOf, WriteOutcome, Padded, PadLen;
      if message.Some? {
        ghost var a := BustxAttempt();
      } else if !dead && pending.Some? {
        BustxTake();
      }
    }

    /** The receive thread: one poll. */
    method BusrxStep() returns (ghost reports: seq<Report>)
      requires Valid()
      modifies host, mgr, mgr.slots
      ensures Valid() && old(host.wire) <= host.wire && WritesOf(host.wire) == WritesOf(old(host.wire))
      ensures mgr.Value() == Deliver(old(mgr.Value()), reports)
      ensures host.polls == old(host.polls) + 1 && old(host.troubles) <= host.troubles
    {
      hide OfSend, ErrnoOf, WireInv, Cells, WritesOf, Deliver, Demux, RwnxCmdMgr.Valid, RwnxCmdMgr.Value, Expected;
      ghost var m := mgr.Value();
      NothingDelivered(mgr);
      var r, got;
      ghost var w;
      r, got, w := PollRxOnce(host, mgr);
      reports := if r.Ok? then got else [];
    }

    /**
     `submit_cmd_tx_and_wait_tx_done`: post the payload and wait while the other threads move at
     will, waking early or timing out.  With no earlier submit left behind, success means the padded
     payload went out as planned, once, and any other end leaves at most one attempt on the wire;
     in every case each send so far reached the wire at most once.  It fails only for a payload that is
     too long, after a hundred waits of fifty milliseconds that timed out, or with the result of
     trouble that its own send met.
     */
    method SubmitAndWait(payload: seq<byte>) returns (r: int, ghost reports: seq<Report>)
      requires Valid() && st.sub.Idle?
      modifies this, host, mgr, mgr.slots
      ensures Valid() && st.sub.Idle? && old(host.wire) <= host.wire
      ensures mgr.Value() == Deliver(old(mgr.Value()), reports)
      ensures |payload| > PENDING_CMD_TX_CAP ==> r == -22 && host.wire == old(host.wire)
      ensures old(Quiet()) ==> Submitted(WritesOf(old(host.wire)), WritesOf(host.wire), payload, r)
      ensures old(Quiet()) ==> st.timedOut || Quiet()
      ensures old(Quiet()) && r == 0 ==> Quiet()
      ensures old(host.polls) <= host.polls && old(host.troubles) <= host.troubles
      ensures old(Quiet()) && r != 0 && |payload| <= PENDING_CMD_TX_CAP ==>
                st.timedOut || Caused(old(host.troubles), host.troubles, r)
      ensures st.timedOut && !old(st.timedOut) ==> r == -110 && expired == old(expired) + 100
    {
      reports := [];
      NothingDelivered(mgr);
      if |payload| > PENDING_CMD_TX_CAP {
        assert Submitted(WritesOf(host.wire), WritesOf(host.wire), payload, EINVAL);
        return EINVAL, [];
      }
      hide Padded, PadLen, WriteOutcome, WritesOf, Deliver, RwnxCmdMgr.Valid, RwnxCmdMgr.Value;
      hide Coherent, InFlight, Submitted, Apply, Caused;
      ghost var w0, m0, t0, quiet := WritesOf(host.wire), mgr.Value(), host.troubles, Quiet();
      ghost var waits: nat := 0;
      PostPayload(payload);
      var elapsed := 0;
      var earlyWakes: nat := *;
      while true
        invariant Valid() && st.sub.Waiting? && old(host.wire) <= host.wire
        invariant mgr.Value() == Deliver(m0, reports)
        invariant quiet ==> InFlight(st, w0, payload)
        invariant old(host.polls) <= host.polls && t0 <= host.troubles
        invariant quiet && st.result.Some? ==> Caused(t0, host.troubles, st.result.value)
        invariant expired == old(expired) && elapsed == 50 * waits < 5000
        invariant st.timedOut == old(st.timedOut)
        decreases 5000 - elapsed, earlyWakes
      {
        ghost var more;
        var result;
        result, more := LookForResult(w0, payload, t0, quiet);
        DeliverAppend(m0, reports, more);
        reports := reports + more;
        if result.Some? { return result.value, reports; }
        if earlyWakes > 0 {
          earlyWakes := earlyWakes - 1;
        } else {
          waits := waits + 1;
          elapsed := elapsed + CHUNK_MS;
          if elapsed >= TX_DONE_TIMEOUT_MS {
            if quiet { InFlightGivenUp(st, w0, payload); }
            StopWaiting(waits);
            return ETIMEDOUT, reports;
          }
          earlyWakes := *;
        }
      }
    }

    /** One round of the wait: the other threads move, then the result cell is looked at. */
    method LookForResult(ghost w0: seq<Issued>, ghost payload: seq<byte>, ghost t0: seq<Trouble>, ghost quiet: bool)
      returns (result: Option<int>, ghost reports: seq<Report>)
      requires Valid() && st.sub.Waiting? && (quiet ==> InFlight(st, w0, payload))
      requires t0 <= host.troubles
      requires quiet && st.result.Some? ==> Caused(t0, host.troubles, st.result.value)
      modifies `pending, `txResult, `message, `dead, `st, host, mgr, mgr.slots
      ensures Valid() && old(host.wire) <= host.wire && mgr.Value() == Deliver(old(mgr.Value()), reports)
      ensures old(host.polls) <= host.polls && old(host.troubles) <= host.troubles
      ensures st.timedOut == old(st.timedOut)
      ensures result.None? ==> st.sub.Waiting? && st.result.None? && (quiet ==> InFlight(st, w0, payload))
      ensures result.Some? ==> st.sub.Idle?
      ensures result.Some? && quiet ==>
                Quiet() && Submitted(w0, WritesOf(host.wire), payload, result.value)
                && Caused(t0, host.troubles, result.value)
    {
      hide Padded, PadLen, WriteOutcome, WritesOf, Deliver, RwnxCmdMgr.Valid, RwnxCmdMgr.Value;
      hide InFlight, Submitted, Apply, Caused, WireInv;
      reports := OthersMove(w0, payload, t0, quiet);
      ghost var s := st;
      result := TakeResult();
      if result.Some? && quiet { InFlightEnds(s, w0, payload, result.value); }
    }

    /** The submitter's two stores: no result, then the payload. */
    method PostPayload(payload: seq<byte>)
      requires Valid() && st.sub.Idle? && |payload| <= PENDING_CMD_TX_CAP
      modifies `pending, `txResult, `message, `dead, `st
      ensures Valid() && st.sub.Waiting? && st.result.None? && st.timedOut == old(st.timedOut)
      ensures old(Quiet()) ==> InFlight(st, WritesOf(host.wire), payload)
    {
      hide Padded, PadLen, WriteOutcome, WritesOf;
      WireStep(st, Submit(payload));
      WireStep(Apply(st, Submit(payload)), Post);
      if Quiet() { InFlightStarts(st, payload); }
      hide WireInv, InFlight;
      txResult := None;
      st := Apply(st, Submit(payload));
      pending := Some(payload);
      st := Apply(st, Post);
    }

    /** The submitter looks for a result, and takes it if there is one. */
    method TakeResult() returns (result: Option<int>)
      requires Valid() && st.sub.Waiting?
      modifies `pending, `txResult, `message, `dead, `st
      ensures Valid() && result == old(st.result)
      ensures st == if result.Some? then Apply(old(st), Poll) else old(st)
      ensures result.Some? ==> st.sub.Idle? && st.wire == old(st.wire)
      ensures result.Some? ==> st.bus == old(st.bus) && st.pending == old(st.pending)
      ensures st.timedOut == old(st.timedOut)
      ensures pending == old(pending)
    {
      hide Padded, PadLen, WriteOutcome, WritesOf;
      result := txResult;
      if result.Some? {
        WireStep(st, Poll);
        hide WireInv;
        txResult := None;
        st := Apply(st, Poll);
      }
    }

    /** The submitter gives up. */
    method StopWaiting(ghost waits: nat)
      requires Valid() && st.sub.Waiting? && st.result.None?
      modifies `st, `expired
      ensures expired == old(expired) + waits
      ensures Valid() && st == Apply(old(st), GiveUp) && st.sub.Idle? && st.timedOut && st.wire == old(st.wire)
    {
      hide Padded, PadLen, WriteOutcome, WritesOf;
      WireStep(st, GiveUp);
      hide WireInv;
      st, expired := Apply(st, GiveUp), expired + waits;
    }

    /** Any number of steps of the bustx and the receive thread while a submitter waits. */
    method OthersMove(ghost w0: seq<Issued>, ghost payload: seq<byte>, ghost t0: seq<Trouble>, ghost quiet: bool)
      returns (ghost reports: seq<Report>)
      requires Valid() && st.sub.Waiting? && (quiet ==> InFlight(st, w0, payload))
      requires t0 <= host.troubles
      requires quiet && st.result.Some? ==> Caused(t0, host.troubles, st.result.value)
      modifies `pending, `txResult, `message, `dead, `st, host, mgr, mgr.slots
      ensures Valid() && st.sub.Waiting? && (quiet ==> InFlight(st, w0, payload))
      ensures old(host.polls) <= host.polls && old(host.troubles) <= host.troubles
      ensures quiet && st.result.Some? ==> Caused(t0, host.troubles, st.result.value)
      ensures st.timedOut == old(st.timedOut)
      ensures old(host.wire) <= host.wire && mgr.Value() == Deliver(old(mgr.Value()), reports)
    {
      reports := [];
      NothingDelivered(mgr);
      hide Caused, Coherent, WritesOf, Deliver, InFlight, BusMoves, RwnxCmdMgr.Valid, RwnxCmdMgr.Value;
      ghost var m0, t1 := mgr.Value(), host.troubles;
      var moves: nat := *;
      while moves > 0
        invariant Valid() && st.sub.Waiting? && (quiet ==> InFlight(st, w0, payload))
        invariant old(host.wire) <= host.wire && mgr.Value() == Deliver(m0, reports)
        invariant old(host.polls) <= host.polls && t1 <= host.troubles
        invariant quiet && st.result.Some? ==> Caused(t0, host.troubles, st.result.value)
        invariant st.timedOut == old(st.timedOut)
      {
        ghost var s, t := st, host.troubles;
        var bustx: bool := *;
        if bustx {
          BustxStep();
          SubmitterWaits(s, st);
          if st.result.Some? { StillCaused(t0, t, host.troubles, st.result.value); }
          if quiet { InFlightMoves(s, st, w0, payload); }
        } else {
          ghost var more := BusrxStep();
          DeliverAppend(m0, reports, more);
          reports := reports + more;
          if st.result.Some? { StillCaused(t0, t, host.troubles, st.result.value); }
        }
        moves := moves - 1;
      }
    }
  }

  /** A state of the machine with the wire and the cells that it stands for. */
  ghost predicate Coherent(s: State, wire: seq<Issued>, pending: Option<seq<byte>>, txResult: Option<int>,
                           message: Option<seq<byte>>, dead: bool) {
    s.wire == WritesOf(wire) && WireInv(s) && Cells(s, pending, txResult, message, dead)
  }

  ghost predicate Cells(s: State, pending: Option<seq<byte>>, txResult: Option<int>, message: Option<seq<byte>>,
                        dead: bool) {
    && s.pending == pending && s.result == txResult
    && (message.Some? <==> s.bus.Holding?) && (dead <==> s.bus.Dead?)
    && (message.Some? ==> message.value == Padded(s.bus.payload) && |message.value| <= PENDING_CMD_TX_CAP)
    && (pending.Some? ==> |pending.value| <= PENDING_CMD_TX_CAP)
  }

  /** How a submit that found everything quiet can end, on the wire's writes. */
  ghost predicate Submitted(w0: seq<Issued>, w: seq<Issued>, payload: seq<byte>, r: int) {
    && (r == 0 ==> w == w0 + AllCompleted(WR_FIFO, Plan(Padded(payload))))
    && AtMostOneSend(w0, w, WR_FIFO, Padded(payload))
  }

  /** The result `r` is that of trouble a send met since `t0`. */
  predicate Caused(t0: seq<Trouble>, t: seq<Trouble>, r: int) {
    t0 <= t && (r != 0 ==> exists j :: |t0| <= j < |t| && OfSend(t[j]) && ErrnoOf(t[j]) == r)
  }

  lemma StillCaused(t0: seq<Trouble>, t1: seq<Trouble>, t2: seq<Trouble>, r: int)
    requires t0 <= t1 <= t2
    ensures Caused(t0, t1, r) || Caused(t1, t2, r) ==> Caused(t0, t2, r)
  {
    hide OfSend, ErrnoOf;
    assert forall j :: 0 <= j < |t1| ==> t2[j] == t1[j];
  }

  lemma NothingDelivered(mgr: RwnxCmdMgr)
    requires mgr.Valid()
    ensures Deliver(mgr.Value(), []) == mgr.Value()
  {
  }

  /** One step of the bustx thread, or none if it has nothing to do. */
  ghost predicate BusMoves(s: State, s': State) {
    if Enabled(s, Wake) then s' == Apply(s, Wake)
    else if s.bus.Holding? then
      exists a: Action :: (a.Retry? || a.Finish?) && Enabled(s, a) && s' == Apply(s, a)
    else s' == s
  }

  lemma SubmitterWaits(s: State, s': State)
    requires BusMoves(s, s')
    ensures s'.sub == s.sub && s'.timedOut == s.timedOut
  {
    hide WriteOutcome, Padded, PadLen;
  }

  /** Where a submitted payload can be while its submitter waits, and what the wire holds then. */
  ghost predicate InFlight(s: State, w0: seq<Issued>, payload: seq<byte>) {
    && s.sub.Waiting? && !s.timedOut && |payload| <= PENDING_CMD_TX_CAP
    && (|| (s.pending == Some(payload) && s.bus.Asleep? && s.result.None? && s.wire == w0)
        || (s.pending.None? && s.bus == Holding(payload) && PadLen(|payload|) <= PENDING_CMD_TX_CAP
            && s.result.None? && s.wire == w0)
        || (s.pending.None? && s.bus.Dead? && s.result.None? && s.wire == w0)
        || (s.pending.None? && s.bus.Asleep? && s.result.Some? && AtMostOneSend(w0, s.wire, WR_FIFO, Padded(payload))
            && WriteOutcome(w0, s.wire, WR_FIFO, Padded(payload), s.result.value)))
  }

  lemma InFlightStarts(s: State, payload: seq<byte>)
    requires s.sub.Idle? && s.pending.None? && s.bus.Asleep? && !s.timedOut && |payload| <= PENDING_CMD_TX_CAP
    ensures InFlight(Apply(Apply(s, Submit(payload)), Post), s.wire, payload)
  {
    hide WriteOutcome, Padded, PadLen;
  }

  lemma InFlightMoves(s: State, s': State, w0: seq<Issued>, payload: seq<byte>)
    requires InFlight(s, w0, payload) && BusMoves(s, s')
    ensures InFlight(s', w0, payload)
  {
    hide WriteOutcome, Padded, PadLen;
    if s.bus.Holding? {
      var a: Action :| (a.Retry? || a.Finish?) && Enabled(s, a) && s' == Apply(s, a);
      AttemptIsSingle(w0, a.issued, payload, if a.Finish? then a.r else EAGAIN);
      SendAfter(w0, a.issued, Padded(payload));
    }
  }

  lemma SendAfter(w: seq<Issued>, issued: seq<Issued>, data: seq<byte>)
    requires AtMostOneSend([], issued, WR_FIFO, data)
    ensures AtMostOneSend(w, w + issued, WR_FIFO, data)
  {
    hide Plan, AttemptOf;
    if issued == [] {
      assert w + issued == w;
    }
  }

  lemma InFlightEnds(s: State, w0: seq<Issued>, payload: seq<byte>, r: int)
    requires InFlight(s, w0, payload) && s.result == Some(r)
    ensures Submitted(w0, s.wire, payload, r) && s.pending.None? && s.bus.Asleep? && !s.timedOut
  {
  }

  lemma InFlightGivenUp(s: State, w0: seq<Issued>, payload: seq<byte>)
    requires InFlight(s, w0, payload) && s.result.None?
    ensures Submitted(w0, s.wire, payload, ETIMEDOUT)
  {
    hide WriteOutcome, Padded, PadLen;
  }

  /** The cells after the pending payload was taken: padded in hand, or too long for the mailbox. */
  lemma Taken(s: State, wire: seq<Issued>, payload: seq<byte>, txResult: Option<int>,
              message: Option<seq<byte>>, dead: bool)
    requires Coherent(s, wire, Some(payload), txResult, message, dead) && Enabled(s, Wake)
    ensures |payload| <= PENDING_CMD_TX_CAP
    ensures PadLen(|payload|) <= PENDING_CMD_TX_CAP ==>
              Coherent(Apply(s, Wake), wire, None, txResult, Some(Padded(payload)), dead)
    ensures PadLen(|payload|) > PENDING_CMD_TX_CAP ==> Coherent(Apply(s, Wake), wire, None, txResult, message, true)
  {
    WireStep(s, Wake);
    hide WritesOf, WireInv, Padded, PadLen;
  }

  /** The machine's step that a send of the message in hand makes, and the cells that go with it. */
  lemma Attempted(s: State, w: seq<Issued>, w': seq<Issued>, r: int, k: nat,
                  pending: Option<seq<byte>>, txResult: Option<int>, message: Option<seq<byte>>,
                  dead: bool) returns (a: Action)
    requires s.bus.Holding? && Coherent(s, w, pending, txResult, message, dead)
    requires r == 0 ==> w' == w + AllCompleted(WR_FIFO, Plan(Padded(s.bus.payload)))
    requires r != 0 ==> Failed(w, w', WR_FIFO, Plan(Padded(s.bus.payload)), r, k)
    ensures (a.Retry? || a.Finish?) && Enabled(s, a) && w <= w'
    ensures a.Finish? ==> r != EAGAIN && a.r == r
    ensures r == EAGAIN ==> Coherent(Apply(s, a), w', pending, txResult, message, dead)
    ensures r != EAGAIN ==> Coherent(Apply(s, a), w', pending, Some(r), None, dead)
  {
    hide Plan, Failed, Padded, PadLen, WireInv, WritesOf, WriteOutcome, AllCompleted;
    var data := Padded(s.bus.payload);
    WireGrows(w, w', data, r, k);
    var issued := w'[|w|..];
    OutcomeShifts(w, s.wire, issued, data, r);
    a := if r == EAGAIN then Retry(issued) else Finish(r, issued);
    WireStep(s, a);
  }

  /** What a send adds to the wire is writes only. */
  lemma WireGrows(w: seq<Issued>, w': seq<Issued>, data: seq<byte>, r: int, k: nat)
    requires r == 0 ==> w' == w + AllCompleted(WR_FIFO, Plan(data))
    requires r != 0 ==> Failed(w, w', WR_FIFO, Plan(data), r, k)
    ensures w <= w' && w + w'[|w|..] == w' && WriteOutcome(w, w', WR_FIFO, data, r)
    ensures WritesOf(w') == WritesOf(w) + w'[|w|..]
  {
    PlanCarries(data);
    hide Plan, Completed, AttemptOf, Command.Legal, WritesOf, IsWrite;
    var x := w'[|w|..];
    assert w + x == w';
    forall j | 0 <= j < |x| ensures IsWrite(x[j]) {
      var p := Plan(data);
      CompletedIsAttempt(WR_FIFO, p[j]);
      assert AttemptOf(x[j], WR_FIFO, p[j]);
      AttemptIsWrite(x[j], WR_FIFO, p[j]);
    }
    OnlyWrites(x);
    WritesOfAppend(w, x);
  }

  /** What a send does to the wire does not depend on what was there. */
  lemma OutcomeShifts(v: seq<Issued>, w: seq<Issued>, x: seq<Issued>, data: seq<byte>, r: int)
    requires WriteOutcome(v, v + x, WR_FIFO, data, r)
    ensures WriteOutcome(w, w + x, WR_FIFO, data, r)
  {
    hide Plan, Completed, AttemptOf;
    var p := Plan(data);
    if r == 0 {
      assert (v + x)[|v|..] == x;
    } else {
      var k: nat :| Failed(v, v + x, WR_FIFO, p, r, k);
      FailureShifts(v, w, x, p, r, k);
    }
  }

  lemma FailureShifts(v: seq<Issued>, w: seq<Issued>, x: seq<Issued>, p: seq<Command>, r: int, k: nat)
    requires Failed(v, v + x, WR_FIFO, p, r, k)
    ensures Failed(w, w + x, WR_FIFO, p, r, k)
  {
    hide Completed, AttemptOf;
    var done := AllCompleted(WR_FIFO, p[..k]);
    if v + x == v + done {
      assert x == (v + x)[|v|..] == (v + done)[|v|..] == done;
    } else {
      assert v + done <= v + x;
      assert x[..|done|] == (v + x)[|v|..|v + done|] == done;
      assert (v + x)[|v + done|] == x[|done|] == (w + x)[|w + done|];
    }
  }
}
