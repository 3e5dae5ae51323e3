/**
 The one-place mailbox between the submitting thread and the bustx thread
 (driver/bsp/src/sdio/flow.rs), as a machine whose steps are the lock-protected accesses of the two
 threads in any interleaving.
 */
module Mailbox {
  import opened Wrappers
  import opened Bytes
  import opened TxPad
  import opened Transfer
  import opened SdioHost

  const TX_DONE_TIMEOUT_MS := 5000
  const CHUNK_MS := 50

  datatype Submitter = Idle | Cleared(payload: seq<byte>) | Waiting

  /** The bustx thread; `Dead` is its panic when the padded message exceeds the mailbox buffer. */
  datatype Bus = Asleep | Holding(payload: seq<byte>) | Dead

  /** A finished send: what, with which result, and what it put on the wire. */
  datatype Sent = Sent(payload: seq<byte>, result: int, issued: seq<Issued>)

  datatype State = State(
    sub: Submitter,
    pending: Option<seq<byte>>,
    bus: Bus,
    result: Option<int>,
    timedOut: bool,
    submitted: seq<seq<byte>>,
    sent: seq<Sent>,
    returned: seq<int>,
    wire: seq<Issued>)

  const INITIAL := State(Idle, None, Asleep, None, false, [], [], [], [])

  datatype Action =
    | Submit(payload: seq<byte>)
    | Post
    | Poll
    | GiveUp
    | Wake
    | Retry(issued: seq<Issued>)
    | Finish(r: int, issued: seq<Issued>)

  ghost predicate Enabled(s: State, a: Action) {
    match a
    case Submit(p) => s.sub.Idle? && |p| <= PENDING_CMD_TX_CAP
    case Post => s.sub.Cleared?
    case Poll => s.sub.Waiting? && s.result.Some?
    case GiveUp => s.sub.Waiting? && s.result.None?
    case Wake => s.bus.Asleep? && s.pending.Some?
    case Retry(issued) =>
      s.bus.Holding? && WriteOutcome(s.wire, s.wire + issued, WR_FIFO, Padded(s.bus.payload), EAGAIN)
    case Finish(r, issued) =>
      s.bus.Holding? && r != EAGAIN && WriteOutcome(s.wire, s.wire + issued, WR_FIFO, Padded(s.bus.payload), r)
  }

  ghost function Apply(s: State, a: Action): State
    requires Enabled(s, a)
  {
    match a
    case Submit(p) => s.(sub := Cleared(p), result := None, submitted := s.submitted + [p])
    case Post => s.(sub := Waiting, pending := Some(s.sub.payload))
    case Poll => s.(sub := Idle, result := None, returned := s.returned + [s.result.value])
    case GiveUp => s.(sub := Idle, timedOut := true, returned := s.returned + [ETIMEDOUT])
    case Wake =>
      var p := s.pending.value;
      s.(pending := None, bus := if PadLen(|p|) > PENDING_CMD_TX_CAP then Dead else Holding(p))
    case Retry(issued) => s.(wire := s.wire + issued)
    case Finish(r, issued) =>
      s.(bus := Asleep, result := Some(r), sent := s.sent + [Sent(s.bus.payload, r, issued)], wire := s.wire + issued)
  }

  /** A run is a list of actions each enabled where it happens. */
  ghost predicate IsRun(h: seq<Action>)
    decreases |h|, 0
  {
    h == [] || (IsRun(h[..|h| - 1]) && Enabled(After(h[..|h| - 1]), h[|h| - 1]))
  }

  ghost function After(h: seq<Action>): State
    requires IsRun(h)
    decreases |h|, 1
  {
    if h == [] then INITIAL else Apply(After(h[..|h| - 1]), h[|h| - 1])
  }

  // ---------- Exactly once ----------

  function IssuedBy(sent: seq<Sent>): seq<Issued> {
    if sent == [] then [] else IssuedBy(sent[..|sent| - 1]) + sent[|sent| - 1].issued
  }

  /**
   A send put at most one command on the wire, an attempt of the one that its padded payload plans;
   with result 0 exactly one, delivering that payload.
   */
  ghost predicate SentOnce(t: Sent) {
    && AtMostOneSend([], t.issued, WR_FIFO, Padded(t.payload))
    && (t.result == 0 && t.payload != [] ==>
          |t.issued| == 1 && t.issued[0].complete && CardBytes(t.issued[0]) == Padded(t.payload))
  }

  ghost predicate WireInv(s: State) {
    && s.wire == IssuedBy(s.sent)
    && (forall i :: 0 <= i < |s.sent| ==> SentOnce(s.sent[i]))
    && (s.pending.Some? ==> |s.pending.value| <= PENDING_CMD_TX_CAP)
    && (s.sub.Cleared? ==> |s.sub.payload| <= PENDING_CMD_TX_CAP)
    && (s.bus.Holding? ==> |s.bus.payload| <= PENDING_CMD_TX_CAP && PadLen(|s.bus.payload|) <= PENDING_CMD_TX_CAP)
    && |s.sent| + (if s.bus.Asleep? then 0 else 1)
       + (if s.pending.Some? then 1 else 0) + (if s.sub.Cleared? then 1 else 0) <= |s.submitted|
  }

  /** What one attempt to send a mailbox payload does to the wire. */
  lemma AttemptIsSingle(w: seq<Issued>, issued: seq<Issued>, p: seq<byte>, r: int)
    requires |p| <= PENDING_CMD_TX_CAP && PadLen(|p|) <= PENDING_CMD_TX_CAP
    requires WriteOutcome(w, w + issued, WR_FIFO, Padded(p), r)
    ensures r == EAGAIN ==> issued == []
    ensures SentOnce(Sent(p, r, issued))
  {
    var data := Padded(p);
    PadFitsMailbox(|p|);
    hide *;
    SingleCommand(data);
    if p == [] {
      assert Padded([]) == [] by { PaddedEmpty(); }
      EmptyWrite(w, w + issued, WR_FIFO, data, r);
      SentNothing(Sent(p, r, issued));
    } else {
      SingleCommandWrite(w, w + issued, WR_FIFO, data, r);
      AloneOnWire(w, issued, data);
      if r == 0 {
        var c := Plan(data)[0];
        PlanCarries(data);
        assert issued == (w + issued)[|w|..] == [Completed(WR_FIFO, c)];
        CompletedDelivers(WR_FIFO, c);
        SentOne(p, c);
      } else {
        SentAtMostOne(Sent(p, r, issued));
      }
    }
  }

  lemma PaddedEmpty()
    ensures Padded([]) == []
  {
    assert PadLen(0) == 0;
    hide PadLen;
  }

  /** What is at most one send after `w` is so by itself. */
  lemma AloneOnWire(w: seq<Issued>, issued: seq<Issued>, data: seq<byte>)
    requires |Plan(data)| == 1 && AtMostOnce(w, w + issued, WR_FIFO, Plan(data)[0])
    ensures AtMostOneSend([], issued, WR_FIFO, data)
  {
    hide Plan, AttemptOf;
    if w + issued == w {
      assert issued == (w + issued)[|w|..] == [];
    } else {
      assert (w + issued)[|w|] == issued[0];
    }
  }

  lemma SentNothing(t: Sent)
    requires t.payload == [] && t.issued == []
    ensures SentOnce(t)
  {
    hide Padded, Plan;
  }

  lemma SentAtMostOne(t: Sent)
    requires t.result != 0 && AtMostOneSend([], t.issued, WR_FIFO, Padded(t.payload))
    ensures SentOnce(t)
  {
    hide AtMostOneSend, Padded;
  }

  lemma SentOne(p: seq<byte>, c: Command)
    requires var i := Completed(WR_FIFO, c); i.complete && CardBytes(i) == Padded(p)
    requires AtMostOneSend([], [Completed(WR_FIFO, c)], WR_FIFO, Padded(p))
    ensures SentOnce(Sent(p, 0, [Completed(WR_FIFO, c)]))
  {
    hide Completed, CardBytes, Padded, AtMostOneSend;
  }

  lemma EmptyWrite(w: seq<Issued>, w': seq<Issued>, addr: nat, data: seq<byte>, r: int)
    requires Plan(data) == [] && WriteOutcome(w, w', addr, data, r)
    ensures w' == w && r != EAGAIN
  {
  }

  lemma WireStep(s: State, a: Action)
    requires WireInv(s) && Enabled(s, a)
    ensures WireInv(Apply(s, a))
  {
    hide WriteOutcome, SentOnce, Padded, PadLen;
    match a
    case Retry(issued) => AttemptIsSingle(s.wire, issued, s.bus.payload, EAGAIN);
    case Finish(r, issued) =>
      AttemptIsSingle(s.wire, issued, s.bus.payload, r);
      var t := Sent(s.bus.payload, r, issued);
      assert (s.sent + [t])[..|s.sent|] == s.sent;
    case _ =>
  }

  /**
   Over every run, timeouts included: the wire is the concatenation of what the sends issued, every
   send issued at most one command, and a send that ended with 0 delivered its payload exactly once.
   */
  lemma {:induction false} EverySendIsOnce(h: seq<Action>)
    requires IsRun(h)
    ensures WireInv(After(h))
  {
    if h == [] {
    } else {
      EverySendIsOnce(h[..|h| - 1]);
      WireStep(After(h[..|h| - 1]), h[|h| - 1]);
    }
  }

  /** How many payloads the bustx thread never got to see: they were still pending when the next one was posted. */
  ghost function Replaced(h: seq<Action>): nat
    requires IsRun(h)
  {
    if h == [] then 0
    else
      var front, a := h[..|h| - 1], h[|h| - 1];
      Replaced(front) + if a.Post? && After(front).pending.Some? then 1 else 0
  }

  /** Payloads that are on their way. */
  function OnTheWay(s: State): nat {
    (if s.sub.Cleared? then 1 else 0) + (if s.pending.Some? then 1 else 0) + (if s.bus.Asleep? then 0 else 1)
  }

  /** A timeout withdraws nothing: every payload submitted was sent, is on its way, or was replaced by a later one. */
  lemma {:induction false} NothingIsWithdrawn(h: seq<Action>)
    requires IsRun(h)
    ensures |After(h).submitted| == |After(h).sent| + OnTheWay(After(h)) + Replaced(h)
  {
    if h != [] {
      NothingIsWithdrawn(h[..|h| - 1]);
      StepKeepsPayloads(After(h[..|h| - 1]), h[|h| - 1]);
      hide Apply, Enabled, OnTheWay;
    }
  }

  lemma StepKeepsPayloads(s: State, a: Action)
    requires Enabled(s, a)
    ensures var s' := Apply(s, a);
            var replaced := if a.Post? && s.pending.Some? then 1 else 0;
            |s'.submitted| - |s'.sent| - OnTheWay(s') == |s.submitted| - |s.sent| - OnTheWay(s) + replaced
  {
    hide WriteOutcome, Padded, PadLen;
  }

  // ---------- Results ----------

  /** How many places hold the command of the submit in progress. */
  function Homes(s: State): nat {
    (if s.sub.Cleared? then 1 else 0) + (if s.pending.Some? then 1 else 0)
    + (if s.bus.Asleep? then 0 else 1) + (if s.result.Some? then 1 else 0)
  }

  /** Up to the first timeout: one home per submit in progress, and results in step with payloads. */
  ghost predicate ResultInv(s: State) {
    s.timedOut ||
    (&& Homes(s) == (if s.sub.Idle? then 0 else 1)
     && |s.returned| == |s.submitted| - (if s.sub.Idle? then 0 else 1)
     && |s.sent| == |s.returned| + (if s.result.Some? then 1 else 0)
     && (s.result.Some? ==> s.result.value == s.sent[|s.sent| - 1].result)
     && (s.sub.Cleared? ==> s.sub.payload == s.submitted[|s.submitted| - 1])
     && (s.pending.Some? ==> s.pending.value == s.submitted[|s.submitted| - 1])
     && (s.bus.Holding? ==> s.bus.payload == s.submitted[|s.submitted| - 1])
     && (forall k :: 0 <= k < |s.sent| ==> s.sent[k].payload == s.submitted[k])
     && (forall k :: 0 <= k < |s.returned| ==> s.returned[k] == s.sent[k].result))
  }

  lemma ResultStep(s: State, a: Action)
    requires ResultInv(s) && Enabled(s, a)
    ensures ResultInv(Apply(s, a))
  {
    hide WriteOutcome, Padded, PadLen;
  }

  /** Until a submit times out, the k-th submit returns the result of sending the k-th payload. */
  lemma {:induction false} ResultsMatch(h: seq<Action>)
    requires IsRun(h)
    ensures ResultInv(After(h))
  {
    if h != [] {
      ResultsMatch(h[..|h| - 1]);
      hide ResultInv, Apply, Enabled;
      ResultStep(After(h[..|h| - 1]), h[|h| - 1]);
    }
  }

  /** Every submit that returned did so with the result of its own payload. */
  ghost predicate InStep(s: State) {
    && |s.returned| <= |s.sent| <= |s.submitted|
    && forall k :: 0 <= k < |s.returned| ==> s.returned[k] == s.sent[k].result && s.sent[k].payload == s.submitted[k]
  }

  ghost predicate AlwaysInStep(h: seq<Action>)
    requires IsRun(h)
  {
    InStep(After(h)) && (h == [] || AlwaysInStep(h[..|h| - 1]))
  }

  lemma InStepUnlessGivenUp(s: State, a: Action)
    requires ResultInv(s) && !s.timedOut && Enabled(s, a)
    ensures InStep(Apply(s, a)) <==> !a.GiveUp?
    ensures Apply(s, a).timedOut <==> a.GiveUp?
  {
    hide WriteOutcome, Padded, PadLen;
  }

  lemma TimeoutStays(s: State, a: Action)
    requires s.timedOut && Enabled(s, a)
    ensures Apply(s, a).timedOut
  {
    hide WriteOutcome, Padded, PadLen;
  }

  /** Results and payloads stay in step throughout a run if and only if no submit of it timed out. */
  lemma {:induction false} InStepIffNoTimeout(h: seq<Action>)
    requires IsRun(h)
    ensures AlwaysInStep(h) <==> !After(h).timedOut
  {
    if h != [] {
      var h0, a := h[..|h| - 1], h[|h| - 1];
      InStepIffNoTimeout(h0);
      ResultsMatch(h0);
      hide ResultInv, InStep, Apply, Enabled;
      if After(h0).timedOut {
        TimeoutStays(After(h0), a);
      } else {
        InStepUnlessGivenUp(After(h0), a);
      }
    }
  }

  /** Action `j` ends a send with `r`, and no submit began since. */
  predicate EndedSinceSubmit(h: seq<Action>, j: nat, r: int) {
    j < |h| && h[j].Finish? && h[j].r == r && forall k :: j <= k < |h| ==> !h[k].Submit?
  }

  lemma StillSinceSubmit(h: seq<Action>, a: Action, j: nat, r: int)
    requires EndedSinceSubmit(h, j, r) && !a.Submit?
    ensures EndedSinceSubmit(h + [a], j, r)
  {
  }

  /** A result in its cell is that of a send which ended after the last submit began: a submit forgets older ones. */
  lemma {:induction false} ResultIsSinceSubmit(h: seq<Action>) returns (j: nat)
    requires IsRun(h) && After(h).result.Some?
    ensures EndedSinceSubmit(h, j, After(h).result.value)
  {
    assert h != [];
    var h0, a := h[..|h| - 1], h[|h| - 1];
    assert h == h0 + [a];
    var s := After(h0);
    var r := After(h).result.value;
    assert Apply(s, a).result == Some(r);
    hide IsRun, After, Enabled, EndedSinceSubmit;
    if a.Finish? {
      j := |h| - 1;
      FinishIsResult(s, a, h, r);
    } else {
      KeepsResult(s, a);
      hide Apply;
      j := ResultIsSinceSubmit(h0);
      StillSinceSubmit(h0, a, j, r);
    }
  }

  lemma FinishIsResult(s: State, a: Action, h: seq<Action>, r: int)
    requires a.Finish? && Enabled(s, a) && Apply(s, a).result == Some(r) && h != [] && h[|h| - 1] == a
    ensures EndedSinceSubmit(h, |h| - 1, r)
  {
    hide WriteOutcome, Padded, PadLen;
  }

  lemma KeepsResult(s: State, a: Action)
    requires Enabled(s, a) && !a.Finish? && Apply(s, a).result.Some?
    ensures s.result == Apply(s, a).result && !a.Submit?
  {
    hide WriteOutcome, Padded, PadLen;
  }

  /** A submit that timed out while the bustx thread held its message, and the next one posted. */
  lemma LateResultPending(p1: seq<byte>, p2: seq<byte>) returns (h: seq<Action>)
    requires 1 <= |p1| <= 1528 && |p2| <= PENDING_CMD_TX_CAP
    ensures IsRun(h)
    ensures After(h) == State(Waiting, Some(p2), Holding(p1), None, true, [p1, p2], [], [ETIMEDOUT], [])
  {
    PadFitsMailbox(|p1|);
    hide IsRun, After, PadLen;
    RunStarts();
    var s;
    h, s := Extend([], Submit(p1));
    h, s := Extend(h, Post);
    h, s := Extend(h, Wake);
    h, s := Extend(h, GiveUp);
    h, s := Extend(h, Submit(p2));
    h, s := Extend(h, Post);
  }

  lemma RunStarts()
    ensures IsRun([]) && After([]) == INITIAL
  {
  }

  /** After a timeout that is no longer so: a late result answers the next submit. */
  lemma StaleResultAfterTimeout(p1: seq<byte>, p2: seq<byte>)
    requires 1 <= |p1| <= 1528 && |p2| <= PENDING_CMD_TX_CAP
    ensures exists h :: IsRun(h) && After(h).submitted == [p1, p2] && After(h).sent == [Sent(p1, -5, [])]
                     && After(h).returned == [ETIMEDOUT, -5] && After(h).pending == Some(p2)
  {
    var h := LateResultPending(p1, p2);
    FailedBeforeCommand([], Padded(p1));
    hide WriteOutcome, Padded, IsRun, After;
    var h', s := Extend(h, Finish(-5, []));
    h', s := Extend(h', Poll);
    assert s.sent == [Sent(p1, -5, [])] && s.returned == [ETIMEDOUT, -5];
  }

  lemma FailedBeforeCommand(w: seq<Issued>, data: seq<byte>)
    ensures WriteOutcome(w, w + [], WR_FIFO, data, -5)
  {
    assert w + [] == w + AllCompleted(WR_FIFO, Plan(data)[..0]);
    assert Failed(w, w + [], WR_FIFO, Plan(data), -5, 0);
  }

  lemma Extend(h: seq<Action>, a: Action) returns (h': seq<Action>, s: State)
    requires IsRun(h) && Enabled(After(h), a)
    ensures h' == h + [a] && IsRun(h') && After(h') == s == Apply(After(h), a)
  {
    h' := h + [a];
    assert h'[..|h|] == h;
    s := After(h');
  }

  /** The bustx thread panics on exactly the payloads whose padding outgrows the mailbox buffer. */
  lemma WakeIsFatal(s: State)
    requires Enabled(s, Wake) && |s.pending.value| <= PENDING_CMD_TX_CAP
    ensures Apply(s, Wake).bus.Dead? <==> 1529 <= |s.pending.value| <= 1532
  {
    PadFitsMailbox(|s.pending.value|);
  }
}
