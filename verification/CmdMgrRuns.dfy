/** What holds over every run of the command manager (driver/bsp/src/cmd.rs). */
module CmdMgrRuns {
  import opened Wrappers
  import opened Bytes
  import opened CmdMgr

  datatype Event =
    | DoPush(reqid: u16)
    | DoCfm(id: u16, param: seq<byte>)
    | DoTake(token: nat, outLen: nat)
    | DoTimeout(token: nat)

  function Step(m: Mgr, e: Event): (m': Mgr)
    requires m.Valid()
  {
    match e
    case DoPush(reqid) => Push(m, reqid).0
    case DoCfm(id, param) => OnCfm(m, id, param)
    case DoTake(token, outLen) => TakeCfm(m, token, outLen).0
    case DoTimeout(token) => CompleteTimeout(m, token)
  }

  lemma StepKeepsValid(m: Mgr, e: Event)
    requires m.Valid()
    ensures Step(m, e).Valid()
  {
    match e
    case DoPush(reqid) => FreshIsValid(reqid);
    case DoCfm(id, param) =>
      OnCfmKeepsValid(m, id, param);
    case _ =>
  }

  /** The manager after the events of `h`, starting from a new one. */
  function Exec(h: seq<Event>): (m: Mgr)
    ensures m.Valid()
  {
    if h == [] then New()
    else
      var m := Exec(h[..|h| - 1]);
      StepKeepsValid(m, h[|h| - 1]);
      Step(m, h[|h| - 1])
  }

  lemma ExecSnoc(h: seq<Event>, e: Event)
    ensures Exec(h + [e]) == Step(Exec(h), e)
  {
    assert (h + [e])[..|h|] == h;
  }

  // ---------- Accounting ----------

  predicate Counts(s: Slot, waitingOnly: bool) {
    s.Some? && (waitingOnly ==> s.value.Waiting())
  }

  /** Occupied slots, or only those still waiting for their confirmation. */
  function Count(slots: seq<Slot>, waitingOnly: bool): (n: nat)
    ensures n <= |slots|
  {
    if slots == [] then 0 else Count(slots[1..], waitingOnly) + if Counts(slots[0], waitingOnly) then 1 else 0
  }

  function Occupied(m: Mgr): nat { Count(m.slots, false) }

  function Waiting(m: Mgr): nat { Count(m.slots, true) }

  lemma {:induction false} CountUpdate(slots: seq<Slot>, t: nat, s: Slot, w: bool)
    requires t < |slots|
    ensures Count(slots[t := s], w)
         == Count(slots, w) - (if Counts(slots[t], w) then 1 else 0) + (if Counts(s, w) then 1 else 0)
  {
    if t == 0 {
      assert slots[0 := s][1..] == slots[1..];
    } else {
      CountUpdate(slots[1..], t - 1, s, w);
      assert slots[t := s][1..] == slots[1..][t - 1 := s];
    }
  }

  lemma {:induction false} CountFull(slots: seq<Slot>)
    ensures Count(slots, false) == |slots| <==> forall t :: 0 <= t < |slots| ==> slots[t].Some?
    ensures Count(slots, true) <= Count(slots, false)
  {
    if slots != [] {
      CountFull(slots[1..]);
      assert forall t :: 0 <= t < |slots| ==> slots[t] == if t == 0 then slots[0] else slots[1..][t - 1];
      if forall t :: 0 <= t < |slots[1..]| ==> slots[1..][t].Some? {
      } else {
        var t :| 0 <= t < |slots[1..]| && slots[1..][t].None?;
        assert slots[t + 1].None?;
      }
    }
  }

  /** The queue counter says how many commands wait. */
  predicate Balanced(m: Mgr) { m.queueSz == Waiting(m) }

  /** The slot a token names, if it names one. */
  function At(m: Mgr, token: nat): Slot {
    if token < |m.slots| then m.slots[token] else None
  }

  /** Taking a command before it is done, or timing out one that is done while others wait. */
  predicate BreaksCount(m: Mgr, e: Event) {
    match e
    case DoTake(token, _) => At(m, token).Some? && !At(m, token).value.done
    case DoTimeout(token) => At(m, token).Some? && At(m, token).value.done && m.queueSz > 0
    case _ => false
  }

  /** Exactly which steps upset the queue counter. */
  lemma StepBalance(m: Mgr, e: Event)
    requires m.Valid() && Balanced(m)
    ensures Balanced(Step(m, e)) <==> !BreaksCount(m, e)
  {
    match e
    case DoPush(reqid) =>
      FreshIsValid(reqid);
      var t := FirstFree(m.slots, 0);
      if t < |m.slots| { CountUpdate(m.slots, t, Some(Fresh(reqid)), true); }
    case DoCfm(id, param) =>
      var t := Pick(m.slots, id, 0);
      if t < |m.slots| {
        OnCfmPicked(m, id, param, t);
        CountUpdate(m.slots, t, OnCfm(m, id, param).slots[t], true);
      }
    case DoTake(token, _) =>
      if token < |m.slots| { CountUpdate(m.slots, token, None, true); }
    case DoTimeout(token) =>
      if token < |m.slots| { CountUpdate(m.slots, token, None, true); }
  }

  /** The saturating decrements never saturate on a waiting command of a balanced manager. */
  lemma NoSaturation(m: Mgr, token: nat)
    requires m.Valid() && Balanced(m) && token < |m.slots| && m.slots[token].Some? && m.slots[token].value.Waiting()
    ensures m.queueSz > 0 && SaturatingDec(m.queueSz) == m.queueSz - 1
  {
    CountUpdate(m.slots, token, None, true);
  }

  /** No event of the run takes an unfinished command or times out a finished one. */
  predicate Disciplined(h: seq<Event>) {
    h == [] ||
    (Disciplined(h[..|h| - 1]) &&
     match h[|h| - 1]
     case DoTake(token, _) => At(Exec(h[..|h| - 1]), token).Some? ==> At(Exec(h[..|h| - 1]), token).value.done
     case DoTimeout(token) => At(Exec(h[..|h| - 1]), token).Some? ==> !At(Exec(h[..|h| - 1]), token).value.done
     case _ => true)
  }

  /** Slots filled minus slots freed along the run, one event at a time. */
  function Filled(h: seq<Event>): int {
    if h == [] then 0
    else
      var m := Exec(h[..|h| - 1]);
      Filled(h[..|h| - 1]) +
      match h[|h| - 1]
      case DoPush(reqid) => if Push(m, reqid).1.Some? then 1 else 0
      case DoCfm(_, _) => 0
      case DoTake(token, _) => if At(m, token).Some? then -1 else 0
      case DoTimeout(token) => if At(m, token).Some? then -1 else 0
  }

  /** On every run, the occupied slots are the pushes minus the takes and timeouts, at most eight. */
  lemma {:induction false} OccupiedIsFilled(h: seq<Event>)
    ensures Occupied(Exec(h)) == Filled(h) <= MAX_PENDING
  {
    if h == [] {
      assert New().slots == [None, None, None, None] + [None, None, None, None];
      EmptyTable();
    } else {
      OccupiedIsFilled(h[..|h| - 1]);
      StepOccupied(Exec(h[..|h| - 1]), h[|h| - 1]);
    }
  }

  lemma EmptyTable()
    ensures Occupied(New()) == 0 == Waiting(New())
  {
    var s: seq<Slot> := [None, None, None, None];
    assert Count(s, false) == 0 && Count(s, true) == 0;
    assert New().slots[4..] == s;
    assert forall w :: Count(New().slots, w) == Count(New().slots[1..], w) == Count(New().slots[1..][1..], w)
                    == Count(New().slots[1..][1..][1..], w) == Count(New().slots[1..][1..][1..][1..], w);
    assert New().slots[1..][1..][1..][1..] == s;
  }

  lemma StepOccupied(m: Mgr, e: Event)
    requires m.Valid()
    ensures Occupied(Step(m, e)) - Occupied(m)
         == match e
            case DoPush(reqid) => if Push(m, reqid).1.Some? then 1 else 0
            case DoCfm(_, _) => 0
            case DoTake(token, _) => if At(m, token).Some? then -1 else 0
            case DoTimeout(token) => if At(m, token).Some? then -1 else 0
  {
    match e
    case DoPush(reqid) =>
      var t := FirstFree(m.slots, 0);
      if t < |m.slots| { CountUpdate(m.slots, t, Some(Fresh(reqid)), false); }
    case DoCfm(id, param) =>
      var t := Pick(m.slots, id, 0);
      if t < |m.slots| {
        OnCfmPicked(m, id, param, t);
        CountUpdate(m.slots, t, OnCfm(m, id, param).slots[t], false);
      }
    case DoTake(token, _) =>
      if token < |m.slots| { CountUpdate(m.slots, token, None, false); }
    case DoTimeout(token) =>
      if token < |m.slots| { CountUpdate(m.slots, token, None, false); }
  }

  /** On every disciplined run the queue counter is the number of waiting commands. */
  lemma {:induction false} DisciplinedRunsBalance(h: seq<Event>)
    requires Disciplined(h)
    ensures Balanced(Exec(h))
  {
    if h == [] {
      EmptyTable();
    } else {
      DisciplinedRunsBalance(h[..|h| - 1]);
      StepBalance(Exec(h[..|h| - 1]), h[|h| - 1]);
    }
  }

  /** A balanced manager that has not crashed refuses a push exactly when its table is full. */
  lemma PushSucceeds(m: Mgr, reqid: u16)
    requires m.Valid() && Balanced(m)
    ensures Push(m, reqid).1.Some? <==> m.state != Crashed && Occupied(m) < MAX_PENDING
  {
    CountFull(m.slots);
  }

  /** Discipline is needed: one early take and the counter stays one too high with no command left. */
  lemma EarlyTakeLeaks(reqid: u16)
    ensures var m := Exec([DoPush(reqid), DoTake(0, 16)]);
            m.slots == New().slots && m.queueSz == 1
  {
    var h := [DoPush(reqid), DoTake(0, 16)];
    assert h[..1] == [DoPush(reqid)] && h[..1][..0] == [];
    assert Exec(h[..1]) == Push(New(), reqid).0;
  }

  /** A write that is confirmed but never taken: push, then its confirmation. */
  function UntakenWrites(id: u16, n: nat): seq<Event> {
    if n == 0 then [] else UntakenWrites(id, n - 1) + [DoPush(id), DoCfm(id, [])]
  }

  /** `n` slots are taken for good, none waits, and another push succeeds only below eight. */
  predicate AfterUntaken(m: Mgr, id: u16, n: nat) {
    && Occupied(m) == Min(n, MAX_PENDING) && m.queueSz == 0 == Waiting(m) && m.state == Inited
    && (Push(m, id).1.Some? <==> n < MAX_PENDING)
  }

  lemma NoWritesYet(id: u16)
    ensures AfterUntaken(New(), id, 0)
  {
    EmptyTable();
    var m := New();
    assert m.Valid() && m.queueSz == 0 && m.state == Inited;
    hide New, Occupied, Waiting, Push, Mgr.Valid;
    PushSucceeds(m, id);
  }

  lemma OneMoreWrite(id: u16, n: nat)
    requires n > 0
    ensures UntakenWrites(id, n) == (UntakenWrites(id, n - 1) + [DoPush(id)]) + [DoCfm(id, [])]
  {
  }

  /** Never taken, at most eight writes are admitted: each fills a slot for good, and the ninth finds none. */
  lemma {:induction false} UntakenWritesFillTable(id: u16, n: nat)
    ensures AfterUntaken(Exec(UntakenWrites(id, n)), id, n)
  {
    hide AfterUntaken, Step, Push, OnCfm, New;
    if n == 0 {
      NoWritesYet(id);
    } else {
      hide *;
      var h := UntakenWrites(id, n - 1);
      UntakenWritesFillTable(id, n - 1);
      OneMoreWrite(id, n);
      ExecSnoc(h, DoPush(id));
      ExecSnoc(h + [DoPush(id)], DoCfm(id, []));
      WriteConfirmed(Exec(h), id, n - 1);
    }
  }

  lemma WriteConfirmed(m: Mgr, id: u16, n: nat)
    requires m.Valid() && AfterUntaken(m, id, n)
    ensures Step(m, DoPush(id)).Valid()
    ensures AfterUntaken(Step(Step(m, DoPush(id)), DoCfm(id, [])), id, n + 1)
  {
    var m1 := Step(m, DoPush(id));
    StepKeepsValid(m, DoPush(id));
    StepBalance(m, DoPush(id));
    StepOccupied(m, DoPush(id));
    var m2 := Step(m1, DoCfm(id, []));
    StepKeepsValid(m1, DoCfm(id, []));
    StepBalance(m1, DoCfm(id, []));
    StepOccupied(m1, DoCfm(id, []));
    var t := Pick(m1.slots, id, 0);
    if n < MAX_PENDING {
      FreshIsValid(id);
      assert Awaits(m1.slots[FirstFree(m.slots, 0)], id);
      OnCfmPicked(m1, id, [], t);
    } else if t < |m1.slots| {
      NoSaturation(m, t);
    }
    PushSucceeds(m2, id);
  }

  // ---------- The other cells ----------

  /** A command in a slot asks for a confirmation, waits for nothing else, and has the result of where it stands. */
  predicate InOrder(c: PendingCmd) {
    c.flags == Flags(false, true, false, false, !c.done, c.done) && c.result == if c.done then 0 else -4
  }

  predicate AllInOrder(m: Mgr) { forall t :: 0 <= t < |m.slots| && m.slots[t].Some? ==> InOrder(m.slots[t].value) }

  /** How many pushes of a run were granted. */
  function Granted(h: seq<Event>): nat {
    if h == [] then 0
    else
      var e := h[|h| - 1];
      Granted(h[..|h| - 1]) + if e.DoPush? && Push(Exec(h[..|h| - 1]), e.reqid).1.Some? then 1 else 0
  }

  /** Some valid token was timed out. */
  predicate TimedOut(h: seq<Event>) { exists k :: 0 <= k < |h| && h[k].DoTimeout? && h[k].token < MAX_PENDING }

  /**
   On every run: commands stay in order, the running token number counts the granted pushes modulo
   2^32, and the manager has crashed exactly if some command was timed out.
   */
  lemma {:induction false} CellsOverRuns(h: seq<Event>)
    ensures AllInOrder(Exec(h)) && Exec(h).nextTkn == Granted(h) % TWO_TO_THE_32
    ensures Exec(h).state == if TimedOut(h) then Crashed else Inited
  {
    if h != [] {
      var h0, e := h[..|h| - 1], h[|h| - 1];
      CellsOverRuns(h0);
      assert h == h0 + [e];
      ExecSnoc(h0, e);
      TimedOutSnoc(h0, e);
      var m := Exec(h0);
      hide Exec, TimedOut, AllInOrder;
      OrderStep(m, e);
      CounterStep(m, e, Granted(h0));
    }
  }

  lemma TimedOutSnoc(h: seq<Event>, e: Event)
    ensures TimedOut(h + [e]) <==> TimedOut(h) || (e.DoTimeout? && e.token < MAX_PENDING)
  {
    var h' := h + [e];
    assert forall k :: 0 <= k < |h| ==> h'[k] == h[k];
    assert h'[|h|] == e;
    if TimedOut(h) {
      var k :| 0 <= k < |h| && h[k].DoTimeout? && h[k].token < MAX_PENDING;
      assert h'[k] == h[k];
    }
  }

  lemma OrderStep(m: Mgr, e: Event)
    requires m.Valid() && AllInOrder(m)
    ensures AllInOrder(Step(m, e))
  {
    match e
    case DoPush(reqid) => FreshInOrder(reqid);
    case DoCfm(id, param) =>
      if Pick(m.slots, id, 0) < |m.slots| { OnCfmPicked(m, id, param, Pick(m.slots, id, 0)); }
    case _ =>
  }

  lemma FreshInOrder(reqid: u16)
    ensures InOrder(Fresh(reqid))
  {
  }

  lemma CounterStep(m: Mgr, e: Event, n: nat)
    requires m.Valid() && m.nextTkn == n % TWO_TO_THE_32
    ensures Step(m, e).nextTkn == (n + if e.DoPush? && Push(m, e.reqid).1.Some? then 1 else 0) % TWO_TO_THE_32
    ensures Step(m, e).state == if e.DoTimeout? && e.token < MAX_PENDING then Crashed else m.state
  {
    hide Confirmed, Fresh;
  }

  // ---------- Provenance ----------

  /** Event `k` gives token `t` back. */
  predicate Ends(h: seq<Event>, k: nat, t: nat)
    requires k < |h|
  {
    h[k] == DoTimeout(t) || (h[k].DoTake? && h[k].token == t)
  }

  /** Event `i` pushed the command that holds token `t` at the end of the run. */
  ghost predicate PushedUnder(h: seq<Event>, i: nat, t: nat) {
    && i < |h| && h[i].DoPush? && Push(Exec(h[..i]), h[i].reqid).1 == Some(t)
    && forall k :: i < k < |h| ==> !Ends(h, k, t)
  }

  /** Event `j` is the confirmation that was credited to token `t` and is still held. */
  ghost predicate CreditedTo(h: seq<Event>, j: nat, t: nat) {
    && j < |h| && h[j].DoCfm? && t < MAX_PENDING && Pick(Exec(h[..j]).slots, h[j].id, 0) == t
    && forall k :: j < k < |h| ==> !Ends(h, k, t)
  }

  /** What a slot holds, traced to the events of the run. */
  ghost predicate Traced(h: seq<Event>, t: nat, i: nat, j: nat, c: PendingCmd) {
    && PushedUnder(h, i, t) && h[i].reqid == c.reqid
    && (c.done ==>
          && i < j && CreditedTo(h, j, t) && h[j].id == c.reqid
          && c.cfmLen == Min(|h[j].param|, E2AMSG_LEN_MAX) && c.cfmLen <= |c.cfmData|
          && c.cfmData[..c.cfmLen] == h[j].param[..c.cfmLen])
  }

  /** Events that leave slot `t` alone keep its trace. */
  lemma TracedExtends(h: seq<Event>, e: Event, t: nat, i: nat, j: nat, c: PendingCmd)
    requires Traced(h, t, i, j, c) && !Ends(h + [e], |h|, t)
    ensures Traced(h + [e], t, i, j, c)
  {
    hide Exec, Push, Pick;
    var h' := h + [e];
    assert forall k :: 0 <= k <= |h| ==> h'[..k] == h[..k];
    assert forall k :: 0 <= k < |h| ==> h'[k] == h[k] && Ends(h', k, t) == Ends(h, k, t);
  }

  lemma PushIsTraced(h: seq<Event>, e: Event, t: nat, c: PendingCmd)
    requires e.DoPush? && Push(Exec(h), e.reqid).1 == Some(t) && c.reqid == e.reqid && !c.done
    ensures Traced(h + [e], t, |h|, 0, c)
  {
    hide Exec, Push;
    var h' := h + [e];
    assert h'[..|h|] == h && h'[|h|] == e;
  }

  /** A confirmation credited to a traced slot is the trace of what the slot then holds. */
  lemma CfmIsTraced(h: seq<Event>, e: Event, t: nat, i: nat, j: nat, c: PendingCmd, c': PendingCmd)
    requires Traced(h, t, i, j, c) && e.DoCfm? && t < MAX_PENDING && Pick(Exec(h).slots, e.id, 0) == t
    requires c'.reqid == c.reqid == e.id
    requires var n := Min(|e.param|, E2AMSG_LEN_MAX); c'.cfmLen == n <= |c'.cfmData| && c'.cfmData[..n] == e.param[..n]
    ensures Traced(h + [e], t, i, |h|, c')
  {
    TracedExtends(h, e, t, i, j, c);
    hide Exec, Push, Pick;
    assert (h + [e])[..|h|] == h;
  }

  /** Every occupied slot comes from one push, and every confirmation in it from one later event. */
  lemma {:induction false} SlotTraced(h: seq<Event>, t: nat) returns (i: nat, j: nat)
    requires t < MAX_PENDING && Exec(h).slots[t].Some?
    ensures Traced(h, t, i, j, Exec(h).slots[t].value)
  {
    assert h != [];
    var e, h0 := h[|h| - 1], h[..|h| - 1];
    assert h == h0 + [e];
    var m, m' := Exec(h0), Exec(h);
    hide Exec, Traced, Push, OnCfm, Pick, Step, Fresh;
    ExecSnoc(h0, e);
    SlotChanges(m, e, t);
    if m'.slots[t] == m.slots[t] {
      i, j := SlotTraced(h0, t);
      TracedExtends(h0, e, t, i, j, m.slots[t].value);
    } else if e.DoPush? {
      i, j := |h0|, 0;
      FreshFields(e.reqid);
      PushIsTraced(h0, e, t, m'.slots[t].value);
    } else {
      i, j := SlotTraced(h0, t);
      CfmIsTraced(h0, e, t, i, j, m.slots[t].value, m'.slots[t].value);
      j := |h0|;
    }
  }

  /** The two ways a slot can hold something new: a push fills it, or a confirmation completes it. */
  lemma SlotChanges(m: Mgr, e: Event, t: nat)
    requires m.Valid() && t < MAX_PENDING && Step(m, e).slots[t].Some?
    ensures var s, s' := m.slots[t], Step(m, e).slots[t];
            || (s' == s && !(e == DoTimeout(t) || (e.DoTake? && e.token == t)))
            || (e.DoPush? && Push(m, e.reqid).1 == Some(t) && s' == Some(Fresh(e.reqid)))
            || (e.DoCfm? && Pick(m.slots, e.id, 0) == t
                && s.Some? && !s.value.done && s.value.reqid == e.id == s'.value.reqid
                && var n := Min(|e.param|, E2AMSG_LEN_MAX);
                   s'.value.done && s'.value.cfmLen == n <= |s'.value.cfmData| && s'.value.cfmData[..n] == e.param[..n])
  {
    if e.DoCfm? && Pick(m.slots, e.id, 0) == t {
      OnCfmPicked(m, e.id, e.param, t);
    }
  }

  /** A finished slot has been credited with a confirmation since it was pushed, and the other way round. */
  lemma DoneIffCredited(h: seq<Event>, t: nat)
    ensures IsDone(Exec(h), t) <==> exists j :: CreditedTo(h, j, t)
  {
    if IsDone(Exec(h), t) {
      var i, j := SlotTraced(h, t);
      hide Exec, CreditedTo, PushedUnder;
      assert CreditedTo(h, j, t);
    }
    if j :| CreditedTo(h, j, t) {
      CreditedIsDone(h, j, t);
    }
  }

  lemma {:induction false} CreditedIsDone(h: seq<Event>, j: nat, t: nat)
    requires CreditedTo(h, j, t)
    ensures IsDone(Exec(h), t)
    decreases |h|
  {
    var h0, e := h[..|h| - 1], h[|h| - 1];
    assert h == h0 + [e];
    ExecSnoc(h0, e);
    var m := Exec(h0);
    hide Exec;
    if j < |h| - 1 {
      CreditedEarlier(h0, e, j, t);
      CreditedIsDone(h0, j, t);
      assert !Ends(h, |h| - 1, t);
      DoneStays(m, e, t);
    } else {
      assert h[..j] == h0;
      OnCfmPicked(m, e.id, e.param, t);
    }
  }

  lemma CreditedEarlier(h0: seq<Event>, e: Event, j: nat, t: nat)
    requires j < |h0| && CreditedTo(h0 + [e], j, t)
    ensures CreditedTo(h0, j, t)
  {
    hide Exec, Pick;
    var h := h0 + [e];
    assert h[..j] == h0[..j];
    assert forall k :: 0 <= k < |h0| ==> h[k] == h0[k] && Ends(h, k, t) == Ends(h0, k, t);
  }

  lemma DoneStays(m: Mgr, e: Event, t: nat)
    requires m.Valid() && IsDone(m, t) && !(e == DoTimeout(t) || (e.DoTake? && e.token == t))
    ensures IsDone(Step(m, e), t)
  {
    if e.DoCfm? && Pick(m.slots, e.id, 0) < |m.slots| { OnCfmPicked(m, e.id, e.param, Pick(m.slots, e.id, 0)); }
  }

  /**
   What a take returns is one confirmation: delivered after the push that obtained the token, with
   the id that push asked for, truncated to 256 bytes and to the caller's buffer, unaltered since.
   It returns something exactly if the command is finished.
   */
  lemma TakeReturnsOneConfirmation(h: seq<Event>, t: nat, outLen: nat)
    ensures TakeCfm(Exec(h), t, outLen).1.Some? <==> exists j :: CreditedTo(h, j, t)
    ensures TakeCfm(Exec(h), t, outLen).1.Some? ==>
              exists i: nat, j: nat ::
                && PushedUnder(h, i, t) && CreditedTo(h, j, t) && i < j
                && h[j].id == h[i].reqid
                && TakeCfm(Exec(h), t, outLen).1.value == h[j].param[..Min(Min(256, |h[j].param|), outLen)]
  {
    DoneIffCredited(h, t);
    TakeAnswersIffDone(Exec(h), t, outLen);
    hide CreditedTo;
    if TakeCfm(Exec(h), t, outLen).1.Some? { TakeIsTraced(h, t, outLen); }
  }

  lemma TakeIsTraced(h: seq<Event>, t: nat, outLen: nat)
    requires TakeCfm(Exec(h), t, outLen).1.Some?
    ensures exists i: nat, j: nat ::
              && PushedUnder(h, i, t) && CreditedTo(h, j, t) && i < j
              && h[j].id == h[i].reqid
              && TakeCfm(Exec(h), t, outLen).1.value == h[j].param[..Min(Min(256, |h[j].param|), outLen)]
  {
    var m := Exec(h);
    hide Exec;
    TakenFrom(m, t, outLen);
    hide TakeCfm, Mgr.Valid;
    var i, j := SlotTraced(h, t);
    var c := m.slots[t].value;
    hide PushedUnder, CreditedTo, Exec;
    TruncateTwice(c.cfmData, h[j].param, c.cfmLen, outLen);
    assert PushedUnder(h, i, t) && CreditedTo(h, j, t);
  }

  /** A take that returns something returns the front of what the slot holds. */
  lemma TakenFrom(m: Mgr, t: nat, outLen: nat)
    requires m.Valid() && TakeCfm(m, t, outLen).1.Some?
    ensures t < MAX_PENDING == |m.slots| && m.slots[t].Some? && m.slots[t].value.done
    ensures m.slots[t].value.cfmLen <= |m.slots[t].value.cfmData|
    ensures TakeCfm(m, t, outLen).1.value == m.slots[t].value.cfmData[..Min(m.slots[t].value.cfmLen, outLen)]
  {
  }

  lemma TruncateTwice(stored: seq<byte>, param: seq<byte>, n: nat, outLen: nat)
    requires n <= |stored| && n <= |param| && stored[..n] == param[..n]
    ensures stored[..Min(n, outLen)] == param[..Min(n, outLen)]
  {
    var k := Min(n, outLen);
    assert stored[..k] == stored[..n][..k];
    assert param[..k] == param[..n][..k];
  }

  /** One confirmation never answers two takes, whatever their tokens. */
  lemma ConfirmationsAreNotShared(h: seq<Event>, n1: nat, n2: nat, j1: nat, j2: nat)
    requires n1 < n2 < |h| && h[n1].DoTake? && h[n2].DoTake?
    requires CreditedTo(h[..n1], j1, h[n1].token) && CreditedTo(h[..n2], j2, h[n2].token)
    ensures j1 != j2
  {
    hide Exec, Pick;
    assert h[..n1][..j1] == h[..j1] && h[..n2][..j2] == h[..j2];
    assert h[..n1][j1] == h[j1] && h[..n2][j2] == h[j2];
    assert Ends(h[..n2], n1, h[n1].token);
  }
}
