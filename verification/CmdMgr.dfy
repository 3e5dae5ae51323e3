/**
 The request/confirm manager (driver/bsp/src/cmd.rs): its operations as functions on a value, and
 the class that carries them out in place on an eight-slot array.
 */
module CmdMgr {
  import opened Wrappers
  import opened Bytes

  const MAX_PENDING := 8
  const E2AMSG_LEN_MAX := 256
  const EINTR := -4

  /** The command flags, one field for each named bit. */
  datatype Flags = Flags(nonblock: bool, reqCfm: bool, waitPush: bool, waitAck: bool, waitCfm: bool, done: bool)

  datatype PendingCmd = PendingCmd(reqid: u16, flags: Flags, result: int, done: bool, cfmLen: nat, cfmData: seq<byte>)
  {
    predicate Waiting() { flags.waitCfm }

    /** The three records of completion agree, and the stored confirmation fits its buffer. */
    predicate Valid() {
      && (done <==> !Waiting()) && (done <==> flags.done) && !flags.waitAck
      && |cfmData| == E2AMSG_LEN_MAX && cfmLen <= E2AMSG_LEN_MAX
    }
  }

  type Slot = Option<PendingCmd>

  datatype MgrState = Deinit | Inited | Crashed

  /** The manager's value. */
  datatype Mgr = Mgr(state: MgrState, nextTkn: u32, queueSz: u32, slots: seq<Slot>) {
    predicate Valid() {
      && |slots| == MAX_PENDING
      && forall t :: 0 <= t < |slots| && slots[t].Some? ==> slots[t].value.Valid()
    }
  }

  function New(): Mgr {
    Mgr(Inited, 0, 0, [None, None, None, None, None, None, None, None])
  }

  /** The first empty slot at or after `i`, or the number of slots. */
  function FirstFree(slots: seq<Slot>, i: nat): (t: nat)
    requires i <= |slots|
    ensures i <= t <= |slots|
    ensures t < |slots| ==> slots[t].None?
    ensures forall u :: i <= u < t ==> slots[u].Some?
    decreases |slots| - i
  {
    if i == |slots| || slots[i].None? then i else FirstFree(slots, i + 1)
  }

  predicate Awaits(s: Slot, id: u16) {
    s.Some? && s.value.reqid == id && s.value.Waiting()
  }

  /** The first slot at or after `i` that waits for `id`, or the number of slots. */
  function Pick(slots: seq<Slot>, id: u16, i: nat): (t: nat)
    requires i <= |slots|
    ensures i <= t <= |slots|
    ensures t < |slots| ==> Awaits(slots[t], id)
    ensures forall u :: i <= u < t ==> !Awaits(slots[u], id)
    decreases |slots| - i
  {
    if i == |slots| || Awaits(slots[i], id) then i else Pick(slots, id, i + 1)
  }

  function Fresh(reqid: u16): PendingCmd {
    PendingCmd(reqid, Flags(false, true, false, false, true, false), EINTR, false, 0, Zeros(E2AMSG_LEN_MAX))
  }

  /** `push`: refused when crashed, when the counter is at its limit, or when no slot is free. */
  function Push(m: Mgr, reqid: u16): (Mgr, Option<nat>) {
    if m.state == Crashed || m.queueSz >= MAX_PENDING then (m, None)
    else
      var t := FirstFree(m.slots, 0);
      if t == |m.slots| then (m, None)
      else (m.(nextTkn := (m.nextTkn + 1) % TWO_TO_THE_32, queueSz := m.queueSz + 1,
               slots := m.slots[t := Some(Fresh(reqid))]),
            Some(t))
  }

  /** The command once confirmed with `param`, before completion sets its flag. */
  function Confirmed(c: PendingCmd, param: seq<byte>): PendingCmd
    requires |c.cfmData| == E2AMSG_LEN_MAX
  {
    var n := Min(|param|, E2AMSG_LEN_MAX);
    c.(flags := c.flags.(waitCfm := false), cfmData := param[..n] + c.cfmData[n..], cfmLen := n,
       done := true, result := 0)
  }

  /** The command with its done flag set. */
  function Finished(c: PendingCmd): PendingCmd { c.(flags := c.flags.(done := true)) }

  predicate WaitComplete(flags: Flags) { !flags.waitAck && !flags.waitCfm }

  function SaturatingDec(n: u32): u32 { if n == 0 then 0 else n - 1 }

  /** `on_cfm`: the first slot waiting for `id` takes the confirmation and is completed. */
  function OnCfm(m: Mgr, id: u16, param: seq<byte>): Mgr
    requires m.Valid()
  {
    var t := Pick(m.slots, id, 0);
    if t == |m.slots| then m
    else
      var c := Confirmed(m.slots[t].value, param);
      if WaitComplete(c.flags)
      then m.(slots := m.slots[t := Some(Finished(c))], queueSz := SaturatingDec(m.queueSz))
      else m.(slots := m.slots[t := Some(c)])
  }

  /** `complete_timeout`: frees the slot and stops the manager for good. */
  function CompleteTimeout(m: Mgr, token: nat): Mgr {
    if token >= |m.slots| then m
    else if m.slots[token].Some?
    then m.(slots := m.slots[token := None], queueSz := SaturatingDec(m.queueSz), state := Crashed)
    else m.(state := Crashed)
  }

  predicate IsDone(m: Mgr, token: nat) {
    token < |m.slots| && m.slots[token].Some? && m.slots[token].value.done
  }

  /** `take_cfm`: frees the slot in any case, and hands out the confirmation if there is one. */
  function TakeCfm(m: Mgr, token: nat, outLen: nat): (Mgr, Option<seq<byte>>)
    requires m.Valid()
  {
    if token >= |m.slots| || m.slots[token].None? then (m, None)
    else
      var c := m.slots[token].value;
      var m' := m.(slots := m.slots[token := None]);
      if !c.done then (m', None) else (m', Some(c.cfmData[..Min(c.cfmLen, outLen)]))
  }

  // ---------- In place ----------

  class RwnxCmdMgr {
    var state: MgrState
    var nextTkn: u32
    var queueSz: u32
    const slots: array<Slot>

    ghost function Value(): Mgr
      reads this, slots
    {
      Mgr(state, nextTkn, queueSz, slots[..])
    }

    ghost predicate Valid()
      reads this, slots
    {
      Value().Valid()
    }

    constructor ()
      ensures Valid() && Value() == New() && fresh(slots)
    {
      state, nextTkn, queueSz := Inited, 0, 0;
      slots := new Slot[MAX_PENDING](_ => None);
      new;
      assert slots[..] == New().slots;
    }

    method PushCmd(reqid: u16) returns (token: Option<nat>)
      requires Valid()
      modifies this, slots
      ensures Valid() && (Value(), token) == Push(old(Value()), reqid)
    {
      if state == Crashed { return None; }
      if queueSz >= MAX_PENDING { return None; }
      var i := 0;
      while i < slots.Length
        invariant 0 <= i <= slots.Length
        invariant FirstFree(slots[..], 0) == FirstFree(slots[..], i)
        invariant Valid() && Value() == old(Value())
      {
        if slots[i].None? {
          nextTkn := (nextTkn + 1) % TWO_TO_THE_32;
          slots[i] := Some(Fresh(reqid));
          queueSz := queueSz + 1;
          FreshIsValid(reqid);
          assert slots[..] == old(slots[..])[i := Some(Fresh(reqid))];
          return Some(i);
        }
        i := i + 1;
      }
      return None;
    }

    method OnCfmMsg(id: u16, param: seq<byte>)
      requires Valid()
      modifies this, slots
      ensures Valid() && Value() == OnCfm(old(Value()), id, param)
    {
      hide PendingCmd.Valid, Confirmed, WaitComplete, OnCfm;
      var token := 0;
      while token < slots.Length
        invariant 0 <= token <= slots.Length
        invariant Pick(slots[..], id, 0) == Pick(slots[..], id, token)
        invariant Valid() && Value() == old(Value())
      {
        if slots[token].Some? {
          var s := slots[token].value;
          if s.reqid == id && s.flags.waitCfm {
            OnCfmPicked(Value(), id, param, token);
            var c := Confirmed(s, param);
            slots[token] := Some(c);
            if WaitComplete(c.flags) { CmdComplete(token); }
            assert slots[..] == old(slots[..])[token := Some(Finished(c))];
            return;
          }
        }
        token := token + 1;
      }
      OnCfmUnmatched(Value(), id, param);
    }

    /** `cmd_complete` of an occupied slot: sets the done flag and gives the queue entry back. */
    method CmdComplete(token: nat)
      requires token < slots.Length && slots[token].Some?
      modifies this, slots
      ensures slots[..] == old(slots[..])[token := Some(Finished(old(slots[token].value)))]
      ensures queueSz == SaturatingDec(old(queueSz)) && state == old(state) && nextTkn == old(nextTkn)
    {
      var s := slots[token].value;
      slots[token] := Some(Finished(s));
      queueSz := SaturatingDec(queueSz);
    }

    method Timeout(token: nat)
      requires Valid()
      modifies this, slots
      ensures Valid() && Value() == CompleteTimeout(old(Value()), token)
    {
      if token >= slots.Length { return; }
      if slots[token].Some? {
        slots[token] := None;
        queueSz := SaturatingDec(queueSz);
      }
      state := Crashed;
      assert old(slots[token]).None? ==> slots[..] == old(slots[..]);
    }

    method QueryDone(token: nat) returns (done: bool)
      requires Valid()
      ensures done == IsDone(Value(), token)
    {
      done := token < slots.Length && slots[token].Some? && slots[token].value.done;
    }

    /** Fills the front of `out` with the confirmation; the rest of `out` keeps its bytes. */
    method Take(token: nat, out: array<byte>) returns (len: Option<nat>)
      requires Valid()
      modifies slots, out
      ensures Valid() && Value() == TakeCfm(old(Value()), token, out.Length).0
      ensures var r := TakeCfm(old(Value()), token, out.Length).1;
              if r.Some? then len == Some(|r.value|) && out[..] == r.value + old(out[..])[|r.value|..]
              else len == None && out[..] == old(out[..])
    {
      if token >= slots.Length || slots[token].None? { return None; }
      var slot := slots[token].value;
      slots[token] := None;
      if !slot.done { return None; }
      var n := Min(slot.cfmLen, out.Length);
      forall i | 0 <= i < n { out[i] := slot.cfmData[i]; }
      len := Some(n);
    }
  }

  /** A take answers exactly the commands that are finished. */
  lemma TakeAnswersIffDone(m: Mgr, token: nat, outLen: nat)
    requires m.Valid()
    ensures TakeCfm(m, token, outLen).1.Some? <==> IsDone(m, token)
    ensures IsDone(m, token) ==>
              |TakeCfm(m, token, outLen).1.value| == Min(m.slots[token].value.cfmLen, outLen)
    ensures token < |m.slots| ==> TakeCfm(m, token, outLen).0.slots == m.slots[token := None]
  {
  }

  /** A push that is granted fills the first free slot with a waiting command, and is refused if there is none. */
  lemma PushMeans(m: Mgr, reqid: u16)
    requires m.Valid()
    ensures var (m', token) := Push(m, reqid);
            && (token.Some? ==>
                  && token.value < |m.slots| && m.slots[token.value].None?
                  && (forall u :: 0 <= u < token.value ==> m.slots[u].Some?)
                  && m'.slots == m.slots[token.value := Some(Fresh(reqid))])
            && (token.None? ==>
                  && m' == m
                  && (m.state == Crashed || m.queueSz >= 8 || forall u :: 0 <= u < |m.slots| ==> m.slots[u].Some?))
            && Fresh(reqid).reqid == reqid && !Fresh(reqid).done && Fresh(reqid).Waiting()
  {
    hide Fresh;
    FreshIsValid(reqid);
    FreshFields(reqid);
  }

  lemma FreshFields(reqid: u16)
    ensures Fresh(reqid).reqid == reqid && !Fresh(reqid).done
  {
  }

  lemma FreshIsValid(reqid: u16)
    ensures Fresh(reqid).Valid() && Fresh(reqid).Waiting()
  {
  }

  /** Confirming a picked slot completes it at once: no acknowledgement is ever awaited. */
  lemma OnCfmPicked(m: Mgr, id: u16, param: seq<byte>, t: nat)
    requires m.Valid() && t == Pick(m.slots, id, 0) < |m.slots|
    ensures |m.slots[t].value.cfmData| == E2AMSG_LEN_MAX
    ensures var c := Confirmed(m.slots[t].value, param);
            && WaitComplete(c.flags)
            && OnCfm(m, id, param) == m.(slots := m.slots[t := Some(Finished(c))], queueSz := SaturatingDec(m.queueSz))
    ensures OnCfm(m, id, param).Valid() && OnCfm(m, id, param).slots[t].value.done
  {
    ConfirmedFlags(m.slots[t].value, param);
  }

  lemma OnCfmKeepsValid(m: Mgr, id: u16, param: seq<byte>)
    requires m.Valid()
    ensures OnCfm(m, id, param).Valid()
  {
    var t := Pick(m.slots, id, 0);
    if t < |m.slots| { OnCfmPicked(m, id, param, t); }
  }

  lemma OnCfmUnmatched(m: Mgr, id: u16, param: seq<byte>)
    requires m.Valid()
    ensures Pick(m.slots, id, 0) == |m.slots| ==> OnCfm(m, id, param) == m
  {
  }

  lemma ConfirmedFlags(c: PendingCmd, param: seq<byte>)
    requires c.Valid() && c.Waiting()
    ensures var d := Confirmed(c, param);
            && WaitComplete(d.flags)
            && Finished(d).Valid() && !Finished(d).Waiting()
  {
  }
}
