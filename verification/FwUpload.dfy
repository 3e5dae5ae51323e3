/**
 Firmware upload from end to end (driver/bsp/src/fw_load.rs `fw_upload_blocks`, with the push, send
 and wait closures of driver/bsp/src/sdio/flow.rs): command manager, framing, mailbox, padding,
 CMD53 and the chip's memory in one run.
 */
module FwUpload {
  import opened Wrappers
  import opened Bytes
  import opened Lmac
  import opened TxPad
  import opened Transfer
  import opened SdioHost
  import opened Mailbox
  import opened TxPath
  import opened CmdMgr
  import opened CmdMgrRuns
  import opened RxDemux

  const FW_BLOCK := 1024
  const BLOCK_WRITE_CFM_TIMEOUT_MS := 500
  const EIO := -5
  const ETIME := -62

  predicate AllValidMsgs(ms: seq<LmacMsg>) { forall m :: m in ms ==> m.Valid() }

  /** The messages an image is cut into; the address counts on modulo 2^32. */
  function Blocks(addr: u32, data: seq<byte>): (ms: seq<LmacMsg>)
    ensures AllValidMsgs(ms)
    decreases |data|
  {
    if data == [] then []
    else
      var n := Min(|data|, FW_BLOCK);
      [BlockWriteMsg(addr, n, data[..n]).value] + Blocks((addr + n) % TWO_TO_THE_32, data[n..])
  }

  /** Block `j` of an image, at the address the loader has counted to. */
  predicate IsBlock(m: LmacMsg, addr: u32, data: seq<byte>, j: nat) {
    1024 * j < |data|
    && var n := Min(|data| - 1024 * j, 1024);
       BlockWriteMsg((addr + 1024 * j) % TWO_TO_THE_32, n, data[1024 * j..1024 * j + n]) == Some(m)
  }

  /** An image is cut every 1024 bytes, and nowhere else. */
  lemma {:induction false} BlocksShape(addr: u32, data: seq<byte>)
    ensures |Blocks(addr, data)| == (|data| + 1023) / 1024
    ensures forall j :: 0 <= j < |Blocks(addr, data)| ==> IsBlock(Blocks(addr, data)[j], addr, data, j)
    decreases |data|
  {
    hide BlockWriteMsg;
    if data != [] {
      var n := Min(|data|, FW_BLOCK);
      var next, rest := (addr + n) % TWO_TO_THE_32, data[n..];
      FirstBlock(addr, data, n);
      BlocksShape(next, rest);
      var ms, tail := Blocks(addr, data), Blocks(next, rest);
      hide Blocks;
      forall j | 0 <= j < |ms| ensures IsBlock(ms[j], addr, data, j) {
        if j == 0 {
          assert data[0..n] == data[..n];
        } else {
          assert ms[j] == tail[j - 1] && IsBlock(tail[j - 1], next, rest, j - 1);
          LaterBlock(ms[j], addr, data, j);
        }
      }
    }
  }

  lemma LaterBlock(m: LmacMsg, addr: u32, data: seq<byte>, j: nat)
    requires j > 0 && |data| > 1024 && IsBlock(m, (addr + 1024) % TWO_TO_THE_32, data[1024..], j - 1)
    ensures IsBlock(m, addr, data, j)
  {
    hide BlockWriteMsg;
    NextAddress(addr, 1024, 1024 * (j - 1));
    var n := Min(|data| - 1024 * j, 1024);
    var k := 1024 * (j - 1);
    assert data[1024..][k..k + n] == data[1024 * j..1024 * j + n];
  }

  /** The chip's memory after every write on the wire that was carried out to the end; reads leave it. */
  function Receive(mem: Memory, w: seq<Issued>): Memory {
    if w == [] then mem
    else
      var m := Receive(mem, w[..|w| - 1]);
      var i := w[|w| - 1];
      if i.complete && IsWrite(i) then ChipApply(m, CardBytes(i)) else m
  }

  /** What a list of messages puts on the wire when every one is sent. */
  function WireOf(ms: seq<LmacMsg>): seq<Issued>
    requires AllValidMsgs(ms)
  {
    if ms == [] then [] else AllCompleted(WR_FIFO, Plan(Padded(TxFrame(ms[0])))) + WireOf(ms[1..])
  }

  // ---------- The layers composed ----------

  /** Framed, padded, planned and carried out: one block write changes the chip's memory as told. */
  lemma BlockWriteArrives(mem: Memory, w: seq<Issued>, addr: u32, data: seq<byte>)
    requires 1 <= |data| <= FW_BLOCK
    ensures var m := BlockWriteMsg(addr, |data|, data).value;
            Receive(mem, w + AllCompleted(WR_FIFO, Plan(Padded(TxFrame(m))))) == Store(Receive(mem, w), addr, data)
  {
    var f := TxFrame(BlockWriteMsg(addr, |data|, data).value);
    assert |f| == 24 + |data|;
    var p := Plan(Padded(f));
    PaddedPlan(f);
    CompletedDelivers(WR_FIFO, p[0]);
    ChipAppliesBlockWrite(Receive(mem, w), addr, data, Padded(f)[|f|..]);
    assert f + Padded(f)[|f|..] == Padded(f);
    hide ChipApply, Store, TxFrame, BlockWriteMsg, Padded, PadLen, Plan, CardBytes, Completed;
    var i := Completed(WR_FIFO, p[0]);
    assert AllCompleted(WR_FIFO, p) == [i];
    assert (w + [i])[..|w|] == w;
  }

  lemma ReceiveSnoc(mem: Memory, w: seq<Issued>, i: Issued)
    ensures Receive(mem, w + [i])
         == if i.complete && IsWrite(i) then ChipApply(Receive(mem, w), CardBytes(i)) else Receive(mem, w)
  {
    hide IsWrite, ChipApply, CardBytes;
    assert (w + [i])[..|w|] == w;
  }

  /** The chip's memory depends on the writes of a wire alone. */
  lemma {:induction false} ReadsLeaveMemory(mem: Memory, w: seq<Issued>)
    ensures Receive(mem, w) == Receive(mem, WritesOf(w))
  {
    hide IsWrite, ChipApply, CardBytes;
    if w != [] {
      var front, i := w[..|w| - 1], w[|w| - 1];
      assert w == front + [i];
      ReadsLeaveMemory(mem, front);
      ReceiveSnoc(mem, front, i);
      ReceiveSnoc(mem, WritesOf(front), i);
      assert WritesOf(front) + [] == WritesOf(front);
    }
  }

  /** A frame of 1 to 1528 bytes, padded, is one legal command. */
  lemma PaddedPlan(f: seq<byte>)
    requires 1 <= |f| <= 1528
    ensures var p := Plan(Padded(f));
            |p| == 1 && p[0].Legal() && p[0].data == Padded(f) && (p[0].BlockMode? ==> p[0].blksz == BLOCK)
  {
    PadFitsMailbox(|f|);
    hide PadLen;
    SingleCommand(Padded(f));
  }

  lemma StoreAppend(mem: Memory, addr: int, x: seq<byte>, y: seq<byte>)
    ensures Store(Store(mem, addr, x), addr + |x|, y) == Store(mem, addr, x + y)
    ensures Store(mem, addr, []) == mem
  {
    var m := Store(mem, addr, x);
    var l, r := Store(m, addr + |x|, y), Store(mem, addr, x + y);
    forall a ensures a in l <==> a in r
             ensures a in l ==> l[a] == r[a] {
      StoreMeaning(mem, addr, x, a);
      StoreMeaning(m, addr + |x|, y, a);
      StoreMeaning(mem, addr, x + y, a);
      hide Store;
    }
  }

  /** The whole image, cut, framed, padded and sent, is a memcpy: its range is replaced and nothing else. */
  lemma {:induction false} UploadIsMemcpy(mem: Memory, w: seq<Issued>, addr: u32, data: seq<byte>)
    requires addr + |data| <= TWO_TO_THE_32
    ensures Receive(mem, w + WireOf(Blocks(addr, data))) == Store(Receive(mem, w), addr, data)
    decreases |data|
  {
    hide Receive, Store, BlockWriteMsg, TxFrame, Padded, PadLen, Plan, AllCompleted, WireOf, Blocks;
    if data == [] {
      NoBlocks(addr);
      assert w + [] == w;
      StoreAppend(Receive(mem, w), addr, [], []);
    } else {
      var n := Min(|data|, FW_BLOCK);
      var next := (addr + n) % TWO_TO_THE_32;
      var first, rest := BlockWriteMsg(addr, n, data[..n]).value, Blocks(next, data[n..]);
      assert 1 <= n <= FW_BLOCK && (data[n..] == [] || addr + n == next);
      FirstBlock(addr, data, n);
      var seg := AllCompleted(WR_FIFO, Plan(Padded(TxFrame(first))));
      WireOfCons(first, rest);
      assert data == data[..n] + data[n..];
      assert w + (seg + WireOf(rest)) == (w + seg) + WireOf(rest);
      BlockWriteArrives(mem, w, addr, data[..n]);
      UploadIsMemcpy(mem, w + seg, next, data[n..]);
      StoreAppend(Receive(mem, w), addr, data[..n], data[n..]);
      StoreNothing(Store(Receive(mem, w), addr, data[..n]), addr + n, next, data[n..]);
    }
  }

  lemma FirstBlock(addr: u32, data: seq<byte>, n: nat)
    requires data != [] && n == Min(|data|, FW_BLOCK)
    ensures Blocks(addr, data)
         == [BlockWriteMsg(addr, n, data[..n]).value] + Blocks((addr + n) % TWO_TO_THE_32, data[n..])
  {
  }

  lemma WireOfCons(m: LmacMsg, rest: seq<LmacMsg>)
    requires m.Valid() && AllValidMsgs(rest)
    ensures WireOf([m] + rest) == AllCompleted(WR_FIFO, Plan(Padded(TxFrame(m)))) + WireOf(rest)
  {
    hide AllCompleted, Plan, Padded, TxFrame;
    assert ([m] + rest)[1..] == rest;
  }

  lemma StoreNothing(mem: Memory, a: int, b: int, data: seq<byte>)
    requires data == [] || a == b
    ensures Store(mem, a, data) == Store(mem, b, data)
  {
    if data == [] {
      StoreAppend(mem, a, [], []);
      StoreAppend(mem, b, [], []);
    }
  }

  /** Where the stored bytes are, and that nothing else changed. */
  lemma StoreMeaning(mem: Memory, addr: int, data: seq<byte>, a: int)
    ensures addr <= a < addr + |data| ==> a in Store(mem, addr, data) && Store(mem, addr, data)[a] == data[a - addr]
    ensures !(addr <= a < addr + |data|) ==> (a in Store(mem, addr, data) <==> a in mem)
    ensures !(addr <= a < addr + |data|) && a in mem ==> Store(mem, addr, data)[a] == mem[a]
  {
  }

  /** Confirmations change neither the balance, nor which slots are occupied, nor the state. */
  lemma {:induction false} DeliverKeeps(m: Mgr, reports: seq<Report>)
    requires m.Valid() && Balanced(m)
    ensures var m' := Deliver(m, reports);
            && Balanced(m') && Occupied(m') == Occupied(m) && m'.state == m.state
    decreases |reports|
  {
    if reports != [] {
      var r := reports[0];
      var m1 := DeliverOne(m, r);
      if r.CfmFrame? {
        StepBalance(m, DoCfm(r.id, r.param));
        StepOccupied(m, DoCfm(r.id, r.param));
        assert m1 == Step(m, DoCfm(r.id, r.param));
        assert m1.state == m.state;
      }
      hide Balanced, Occupied, DeliverOne, Mgr.Valid, OnCfm, Step;
      DeliverKeeps(m1, reports[1..]);
    }
  }

  /**
   A failed upload: every message handed over but the last went out in full, and of the last at
   most its own command was started.
   */
  predicate Interrupted(w0: seq<Issued>, w: seq<Issued>, handed: seq<LmacMsg>) {
    AllValidMsgs(handed)
    && if handed == [] then w == w0
       else AtMostOneSend(w0 + WireOf(handed[..|handed| - 1]), w, WR_FIFO, Padded(TxFrame(handed[|handed| - 1])))
  }

  /** What handing over one more message can lead to. */
  lemma HandOver(w0: seq<Issued>, w: seq<Issued>, handed: seq<LmacMsg>, m: LmacMsg)
    requires AllValidMsgs(handed) && m.Valid() && w == w0 + WireOf(handed)
    ensures AllValidMsgs(handed + [m])
    ensures WireOf(handed + [m]) == WireOf(handed) + AllCompleted(WR_FIFO, Plan(Padded(TxFrame(m))))
    ensures forall w' :: AtMostOneSend(w, w', WR_FIFO, Padded(TxFrame(m))) ==> Interrupted(w0, w', handed + [m])
  {
    WireOfSnoc(handed, m);
    hide WireOf, AllCompleted, Plan, Padded, TxFrame, AtMostOneSend;
    assert (handed + [m])[..|handed|] == handed;
  }

  lemma {:induction false} WireOfSnoc(ms: seq<LmacMsg>, m: LmacMsg)
    requires AllValidMsgs(ms) && m.Valid()
    ensures AllValidMsgs(ms + [m])
    ensures WireOf(ms + [m]) == WireOf(ms) + AllCompleted(WR_FIFO, Plan(Padded(TxFrame(m))))
  {
    hide AllCompleted, Plan, Padded, TxFrame;
    if ms == [] {
      assert (ms + [m])[1..] == [];
    } else {
      assert (ms + [m])[1..] == ms[1..] + [m];
      WireOfSnoc(ms[1..], m);
    }
  }

  /** The first `k` messages of an image are the messages of its first `k` blocks. */
  lemma {:induction false} BlocksPrefix(addr: u32, data: seq<byte>, k: nat)
    requires k <= |Blocks(addr, data)|
    ensures Blocks(addr, data)[..k] == Blocks(addr, data[..Min(k * FW_BLOCK, |data|)])
    decreases k
  {
    hide BlockWriteMsg;
    if k == 0 {
      assert data[..0] == [];
    } else {
      var n := Min(|data|, FW_BLOCK);
      var rest, all := data[n..], Min(k * FW_BLOCK, |data|);
      var next := (addr + n) % TWO_TO_THE_32;
      FirstBlock(addr, data, n);
      FirstBlock(addr, data[..all], n);
      hide Blocks;
      BlocksPrefix(next, rest, k - 1);
      assert data[..all][..n] == data[..n] && data[..all][n..] == rest[..Min((k - 1) * FW_BLOCK, |rest|)];
      PrefixCons(Blocks(addr, data)[0], Blocks(next, rest), k);
    }
  }

  lemma PrefixCons<T>(x: T, rest: seq<T>, k: nat)
    requires 0 < k <= 1 + |rest|
    ensures ([x] + rest)[..k] == [x] + rest[..k - 1]
  {
  }

  /**
   What a failed upload did to the chip: its memory holds a prefix of whole blocks of the image and
   is otherwise as it was.  The prefix is all blocks handed over if the last one's command was
   carried out, and otherwise all but that.
   */
  lemma InterruptedPrefix(mem: Memory, w0: seq<Issued>, w: seq<Issued>, addr: u32, data: seq<byte>,
                          handed: seq<LmacMsg>)
    requires Interrupted(w0, w, handed) && handed != [] && handed <= Blocks(addr, data)
    requires addr + |data| <= TWO_TO_THE_32
    ensures var done := w0 + WireOf(handed[..|handed| - 1]);
            var k := if w != done && w[|done|].complete then |handed| else |handed| - 1;
            Receive(mem, w) == Store(Receive(mem, w0), addr, data[..Min(k * FW_BLOCK, |data|)])
  {
    var k := |handed| - 1;
    var front, last := handed[..k], handed[k];
    assert handed == front + [last];
    WholeBlocks(mem, w0, addr, data, front);
    WholeBlocks(mem, w0, addr, data, handed);
    hide Blocks, WireOf, Receive, Store, Plan, Padded, TxFrame, AttemptOf, AllCompleted, IsWrite;
    WireOfSnoc(front, last);
    LastSend(mem, w0 + WireOf(front), w, Padded(TxFrame(last)));
    Regroup(w0, WireOf(front), AllCompleted(WR_FIFO, Plan(Padded(TxFrame(last)))));
  }

  /** What at most one more send does to the memory: all of it or nothing. */
  lemma LastSend(mem: Memory, w: seq<Issued>, w': seq<Issued>, data: seq<byte>)
    requires AtMostOneSend(w, w', WR_FIFO, data)
    ensures Receive(mem, w')
         == if w' != w && w'[|w|].complete then Receive(mem, w + AllCompleted(WR_FIFO, Plan(data))) else Receive(mem, w)
  {
    if w' != w {
      var i := w'[|w|];
      assert w' == w + [i];
      hide Plan, IsWrite, Receive;
      if i.complete { SoleCompleted(i, data); }
      hide AttemptOf, AllCompleted;
      ReceiveSnoc(mem, w, i);
    }
  }

  lemma WholeBlocks(mem: Memory, w0: seq<Issued>, addr: u32, data: seq<byte>, handed: seq<LmacMsg>)
    requires addr + |data| <= TWO_TO_THE_32 && handed <= Blocks(addr, data)
    ensures AllValidMsgs(handed)
    ensures Receive(mem, w0 + WireOf(handed)) == Store(Receive(mem, w0), addr, data[..Min(|handed| * FW_BLOCK, |data|)])
  {
    BlocksPrefix(addr, data, |handed|);
    hide Blocks, WireOf, Receive, Store;
    assert handed == Blocks(addr, data)[..|handed|];
    UploadIsMemcpy(mem, w0, addr, data[..Min(|handed| * FW_BLOCK, |data|)]);
  }

  /** A send that was carried out is the whole plan of its payload. */
  lemma SoleCompleted(i: Issued, data: seq<byte>)
    requires |Plan(data)| == 1 && AttemptOf(i, WR_FIFO, Plan(data)[0]) && i.complete
    ensures [i] == AllCompleted(WR_FIFO, Plan(data))
  {
    hide Plan, Completed;
  }

  // ---------- The manager along the way ----------

  /** In order, and able to take another command. */
  predicate CanPush(m: Mgr) { m.Valid() && Balanced(m) && m.state != Crashed && Occupied(m) < MAX_PENDING }

  lemma PushReady(m: Mgr)
    requires CanPush(m)
    ensures var (m', token) := Push(m, DBG_MEM_BLOCK_WRITE_CFM);
            token.Some? && m'.Valid() && Balanced(m') && m'.state == m.state && Occupied(m') == Occupied(m) + 1
  {
    var e := DoPush(DBG_MEM_BLOCK_WRITE_CFM);
    PushSucceeds(m, DBG_MEM_BLOCK_WRITE_CFM);
    StepKeepsValid(m, e);
    StepBalance(m, e);
    StepOccupied(m, e);
    hide Balanced, Occupied;
  }

  /** Push, any reports while sending, any reports while waiting, take: the manager is as ready as before. */
  lemma RoundTrip(m: Mgr, sending: seq<Report>, waiting: seq<Report>, token: nat)
    requires CanPush(m)
    requires IsDone(Deliver(Deliver(Push(m, DBG_MEM_BLOCK_WRITE_CFM).0, sending), waiting), token)
    ensures var d := Deliver(Deliver(Push(m, DBG_MEM_BLOCK_WRITE_CFM).0, sending), waiting);
            var m' := TakeCfm(d, token, 16).0;
            CanPush(m') && Occupied(m') == Occupied(m)
  {
    hide Deliver, Balanced, Occupied, Push;
    PushReady(m);
    var m1 := Push(m, DBG_MEM_BLOCK_WRITE_CFM).0;
    DeliverKeeps(m1, sending);
    DeliverKeeps(Deliver(m1, sending), waiting);
    DoneTakeKeeps(Deliver(Deliver(m1, sending), waiting), token);
  }

  /** A block write whose confirmation has not come. */
  predicate Unconfirmed(m: Mgr) {
    exists t :: 0 <= t < |m.slots| && m.slots[t].Some? && m.slots[t].value.reqid == 1035
                && !m.slots[t].value.done
  }

  /** Confirmations keep what is in a slot waiting for what it waits for. */
  lemma {:induction false} SlotStays(m: Mgr, reports: seq<Report>, t: nat)
    requires m.Valid() && t < |m.slots| && m.slots[t].Some?
    ensures var m' := Deliver(m, reports);
            t < |m'.slots| && m'.slots[t].Some? && m'.slots[t].value.reqid == m.slots[t].value.reqid
    decreases |reports|
  {
    if reports != [] {
      var r, m1 := reports[0], DeliverOne(m, reports[0]);
      SlotStaysOne(m, r, t);
      hide DeliverOne, Mgr.Valid;
      SlotStays(m1, reports[1..], t);
    }
  }

  lemma SlotStaysOne(m: Mgr, r: Report, t: nat)
    requires m.Valid() && t < |m.slots| && m.slots[t].Some?
    ensures var m' := DeliverOne(m, r);
            t < |m'.slots| && m'.slots[t].Some? && m'.slots[t].value.reqid == m.slots[t].value.reqid
  {
    if r.CfmFrame? && Pick(m.slots, r.id, 0) < |m.slots| { OnCfmPicked(m, r.id, r.param, Pick(m.slots, r.id, 0)); }
  }

  lemma StillUnconfirmed(m: Mgr, sending: seq<Report>, waiting: seq<Report>, token: nat)
    requires CanPush(m) && Push(m, DBG_MEM_BLOCK_WRITE_CFM).1 == Some(token)
    requires Push(m, DBG_MEM_BLOCK_WRITE_CFM).0.Valid()
    requires !IsDone(Deliver(Deliver(Push(m, DBG_MEM_BLOCK_WRITE_CFM).0, sending), waiting), token)
    ensures Unconfirmed(Deliver(Deliver(Push(m, DBG_MEM_BLOCK_WRITE_CFM).0, sending), waiting))
  {
    var m1 := Push(m, DBG_MEM_BLOCK_WRITE_CFM).0;
    FreshFields(DBG_MEM_BLOCK_WRITE_CFM);
    assert token < |m1.slots| && m1.slots[token].Some? && m1.slots[token].value.reqid == DBG_MEM_BLOCK_WRITE_CFM;
    hide Push, Deliver, CanPush, Mgr.Valid;
    SlotStays(m1, sending, token);
    SlotStays(Deliver(m1, sending), waiting, token);
  }

  lemma DoneTakeKeeps(m: Mgr, token: nat)
    requires m.Valid() && Balanced(m) && IsDone(m, token)
    ensures var m' := TakeCfm(m, token, 16).0;
            m'.Valid() && Balanced(m') && m'.state == m.state && Occupied(m') == Occupied(m) - 1
  {
    var e := DoTake(token, 16);
    StepKeepsValid(m, e);
    StepBalance(m, e);
    StepOccupied(m, e);
    hide Balanced, Occupied;
  }

  // ---------- The loader ----------

  class Loader {
    const path: Path

    /** A quiet mailbox, and a manager in order that can take another command. */
    ghost predicate Ready()
      reads this, path, path.host, path.mgr, path.mgr.slots
    {
      path.Valid() && path.Quiet() && CanPush(path.mgr.Value())
    }

    constructor ()
      ensures Ready() && fresh(path) && fresh(path.host) && fresh(path.mgr) && fresh(path.mgr.slots)
      ensures path.host.wire == [] && Occupied(path.mgr.Value()) == 0
    {
      path := new Path();
      new;
      EmptyTable();
    }

    /** The send closure for the 8801: frame into a fixed buffer, submit the frame. */
    method TxFn(msg: LmacMsg) returns (r: int, ghost reports: seq<Report>)
      requires msg.Valid() && path.Valid() && path.st.sub.Idle?
      modifies path, path.host, path.mgr, path.mgr.slots
      ensures path.Valid() && path.st.sub.Idle? && old(path.host.wire) <= path.host.wire
      ensures path.mgr.Value() == Deliver(old(path.mgr.Value()), reports)
      ensures old(path.Quiet()) ==> Submitted(WritesOf(old(path.host.wire)), WritesOf(path.host.wire), TxFrame(msg), r)
      ensures old(path.Quiet()) && r == 0 ==> path.Quiet()
      ensures old(path.host.polls) <= path.host.polls && old(path.host.troubles) <= path.host.troubles
      ensures old(path.Quiet()) && r != 0 ==>
                path.st.timedOut || Caused(old(path.host.troubles), path.host.troubles, r)
    {
      hide TxFrame, TxFrameHeader, Path.Valid, Path.Quiet, Submitted, WritesOf, Deliver, Caused;
      hide RwnxCmdMgr.Valid, RwnxCmdMgr.Value;
      var buf := new byte[1536];
      var len := Serialize8801(msg, buf);
      r, reports := path.SubmitAndWait(buf[..len]);
    }

    /** The push closure: a token for the next block write, if the manager gives one. */
    method PushFn() returns (token: Option<nat>)
      requires path.Valid()
      modifies path.mgr, path.mgr.slots
      ensures path.Valid()
      ensures (path.mgr.Value(), token) == Push(old(path.mgr.Value()), DBG_MEM_BLOCK_WRITE_CFM)
    {
      hide Coherent, WritesOf, Push;
      token := path.mgr.PushCmd(DBG_MEM_BLOCK_WRITE_CFM);
    }

    /**
     The wait closure: poll and check once a millisecond, then give the slot back.  Meanwhile the
     receive thread may poll any number of times, and the card may send anything.  It gives up only
     after five hundred polls of its own that left the command unconfirmed.
     */
    method WaitFn(token: nat) returns (r: int, ghost reports: seq<Report>)
      requires path.Valid()
      modifies path.host, path.mgr, path.mgr.slots
      ensures path.Valid() && old(path.host.wire) <= path.host.wire
      ensures WritesOf(path.host.wire) == WritesOf(old(path.host.wire))
      ensures r == 0 || r == ETIME
      ensures var m := Deliver(old(path.mgr.Value()), reports);
              && (r == 0 ==> IsDone(m, token) && path.mgr.Value() == TakeCfm(m, token, 16).0)
              && (r != 0 ==> path.mgr.Value() == m && !IsDone(m, token))
      ensures old(path.host.polls) <= path.host.polls && old(path.host.troubles) <= path.host.troubles
      ensures r != 0 ==> path.host.polls >= old(path.host.polls) + 500
    {
      reports := [];
      hide Coherent, WritesOf, Deliver;
      ghost var m0 := path.mgr.Value();
      NothingDelivered(path.mgr);
      var waited := 0;
      while waited < BLOCK_WRITE_CFM_TIMEOUT_MS
        invariant path.Valid() && old(path.host.wire) <= path.host.wire
        invariant WritesOf(path.host.wire) == WritesOf(old(path.host.wire))
        invariant path.mgr.Value() == Deliver(m0, reports)
        invariant waited > 0 ==> !IsDone(Deliver(m0, reports), token)
        invariant path.host.polls >= old(path.host.polls) + waited && waited <= BLOCK_WRITE_CFM_TIMEOUT_MS
        invariant old(path.host.troubles) <= path.host.troubles
      {
        ghost var more := Polls();
        DeliverAppend(m0, reports, more);
        reports := reports + more;
        var done := path.mgr.QueryDone(token);
        if done {
          var dummy := new byte[16](_ => 0);
          var taken := path.mgr.Take(token, dummy);
          return 0, reports;
        }
        waited := waited + 1;
      }
      r := ETIME;
    }

    /** At least one poll, by the waiting thread, and any number by the receive thread. */
    method Polls() returns (ghost reports: seq<Report>)
      requires path.Valid()
      modifies path.host, path.mgr, path.mgr.slots
      ensures path.Valid() && old(path.host.wire) <= path.host.wire
      ensures WritesOf(path.host.wire) == WritesOf(old(path.host.wire))
      ensures path.mgr.Value() == Deliver(old(path.mgr.Value()), reports)
      ensures path.host.polls > old(path.host.polls) && old(path.host.troubles) <= path.host.troubles
    {
      ghost var m0 := path.mgr.Value();
      hide Coherent, WritesOf, Deliver, RwnxCmdMgr.Valid, RwnxCmdMgr.Value;
      reports := path.BusrxStep();
      var polls: nat := *;
      while polls > 0
        invariant path.Valid() && old(path.host.wire) <= path.host.wire
        invariant path.host.polls > old(path.host.polls) && old(path.host.troubles) <= path.host.troubles
        invariant WritesOf(path.host.wire) == WritesOf(old(path.host.wire))
        invariant path.mgr.Value() == Deliver(m0, reports)
      {
        ghost var more := path.BusrxStep();
        DeliverAppend(m0, reports, more);
        reports := reports + more;
        polls := polls - 1;
      }
    }

    /**
     The upload.  Success is a memcpy into the chip's memory, whatever it held before and whatever
     was received meanwhile; on failure the messages handed to the send closure are the first
     blocks of the image.  The command table never runs out, however long the image.  There is no
     failure without a cause: a submit that timed out, trouble that a send met, or a block that five
     hundred polls left unconfirmed.
     */
    method FwUploadBlocks(memAddr: u32, data: seq<byte>) returns (r: int, ghost handed: seq<LmacMsg>)
      requires Ready()
      modifies path, path.host, path.mgr, path.mgr.slots
      ensures path.Valid() && old(path.host.wire) <= path.host.wire
      ensures handed <= Blocks(memAddr, data)
      ensures r == 0 ==> handed == Blocks(memAddr, data)
      ensures r == 0 ==> WritesOf(path.host.wire) == WritesOf(old(path.host.wire)) + WireOf(handed)
      ensures r == 0 && memAddr + |data| <= TWO_TO_THE_32 ==> forall mem: Memory ::
                Receive(mem, path.host.wire) == Store(Receive(mem, old(path.host.wire)), memAddr, data)
      ensures r != 0 ==> handed != [] && Interrupted(WritesOf(old(path.host.wire)), WritesOf(path.host.wire), handed)
      ensures r == ETIME ==> WritesOf(path.host.wire) == WritesOf(old(path.host.wire)) + WireOf(handed)
      ensures r == 0 ==> Ready() && Occupied(path.mgr.Value()) == Occupied(old(path.mgr.Value()))
      ensures r in {0, -5, -62}
      ensures r == EIO ==> path.st.timedOut || SendFailed(old(path.host.troubles), path.host.troubles)
      ensures r == ETIME ==> path.host.polls >= old(path.host.polls) + 500
      ensures r == ETIME ==> Unconfirmed(path.mgr.Value())
    {
      hide Uploading, Interrupted, Blocks, BlockWriteMsg, Receive, Store, WireOf, Balanced, Occupied, AllValidMsgs;
      hide TxFrame, Padded, Plan, AllCompleted, Path.Valid, RwnxCmdMgr.Valid, RwnxCmdMgr.Value;
      hide CanPush, Deliver, TakeCfm, Push, IsDone, Submitted, WritesOf, AtMostOneSend, Caused, SendFailed, Unconfirmed;
      ghost var w0 := path.host.wire;
      ghost var v0, t0 := WritesOf(w0), path.host.troubles;
      var addr: u32 := memAddr;
      var off: nat := 0;
      handed := [];
      ghost var occupied := Occupied(path.mgr.Value());
      UploadStarts(v0, memAddr, data);
      while off < |data|
        invariant Uploading(v0, WritesOf(path.host.wire), handed, memAddr, addr, data, off)
        invariant Ready() && Occupied(path.mgr.Value()) == occupied && w0 <= path.host.wire
        invariant old(path.host.polls) <= path.host.polls && t0 <= path.host.troubles
      {
        var len := Min(|data| - off, FW_BLOCK);
        var msg := BlockWriteMsg(addr, len, data[off..off + len]);
        if msg.None? { return SdioHost.ENOMEM, handed; }
        ghost var v := WritesOf(path.host.wire);
        ghost var sent := AllCompleted(WR_FIFO, Plan(Padded(TxFrame(msg.value))));
        ghost var m, t1 := path.mgr.Value(), path.host.troubles;
        PushReady(m);
        var token := PushFn();
        if token.None? { return SdioHost.ENOMEM, handed; }
        UploadHands(v0, v, handed, memAddr, addr, data, off, msg.value, len);
        UploadStep(v0, v, handed, memAddr, addr, data, off, msg.value, len, sent);
        handed := handed + [msg.value];
        var e;
        ghost var got, more;
        e, got := TxFn(msg.value);
        SentIfOk(v, WritesOf(path.host.wire), TxFrame(msg.value), e, sent);
        if e != 0 {
          if !path.st.timedOut { CausedBySend(t0, t1, path.host.troubles, e); }
          return EIO, handed;
        }
        SentSoFar(v0, WritesOf(path.host.wire), handed, memAddr, (addr + len) % TWO_TO_THE_32, data, off + len);
        e, more := WaitFn(token.value);
        if e != 0 {
          StillUnconfirmed(m, got, more, token.value);
          return e, handed;
        }
        RoundTrip(m, got, more, token.value);
        addr := (addr + len) % TWO_TO_THE_32;
        off := off + len;
      }
      UploadEnds(w0, path.host.wire, handed, memAddr, addr, data, off);
      r := 0;
    }
  }

  /**
   The loader between blocks: what is handed over went out in full, and what is left of the plan is the rest of the
   image.
   */
  predicate Uploading(w0: seq<Issued>, w: seq<Issued>, handed: seq<LmacMsg>, memAddr: u32, addr: u32,
                      data: seq<byte>, off: nat) {
    && off <= |data| && addr == (memAddr + off) % TWO_TO_THE_32
    && AllValidMsgs(handed) && w == w0 + WireOf(handed)
    && handed + Blocks(addr, data[off..]) == Blocks(memAddr, data)
  }

  lemma SentSoFar(w0: seq<Issued>, w: seq<Issued>, handed: seq<LmacMsg>, memAddr: u32, addr: u32, data: seq<byte>,
                  off: nat)
    requires Uploading(w0, w, handed, memAddr, addr, data, off)
    ensures AllValidMsgs(handed) && w == w0 + WireOf(handed)
  {
  }

  lemma UploadStarts(w0: seq<Issued>, memAddr: u32, data: seq<byte>)
    ensures Uploading(w0, w0, [], memAddr, memAddr, data, 0)
  {
    NoBlocks(memAddr);
    hide Blocks, WireOf;
    assert data[0..] == data && w0 + [] == w0;
    assert [] + Blocks(memAddr, data) == Blocks(memAddr, data);
  }

  /** The next message of the loop is the next of the plan; sent, the loader is between blocks again. */
  lemma UploadStep(w0: seq<Issued>, w: seq<Issued>, handed: seq<LmacMsg>, memAddr: u32, addr: u32,
                   data: seq<byte>, off: nat, m: LmacMsg, len: nat, sent: seq<Issued>)
    requires Uploading(w0, w, handed, memAddr, addr, data, off) && off < |data|
    requires len == Min(|data| - off, FW_BLOCK) && BlockWriteMsg(addr, len, data[off..off + len]) == Some(m)
    requires m.Valid() && sent == AllCompleted(WR_FIFO, Plan(Padded(TxFrame(m))))
    ensures Uploading(w0, w + sent, handed + [m], memAddr, (addr + len) % TWO_TO_THE_32, data, off + len)
  {
    hide Blocks, WireOf, Interrupted, BlockWriteMsg, AllCompleted, Plan, Padded, TxFrame, AllValidMsgs;
    NextBlock(addr, data, off);
    WireOfSnoc(handed, m);
    NextAddress(memAddr, off, len);
    var next := (addr + len) % TWO_TO_THE_32;
    var rest := Blocks(next, data[off + len..]);
    NextInPlan(handed, m, rest);
    Regroup(w0, WireOf(handed), sent);
  }

  /** Handing the next message over keeps to the plan, however its sending ends. */
  lemma UploadHands(w0: seq<Issued>, w: seq<Issued>, handed: seq<LmacMsg>, memAddr: u32, addr: u32,
                    data: seq<byte>, off: nat, m: LmacMsg, len: nat)
    requires Uploading(w0, w, handed, memAddr, addr, data, off) && off < |data|
    requires len == Min(|data| - off, FW_BLOCK) && BlockWriteMsg(addr, len, data[off..off + len]) == Some(m)
    ensures m.Valid() && handed + [m] <= Blocks(memAddr, data)
    ensures forall w' :: AtMostOneSend(w, w', WR_FIFO, Padded(TxFrame(m))) ==> Interrupted(w0, w', handed + [m])
  {
    hide AtMostOneSend;
    hide Blocks, WireOf, Interrupted, BlockWriteMsg, AllCompleted, Plan, Padded, TxFrame, AllValidMsgs;
    NextBlock(addr, data, off);
    HandOver(w0, w, handed, m);
    NextInPlan(handed, m, Blocks((addr + len) % TWO_TO_THE_32, data[off + len..]));
  }

  lemma NextInPlan<T>(done: seq<T>, x: T, rest: seq<T>)
    ensures (done + [x]) + rest == done + ([x] + rest)
    ensures done + [x] <= done + ([x] + rest)
  {
  }

  lemma NextAddress(base: nat, off: nat, len: nat)
    ensures ((base + off) % TWO_TO_THE_32 + len) % TWO_TO_THE_32 == (base + (off + len)) % TWO_TO_THE_32
  {
  }

  lemma UploadEnds(w0: seq<Issued>, w: seq<Issued>, handed: seq<LmacMsg>, memAddr: u32, addr: u32, data: seq<byte>,
                   off: nat)
    requires Uploading(WritesOf(w0), WritesOf(w), handed, memAddr, addr, data, off) && off >= |data|
    ensures handed == Blocks(memAddr, data) && WritesOf(w) == WritesOf(w0) + WireOf(handed)
    ensures memAddr + |data| <= TWO_TO_THE_32 ==>
              forall mem :: Receive(mem, w) == Store(Receive(mem, w0), memAddr, data)
  {
    NoBlocks(addr);
    assert data[off..] == [] && handed + [] == handed;
    hide Blocks, WireOf, Receive, Store, WritesOf;
    forall mem: Memory | memAddr + |data| <= TWO_TO_THE_32
      ensures Receive(mem, w) == Store(Receive(mem, w0), memAddr, data)
    {
      ReadsLeaveMemory(mem, w0);
      ReadsLeaveMemory(mem, w);
      UploadIsMemcpy(mem, WritesOf(w0), memAddr, data);
    }
  }

  /** Some send since `t0` met trouble. */
  predicate SendFailed(t0: seq<Trouble>, t: seq<Trouble>) { exists j :: |t0| <= j < |t| && OfSend(t[j]) }

  lemma CausedBySend(t0: seq<Trouble>, t1: seq<Trouble>, t: seq<Trouble>, r: int)
    requires t0 <= t1 && r != 0 && Caused(t1, t, r)
    ensures SendFailed(t0, t)
  {
  }

  lemma SentIfOk(w0: seq<Issued>, w: seq<Issued>, frame: seq<byte>, r: int, sent: seq<Issued>)
    requires Submitted(w0, w, frame, r) && sent == AllCompleted(WR_FIFO, Plan(Padded(frame)))
    ensures AtMostOneSend(w0, w, WR_FIFO, Padded(frame)) && (r == 0 ==> w == w0 + sent)
  {
    hide AllCompleted, Plan, Padded;
  }

  lemma NoBlocks(addr: u32)
    ensures Blocks(addr, []) == [] && WireOf([]) == []
  {
  }

  lemma NextBlock(addr: u32, data: seq<byte>, off: nat)
    requires off < |data|
    ensures var len := Min(|data| - off, FW_BLOCK);
            var first := BlockWriteMsg(addr, len, data[off..off + len]).value;
            Blocks(addr, data[off..]) == [first] + Blocks((addr + len) % TWO_TO_THE_32, data[off + len..])
  {
    var rest, len := data[off..], Min(|data| - off, FW_BLOCK);
    assert rest[..len] == data[off..off + len] && rest[len..] == data[off + len..];
  }
}
