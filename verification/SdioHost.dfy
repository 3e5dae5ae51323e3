/**
 The write side of the SDIO host (driver/bsp/src/sdio/backend.rs) and the message gate above it
 (driver/bsp/src/sdio/ops.rs).  Every register read the hardware may answer at will is an
 arbitrary choice, so each contract holds for all hardware behaviour.
 */
module SdioHost {
  import opened Bytes
  import opened Cmd53
  import opened Transfer
  import opened ReadPlan
  import opened Wrappers

  const EAGAIN := -11
  const EINVAL := -22
  const ENOMEM := -12
  const ETIMEDOUT := -110

  const WR_FIFO := 0x107
  const RD_FIFO := 0x108
  const FLOW_CTRL_RETRY_COUNT := 50
  const GATE_ROUNDS := 10
  const BUFFER_SIZE := 1536

  /** Function 1 registers of the 8801. */
  const BYTEMODE_LEN := 0x02
  const FLOW_CTRL := 0x0A
  const BLOCK_CNT := 0x12

  /** A byte a CMD52 read returned. */
  datatype Reading = Reading(reg: nat, value: byte)

  /** What the host was busy with when something went wrong. */
  datatype Op = WriteFifo | ReadFifo | Register(reg: nat)

  /** What can go wrong: the hardware reports or times out, or the credit gate gives up. */
  datatype Trouble = Status(op: Op, errno: int) | GateClosed

  /** Trouble that a send can meet. */
  predicate OfSend(t: Trouble) { t.GateClosed? || t.op.WriteFifo? || t.op == Register(FLOW_CTRL) }

  /** The result that a send in trouble ends with. */
  function ErrnoOf(t: Trouble): int { if t.GateClosed? then ETIMEDOUT else t.errno }

  /** Only polls of the credit register were added. */
  predicate Polled(s: seq<Reading>, s': seq<Reading>, most: nat) {
    s <= s' && |s'| <= |s| + most && forall j :: |s| <= j < |s'| ==> s'[j].reg == FLOW_CTRL
  }

  function Credit(r: Reading): nat { r.value % 128 }

  /** The credit gate: in which round and at which poll of it, or through, or given up. */
  datatype Gate = Polling(round: nat, poll: nat) | Open | GaveUp

  /** A round ends with its first credit, or after fifty polls; the gate gives up after ten rounds. */
  function GateStep(g: Gate, credit: nat, len: nat): Gate {
    match g
    case Polling(round, poll) =>
      if credit == 0 && poll + 1 < FLOW_CTRL_RETRY_COUNT then Polling(round, poll + 1)
      else if credit > 0 && len < credit * BUFFER_SIZE then Open
      else if round + 1 < GATE_ROUNDS then Polling(round + 1, 0)
      else GaveUp
    case _ => g
  }

  /** The gate for a message of `len` bytes after these readings of the credit register. */
  function GateAfter(s: seq<Reading>, len: nat): Gate {
    if s == [] then Polling(0, 0) else GateStep(GateAfter(s[..|s| - 1], len), Credit(s[|s| - 1]), len)
  }

  lemma GateSnoc(s: seq<Reading>, r: Reading, len: nat)
    ensures GateAfter(s + [r], len) == GateStep(GateAfter(s, len), Credit(r), len)
  {
    assert (s + [r])[..|s|] == s;
  }

  /** The credit is the low seven bits of the register. */
  lemma CreditMeans(reg: nat, x: byte)
    ensures x < 0x80 ==> Credit(Reading(reg, x)) == x
    ensures x >= 0x80 ==> Credit(Reading(reg, x)) == x - 0x80
  {
  }

  /** More buffers of 1536 bytes are granted than the message needs. */
  predicate Covers(r: Reading, len: nat) { Credit(r) > 0 && len < Credit(r) * 1536 }

  /** Reading `j` is taken while the gate is polling, and covers the message. */
  predicate Opens(s: seq<Reading>, j: nat, len: nat) {
    j < |s| && GateAfter(s[..j], len).Polling? && Covers(s[j], len)
  }

  lemma OpensEarlier(s: seq<Reading>, r: Reading, j: nat, len: nat)
    ensures j < |s| ==> (Opens(s + [r], j, len) <==> Opens(s, j, len))
    ensures j == |s| ==> (Opens(s + [r], j, len) <==> GateAfter(s, len).Polling? && Covers(r, len))
  {
    hide GateAfter, Covers;
    if j <= |s| { assert (s + [r])[..j] == s[..j]; }
    assert s[..|s|] == s;
  }

  /** The gate is open exactly if a reading taken while it was polling covers the message. */
  lemma {:induction false} GateOpensIff(s: seq<Reading>, len: nat)
    ensures GateAfter(s, len).Open? <==> exists j :: Opens(s, j, len)
  {
    if s == [] {
      assert forall j :: !Opens(s, j, len);
    } else {
      var front, r := s[..|s| - 1], s[|s| - 1];
      assert s == front + [r];
      LastReading(s, len);
      StepOpens(GateAfter(front, len), r, len);
      hide GateAfter, GateStep, Covers, Opens;
      GateOpensIff(front, len);
      if j :| Opens(front, j, len) {
        OpensInTime(front, j, len);
        OpensEarlier(front, r, j, len);
      }
      OpensEarlier(front, r, |front|, len);
      if j :| Opens(s, j, len) {
        OpensInTime(s, j, len);
        OpensEarlier(front, r, j, len);
      }
    }
  }

  lemma OpensInTime(s: seq<Reading>, j: nat, len: nat)
    requires Opens(s, j, len)
    ensures j < |s|
  {
  }

  lemma LastReading(s: seq<Reading>, len: nat)
    requires s != []
    ensures GateAfter(s, len) == GateStep(GateAfter(s[..|s| - 1], len), Credit(s[|s| - 1]), len)
  {
  }

  lemma StepOpens(g: Gate, r: Reading, len: nat)
    ensures GateStep(g, Credit(r), len).Open? <==> g.Open? || (g.Polling? && Covers(r, len))
  {
    hide Credit;
  }

  /** Without any credit the gate gives up after five hundred readings. */
  lemma {:induction false} GateOfZeros(s: seq<Reading>, len: nat)
    requires forall j :: 0 <= j < |s| ==> Credit(s[j]) == 0
    ensures GateAfter(s, len) == if |s| < 500 then Polling(|s| / 50, |s| % 50) else GaveUp
  {
    if s != [] {
      GateOfZeros(s[..|s| - 1], len);
      LastReading(s, len);
      hide GateAfter, Credit;
    }
  }

  /** With credits that are all too small it gives up after ten. */
  lemma {:induction false} GateOfSmallCredits(s: seq<Reading>, len: nat)
    requires forall j :: 0 <= j < |s| ==> Credit(s[j]) > 0 && !Covers(s[j], len)
    ensures GateAfter(s, len) == if |s| < 10 then Polling(|s|, 0) else GaveUp
  {
    if s != [] {
      GateOfSmallCredits(s[..|s| - 1], len);
      LastReading(s, len);
      hide GateAfter, Credit;
    }
  }

  /**
   A round, possibly cut short by a failing read: no credit before its last reading, and fifty readings if there is
   none at all.
   */
  predicate Round(s: seq<Reading>, done: bool) {
    && |s| <= FLOW_CTRL_RETRY_COUNT
    && (forall j :: 0 <= j < |s| ==> s[j].reg == 0x0A)
    && (forall j :: 0 <= j < |s| - 1 ==> Credit(s[j]) == 0)
    && (done ==> s != [] && (Credit(s[|s| - 1]) == 0 ==> |s| == FLOW_CTRL_RETRY_COUNT))
    && (!done ==> |s| < FLOW_CTRL_RETRY_COUNT && (s != [] ==> Credit(s[|s| - 1]) == 0))
  }

  lemma {:induction false} GateWaits(before: seq<Reading>, s: seq<Reading>, len: nat, round: nat)
    requires GateAfter(before, len) == Polling(round, 0) && |s| < FLOW_CTRL_RETRY_COUNT
    requires forall j :: 0 <= j < |s| ==> Credit(s[j]) == 0
    ensures GateAfter(before + s, len) == Polling(round, |s|)
  {
    hide GateAfter, Credit;
    if s == [] {
      assert before + s == before;
    } else {
      var t, r := s[..|s| - 1], s[|s| - 1];
      GateWaits(before, t, len, round);
      GateSnoc(before + t, r, len);
      assert before + s == (before + t) + [r];
    }
  }

  /** What a round does to the gate. */
  lemma GateRound(before: seq<Reading>, s: seq<Reading>, len: nat, round: nat, done: bool)
    requires GateAfter(before, len) == Polling(round, 0) && Round(s, done)
    ensures !done ==> GateAfter(before + s, len).Polling?
    ensures done ==>
              var credit := Credit(s[|s| - 1]);
              GateAfter(before + s, len) == (if credit > 0 && len < credit * BUFFER_SIZE then Open
                                             else if round + 1 < GATE_ROUNDS then Polling(round + 1, 0)
                                             else GaveUp)
  {
    hide GateAfter, Credit;
    if done {
      var t, r := s[..|s| - 1], s[|s| - 1];
      GateWaits(before, t, len, round);
      GateSnoc(before + t, r, len);
      assert before + s == (before + t) + [r];
    } else {
      GateWaits(before, s, len, round);
    }
  }

  /** At most one more command on the wire, and if so it is an attempt of `c`. */
  predicate AtMostOnce(w: seq<Issued>, w': seq<Issued>, addr: nat, c: Command) {
    w' == w || (|w'| == |w| + 1 && w <= w' && AttemptOf(w'[|w|], addr, c))
  }

  /** `w'` is `w` after the first `k` planned commands, and at most one attempt of the next. */
  predicate AfterCommands(w: seq<Issued>, w': seq<Issued>, addr: nat, p: seq<Command>, k: nat)
  {
    && k <= |p|
    && var mid := w + AllCompleted(addr, p[..k]);
       w' == mid || (k < |p| && AtMostOnce(mid, w', addr, p[k]))
  }

  /** At most one more command on the wire, and if so it is an attempt of the only one that `data` plans. */
  predicate AtMostOneSend(w: seq<Issued>, w': seq<Issued>, addr: nat, data: seq<byte>) {
    w' == w || (|Plan(data)| == 1 && AtMostOnce(w, w', addr, Plan(data)[0]))
  }

  /** The outcome of a write: success completes the plan, EAGAIN comes only between commands. */
  ghost predicate WriteOutcome(w: seq<Issued>, w': seq<Issued>, addr: nat, data: seq<byte>, r: int) {
    var p := Plan(data);
    if r == 0 then w' == w + AllCompleted(addr, p)
    else exists k: nat :: Failed(w, w', addr, p, r, k)
  }

  predicate Failed(w: seq<Issued>, w': seq<Issued>, addr: nat, p: seq<Command>, r: int, k: nat) {
    AfterCommands(w, w', addr, p, k) && (r == EAGAIN ==> k < |p| && w' == w + AllCompleted(addr, p[..k]))
  }

  /** What a transfer can end with: done, to be tried again, or one of the hardware's errors. */
  predicate TransferResult(r: int) { r in {0, -5, -11, -74, -84, -110} }

  lemma DoneIsResult()
    ensures TransferResult(0)
  {
  }

  class Host {
    /** Every command whose command register was written, in order. */
    var wire: seq<Issued>
    /** The single DMA buffer is handed out. */
    var dmaBusy: bool
    /** Every byte read by CMD52, in order. */
    var readings: seq<Reading>
    /** Everything that went wrong, in order. */
    ghost var troubles: seq<Trouble>
    /** How often the card was asked whether it has something to read. */
    ghost var polls: nat

    constructor ()
      ensures wire == [] && !dmaBusy && readings == [] && troubles == []
    {
      wire, dmaBusy, readings, troubles, polls := [], false, [], [], 0;
    }

    /** Any of the statuses the command and data waits can report. */
    method HardwareStatus(ghost op: Op) returns (r: int)
      modifies `troubles
      ensures r in {0, -5, -74, -84, ETIMEDOUT}
      ensures troubles == if r == 0 then old(troubles) else old(troubles) + [Status(op, r)]
    {
      r :| r in {0, -5, -74, -84, ETIMEDOUT};
      if r != 0 { troubles := troubles + [Status(op, r)]; }
    }

    /** A DMA transfer's command wait, data wait, and look at the card's response. */
    method DmaStatus(ghost op: Op) returns (r: int)
      modifies `troubles
      ensures r in {0, -5, -74, -84, ETIMEDOUT}
      ensures troubles == if r == 0 then old(troubles) else old(troubles) + [Status(op, r)]
    {
      r := HardwareStatus(op);
      if r != 0 { return; }
      r := HardwareStatus(op);
      if r != 0 { return; }
      var r5Error := Fails(op, -5);
      if r5Error { r := -5; }
    }

    /** A condition of the hardware on which the operation ends with an error. */
    method Fails(ghost op: Op, ghost errno: int) returns (failed: bool)
      modifies `troubles
      ensures troubles == if failed then old(troubles) + [Status(op, errno)] else old(troubles)
    {
      failed := *;
      if failed { troubles := troubles + [Status(op, errno)]; }
    }

    /** `cmd53_write_chunk`: byte mode through the data port. */
    method Cmd53WriteChunk(addr: nat, buf: seq<byte>) returns (r: int)
      requires 1 <= |buf| <= 512
      modifies `wire, `troubles
      ensures TransferResult(r)
      ensures r == 0 || r == EAGAIN ==> troubles == old(troubles)
      ensures r != 0 && r != EAGAIN ==> troubles == old(troubles) + [Status(WriteFifo, r)]
      ensures r == 0 ==> wire == old(wire) + [Completed(addr, ByteMode(buf))]
      ensures r == EAGAIN ==> wire == old(wire)
      ensures AtMostOnce(old(wire), wire, addr, ByteMode(buf))
    {
      var inhibited := Fails(WriteFifo, ETIMEDOUT);
      if inhibited { return ETIMEDOUT; }
      var cardInt: bool := *;
      if cardInt { return EAGAIN; }
      var arg := ByteMode(buf).Arg(addr);
      hide Command.Arg, Word;
      var before := wire;
      wire := before + [Issued(arg, 1, |buf|, Pio([]), false)];
      r := HardwareStatus(WriteFifo);
      if r != 0 { return; }
      var words, ok := WriteDataPort(buf);
      wire := before + [Issued(arg, 1, |buf|, Pio(words), false)];
      if !ok { return ETIMEDOUT; }
      r := HardwareStatus(WriteFifo);
      if r != 0 { return; }
      wire := before + [Issued(arg, 1, |buf|, Pio(words), true)];
      var stillInhibited := Fails(WriteFifo, ETIMEDOUT);
      if stillInhibited { return ETIMEDOUT; }
    }

    /** The data-port loop: word by word, giving up at the first word the port does not accept. */
    method WriteDataPort(buf: seq<byte>) returns (words: seq<u32>, ok: bool)
      modifies `troubles
      ensures troubles == if ok then old(troubles) else old(troubles) + [Status(WriteFifo, ETIMEDOUT)]
      ensures words <= PackWords(buf)
      ensures ok ==> words == PackWords(buf)
    {
      hide Word;
      words := [];
      var rest := buf;
      while rest != []
        invariant words + PackWords(rest) == PackWords(buf) && troubles == old(troubles)
        decreases |rest|
      {
        var refused := Fails(WriteFifo, ETIMEDOUT);
        if refused { return words, false; }
        var n := Min(4, |rest|);
        words := words + [Word(rest[..n])];
        rest := rest[n..];
      }
      assert words + [] == words;
      ok := true;
    }

    /** `alloc_dma_buffer`: one buffer at a time, at most the pool, a multiple of four. */
    method AllocDmaBuffer(size: nat) returns (ok: bool)
      modifies `dmaBusy
      ensures ok == (0 < size <= DMA_POOL_SIZE && size % 4 == 0 && !old(dmaBusy))
      ensures dmaBusy == (ok || old(dmaBusy))
    {
      if size == 0 || size > DMA_POOL_SIZE || size % 4 != 0 { return false; }
      if dmaBusy { return false; }
      dmaBusy := true;
      ok := true;
    }

    /** `cmd53_write_blocks`: block mode from the DMA buffer, which is always given back. */
    method Cmd53WriteBlocks(addr: nat, buf: seq<byte>) returns (r: int)
      requires BlockMode(BLOCK, buf).Legal() && !dmaBusy
      modifies `wire, `dmaBusy, `troubles
      ensures !dmaBusy && TransferResult(r)
      ensures r == 0 || r == EAGAIN ==> troubles == old(troubles)
      ensures r != 0 && r != EAGAIN ==> troubles == old(troubles) + [Status(WriteFifo, r)]
      ensures r == 0 ==> wire == old(wire) + [Completed(addr, BlockMode(BLOCK, buf))]
      ensures r == EAGAIN ==> wire == old(wire)
      ensures AtMostOnce(old(wire), wire, addr, BlockMode(BLOCK, buf))
    {
      LegalSize(|buf|);
      hide Command.Legal;
      var inhibited := Fails(WriteFifo, ETIMEDOUT);
      if inhibited { return ETIMEDOUT; }
      var cardInt: bool := *;
      if cardInt { return EAGAIN; }
      var ok := AllocDmaBuffer(|buf|);
      if !ok { return ENOMEM; }
      var arg := BlockMode(BLOCK, buf).Arg(addr);
      BlockCommand(addr, buf);
      hide Command.Arg, Completed, AttemptOf, Command.Legal;
      ghost var before := wire;
      wire := wire + [Issued(arg, |buf| / BLOCK, BLOCK, Dma(buf), false)];
      r := DmaStatus(WriteFifo);
      dmaBusy := false;
      if r != 0 { return; }
      wire := wire[..|wire| - 1] + [Issued(arg, |buf| / BLOCK, BLOCK, Dma(buf), true)];
      assert wire[..|wire| - 1] == before;
      var stillInhibited := Fails(WriteFifo, ETIMEDOUT);
      if stillInhibited { return ETIMEDOUT; }
    }

    /**
     `sdio_io_rw_ext_helper_write`.  `k` counts the planned commands that were completed before an
     error; EAGAIN leaves exactly those on the wire.
     */
    method RwExtHelperWrite(addr: nat, buf: seq<byte>) returns (r: int, ghost k: nat)
      requires !dmaBusy
      modifies `wire, `dmaBusy, `troubles
      ensures !dmaBusy && TransferResult(r)
      ensures r == 0 || r == EAGAIN ==> troubles == old(troubles)
      ensures r != 0 && r != EAGAIN ==> troubles == old(troubles) + [Status(WriteFifo, r)]
      ensures r == 0 ==> wire == old(wire) + AllCompleted(addr, Plan(buf))
      ensures r != 0 ==> Failed(old(wire), wire, addr, Plan(buf), r, k)
    {
      DoneIsResult();
      k := 0;
      ghost var w0 := wire;
      ghost var p := Plan(buf);
      WriteStarts(w0, addr, buf);
      hide *;
      if |buf| == 0 { return 0, 0; }
      var offset: nat := 0;
      if |buf| > 512 {
        r, offset, k := WriteWholeBlocks(addr, buf, w0, p);
        if r != 0 { return; }
      }
      while offset < |buf|
        invariant offset <= |buf| && !dmaBusy && troubles == old(troubles)
        invariant Writing(w0, wire, addr, p, k, buf, offset, false)
      {
        var n := Min(|buf| - offset, 512);
        MinBounds(|buf| - offset, 512);
        ghost var w := wire;
        r := Cmd53WriteChunk(addr, buf[offset..offset + n]);
        ByteCommandDone(w0, w, wire, addr, p, k, buf, offset, n, r);
        if r != 0 { return; }
        offset := offset + n;
        k := k + 1;
      }
      WriteEnds(w0, wire, addr, p, k, buf, offset);
      r := 0;
    }

    /** The block-mode part: as many whole blocks as there are, at most 511 a command. */
    method WriteWholeBlocks(addr: nat, buf: seq<byte>, ghost w0: seq<Issued>, ghost p: seq<Command>)
      returns (r: int, offset: nat, ghost k: nat)
      requires !dmaBusy && Writing(w0, wire, addr, p, 0, buf, 0, true)
      modifies `wire, `dmaBusy, `troubles
      ensures !dmaBusy && TransferResult(r) && offset <= |buf|
      ensures r == 0 || r == EAGAIN ==> troubles == old(troubles)
      ensures r != 0 && r != EAGAIN ==> troubles == old(troubles) + [Status(WriteFifo, r)]
      ensures r == 0 ==> Writing(w0, wire, addr, p, k, buf, offset, false)
      ensures r != 0 ==> Failed(w0, wire, addr, p, r, k)
    {
      DoneIsResult();
      hide Writing, Failed, AtMostOnce, Completed, Command.Legal, TransferResult;
      r, offset, k := 0, 0, 0;
      var remainder: nat := |buf|;
      while remainder >= BLOCK
        invariant r == 0 && offset + remainder == |buf| && !dmaBusy && troubles == old(troubles)
        invariant Writing(w0, wire, addr, p, k, buf, offset, true)
      {
        var chunk := Min(remainder / BLOCK, MAX_BLOCKS) * BLOCK;
        ChunkIsLegal(buf, offset, remainder, chunk);
        ghost var w := wire;
        r := Cmd53WriteBlocks(addr, buf[offset..offset + chunk]);
        BlockCommandDone(w0, w, wire, addr, p, k, buf, offset, chunk, r);
        if r != 0 { return; }
        offset := offset + chunk;
        remainder := remainder - chunk;
        k := k + 1;
      }
      BlocksAreWritten(w0, wire, addr, p, k, buf, offset);
    }

    /** One byte of function 1, or an error; EAGAIN is not among the errors of a CMD52. */
    method ReadByteAtFunc1(reg: nat) returns (value: byte, r: int)
      modifies `readings, `troubles, `polls
      ensures r in {0, -5, -74, -84, ETIMEDOUT}
      ensures troubles == if r == 0 then old(troubles) else old(troubles) + [Status(Register(reg), r)]
      ensures polls == old(polls) + if reg == BLOCK_CNT then 1 else 0
      ensures readings == if r == 0 then old(readings) + [Reading(reg, value)] else old(readings)
    {
      if reg == BLOCK_CNT { polls := polls + 1; }
      value := *;
      r := HardwareStatus(Register(reg));
      if r == 0 { readings := readings + [Reading(reg, value)]; }
    }

    /** One round of the credit gate: up to fifty reads, until one is not zero. */
    method FlowCtrl() returns (credit: nat, r: int)
      modifies `readings, `troubles, `polls
      ensures r in {0, -5, -74, -84, ETIMEDOUT} && old(readings) <= readings && polls == old(polls)
      ensures troubles == if r == 0 then old(troubles) else old(troubles) + [Status(Register(FLOW_CTRL), r)]
      ensures Round(readings[|old(readings)|..], r == 0)
      ensures r == 0 ==> credit == Credit(readings[|readings| - 1])
    {
      credit, r := 0, 0;
      var i := 0;
      while i < FLOW_CTRL_RETRY_COUNT
        invariant 0 <= i <= FLOW_CTRL_RETRY_COUNT && r == 0 && credit == 0
        invariant troubles == old(troubles) && polls == old(polls)
        invariant old(readings) <= readings && |readings| == |old(readings)| + i
        invariant forall j :: |old(readings)| <= j < |readings| ==> readings[j].reg == FLOW_CTRL
        invariant forall j :: |old(readings)| <= j < |readings| ==> Credit(readings[j]) == 0
      {
        var fc, e := ReadByteAtFunc1(FLOW_CTRL);
        if e != 0 { return 0, e; }
        credit := fc % 128;
        if credit != 0 { return; }
        i := i + 1;
      }
    }

    /**
     `send_msg` of the 8801: at most ten rounds of credit reads, then the write.  The write is tried
     exactly if the readings open the gate; otherwise nothing reaches the wire, and the result is
     -110 if the gate gave up, or that of a read that failed before it could.  There is no error but
     EAGAIN without trouble to show for it.
     */
    method SendMsg(buf: seq<byte>) returns (r: int, ghost k: nat)
      requires !dmaBusy
      modifies this
      ensures !dmaBusy && TransferResult(r)
      ensures r == 0 ==> wire == old(wire) + AllCompleted(WR_FIFO, Plan(buf))
      ensures r != 0 ==> Failed(old(wire), wire, WR_FIFO, Plan(buf), r, k)
      ensures Polled(old(readings), readings, GATE_ROUNDS * FLOW_CTRL_RETRY_COUNT)
      ensures var g := GateAfter(readings[|old(readings)|..], |buf|);
              && (r == 0 ==> g.Open?)
              && (g.GaveUp? ==> r == ETIMEDOUT)
              && (!g.Open? ==> wire == old(wire) && r in {-5, -74, -84, ETIMEDOUT})
              && (g.GaveUp? ==> troubles == old(troubles) + [GateClosed])
      ensures polls == old(polls) && (r == 0 || r == EAGAIN ==> troubles == old(troubles))
      ensures r != 0 && r != EAGAIN ==>
                |troubles| == |old(troubles)| + 1 && old(troubles) <= troubles
                && OfSend(troubles[|old(troubles)|]) && ErrnoOf(troubles[|old(troubles)|]) == r
    {
      hide Plan, Completed, AttemptOf, Failed, GateAfter, Round, Polled;
      k := 0;
      NothingYet(wire, WR_FIFO, Plan(buf));
      ghost var before := readings;
      GateStarts(|buf|, before);
      assert readings[|before|..] == [];
      var bufferCnt := 0;
      var retry := 0;
      while retry < 10
        invariant 0 <= retry <= 10 && before <= readings && Polled(before, readings, retry * FLOW_CTRL_RETRY_COUNT)
        invariant GateAfter(readings[|before|..], |buf|) == if retry < 10 then Polling(retry, 0) else GaveUp
        invariant wire == old(wire) && !dmaBusy && troubles == old(troubles) && polls == old(polls)
      {
        var e;
        ghost var t := readings;
        bufferCnt, e := FlowCtrl();
        RoundPolls(before, t, readings, retry, e == 0);
        GateRound(t[|before|..], readings[|t|..], |buf|, retry, e == 0);
        assert readings[|before|..] == t[|before|..] + readings[|t|..];
        if e != 0 { return e, 0; }
        if bufferCnt > 0 && |buf| < bufferCnt * BUFFER_SIZE { break; }
        if retry == 9 {
          troubles := troubles + [GateClosed];
          return ETIMEDOUT, 0;
        }
        retry := retry + 1;
      }
      if bufferCnt <= 0 || |buf| >= bufferCnt * BUFFER_SIZE { return ETIMEDOUT, k; }
      r, k := RwExtHelperWrite(WR_FIFO, buf);
    }

    // ---------- Reading ----------

    /** `cmd53_read_chunk`: byte mode through the data port into `buf[lo..hi]`. */
    method Cmd53ReadChunk(addr: nat, buf: array<byte>, lo: nat, hi: nat) returns (r: int)
      requires lo < hi <= buf.Length && hi - lo <= 512
      modifies `wire, `troubles, buf
      ensures TransferResult(r)
      ensures r == 0 || r == EAGAIN ==> troubles == old(troubles)
      ensures r != 0 && r != EAGAIN ==> troubles == old(troubles) + [Status(ReadFifo, r)]
      ensures SameOutside(buf[..], old(buf[..]), lo, hi)
      ensures r == 0 ==> |wire| == |old(wire)| + 1 && ReadAs(wire[|old(wire)|], addr, ByteMode(buf[..][lo..hi]))
      ensures r == EAGAIN ==> wire == old(wire) && buf[..] == old(buf[..])
      ensures AtMostOneRead(old(wire), wire)
    {
      var inhibited := Fails(ReadFifo, ETIMEDOUT);
      if inhibited { return ETIMEDOUT; }
      var cardInt: bool := *;
      if cardInt { return EAGAIN; }
      hide Or, ReadAs, ReadArg, UnpackWords;
      var count := hi - lo;
      var arg := ArgByte(false, addr / 256 % 8, addr % 256, false, count);
      var before := wire;
      ReadArgIsRead(addr, count);
      hide Decode, ArgByte;
      wire := before + [Issued(arg, 1, count, Pio([]), false)];
      r := HardwareStatus(ReadFifo);
      if r != 0 { return; }
      var words, ok := ReadDataPort(buf, lo, hi);
      wire := before + [Issued(arg, 1, count, Pio(words), false)];
      if !ok { return ETIMEDOUT; }
      r := HardwareStatus(ReadFifo);
      if r != 0 { return; }
      wire := before + [Issued(arg, 1, count, Pio(words), true)];
      assert buf[..][lo..hi] == buf[lo..hi];
      PioRead(addr, buf[lo..hi], words, arg);
      var stillInhibited := Fails(ReadFifo, ETIMEDOUT);
      if stillInhibited { return ETIMEDOUT; }
    }

    /** The data-port loop: word by word, lowest byte first, dropping what the last word has too much. */
    method ReadDataPort(buf: array<byte>, lo: nat, hi: nat) returns (words: seq<u32>, ok: bool)
      requires lo < hi <= buf.Length
      modifies `troubles, buf
      ensures troubles == if ok then old(troubles) else old(troubles) + [Status(ReadFifo, ETIMEDOUT)]
      ensures SameOutside(buf[..], old(buf[..]), lo, hi)
      ensures ok ==> |words| == (hi - lo + 3) / 4 && buf[lo..hi] == UnpackWords(words)[..hi - lo]
    {
      hide UnpackWords, Le32;
      words := [];
      var start := lo;
      while start < hi
        invariant lo <= start <= hi && SameOutside(buf[..], old(buf[..]), lo, hi)
        invariant start - lo == Min(4 * |words|, hi - lo)
        invariant 4 * |words| < hi - lo + 4 && troubles == old(troubles)
        invariant buf[lo..start] == UnpackWords(words)[..start - lo]
        decreases hi - start
      {
        var refused := Fails(ReadFifo, ETIMEDOUT);
        if refused { return words, false; }
        var word: u32 := *;
        var end := Min(start + 4, hi);
        ghost var was := buf[..];
        StoreWord(buf, start, end, word);
        UnpackAppend(words, word);
        FilledNext(was, buf[..], lo, start, end, UnpackWords(words), Le32(word));
        words := words + [word];
        start := end;
      }
      ok := true;
    }

    /** The low bytes of one word, from bit 0 up, into `buf[start..end]`. */
    method StoreWord(buf: array<byte>, start: nat, end: nat, word: u32)
      requires start <= end <= buf.Length && end - start <= 4
      modifies buf
      ensures forall k :: 0 <= k < buf.Length && !(start <= k < end) ==> buf[k] == old(buf[k])
      ensures forall k :: start <= k < end ==> buf[k] == Le32(word)[k - start]
    {
      hide Le32;
      var j := start;
      while j < end
        invariant start <= j <= end
        invariant forall k :: 0 <= k < buf.Length && !(start <= k < j) ==> buf[k] == old(buf[k])
        invariant forall k :: start <= k < j ==> buf[k] == Le32(word)[k - start]
      {
        buf[j] := Le32(word)[j - start];
        j := j + 1;
      }
    }

    /** `cmd53_read_blocks`: block mode into the DMA buffer, copied out on success only. */
    method Cmd53ReadBlocks(addr: nat, buf: array<byte>, lo: nat, hi: nat) returns (r: int)
      requires lo < hi <= buf.Length && BlockMode(BLOCK, buf[..][lo..hi]).Legal() && !dmaBusy
      modifies `wire, `dmaBusy, `troubles, buf
      ensures !dmaBusy && TransferResult(r)
      ensures r == 0 || r == EAGAIN ==> troubles == old(troubles)
      ensures r != 0 && r != EAGAIN ==> troubles == old(troubles) + [Status(ReadFifo, r)]
      ensures SameOutside(buf[..], old(buf[..]), lo, hi)
      ensures r == 0 ==> |wire| == |old(wire)| + 1 && ReadAs(wire[|old(wire)|], addr, BlockMode(BLOCK, buf[..][lo..hi]))
      ensures r == EAGAIN ==> wire == old(wire) && buf[..] == old(buf[..])
      ensures AtMostOneRead(old(wire), wire)
    {
      var inhibited := Fails(ReadFifo, ETIMEDOUT);
      if inhibited { return ETIMEDOUT; }
      var cardInt: bool := *;
      if cardInt { return EAGAIN; }
      var count := hi - lo;
      BlockRead(addr, buf[..][lo..hi]);
      hide Or, ReadAs, ReadArg, Decode, Command.Legal;
      var ok := AllocDmaBuffer(count);
      if !ok { return ENOMEM; }
      var blocks := count / BLOCK;
      var arg := ArgBlock(false, addr / 256 % 8, addr % 256, false, blocks);
      hide ArgBlock;
      var before := wire;
      var data := CardData(count);
      wire := before + [Issued(arg, blocks, BLOCK, Dma(data), false)];
      r := DmaStatus(ReadFifo);
      if r == 0 {
        CopyInto(buf, lo, data);
      }
      dmaBusy := false;
      if r != 0 { return; }
      wire := before + [Issued(arg, blocks, BLOCK, Dma(data), true)];
      assert buf[..][lo..hi] == buf[lo..hi] == data;
      DmaRead(addr, data, arg);
      var stillInhibited := Fails(ReadFifo, ETIMEDOUT);
      if stillInhibited { return ETIMEDOUT; }
    }

    /** Whatever the card sends. */
    method CardData(count: nat) returns (data: seq<byte>)
      ensures |data| == count
    {
      data :| |data| == count by { assert |Zeros(count)| == count; }
    }

    method CopyInto(buf: array<byte>, lo: nat, data: seq<byte>)
      requires lo + |data| <= buf.Length
      modifies buf
      ensures buf[lo..lo + |data|] == data && SameOutside(buf[..], old(buf[..]), lo, lo + |data|)
    {
      forall k | 0 <= k < |data| { buf[lo + k] := data[k]; }
    }

    /**
     `sdio_io_rw_ext_helper_read`.  On success the commands issued are the plan of the bytes now in
     the buffer, each answered with just its bytes.  On an error the front of the buffer is what the
     commands completed so far took from the card, and EAGAIN leaves only those on the wire.
     */
    method RwExtHelperRead(addr: nat, buf: array<byte>, size: nat)
      returns (r: int, ghost w: seq<Issued>, ghost p: seq<Command>)
      requires !dmaBusy && size <= buf.Length
      modifies `wire, `dmaBusy, `troubles, buf
      ensures !dmaBusy && TransferResult(r)
      ensures r == 0 || r == EAGAIN ==> troubles == old(troubles)
      ensures r != 0 && r != EAGAIN ==> troubles == old(troubles) + [Status(ReadFifo, r)]
      ensures buf[..][size..] == old(buf[..][size..])
      ensures r == 0 ==> wire == old(wire) + w && AllReadAs(w, addr, p) && p == Plan(buf[..][..size])
      ensures r != 0 ==> ReadStopped(old(wire), wire, addr, w, p, buf[..][..size], r == EAGAIN)
    {
      DoneIsResult();
      hide Filling, ReadStopped, ReadAs, AllReadAs, SameOutside, AtMostOneRead, Plan, TransferResult;
      w, p := [], [];
      ghost var w0, tail := wire, buf[..][size..];
      FillStart(w0, addr, buf[..], size);
      var offset: nat := 0;
      if size > 512 {
        r, offset, w, p := ReadWholeBlocks(addr, buf, size, w0, tail);
        if r != 0 { return; }
      }
      while offset < size
        invariant offset <= size && !dmaBusy && troubles == old(troubles)
        invariant Filling(w0, wire, addr, w, p, buf[..], offset, size, false, tail)
        decreases size - offset
      {
        var n := Min(size - offset, 512);
        MinBounds(size - offset, 512);
        ghost var w1, b1 := wire, buf[..];
        r := Cmd53ReadChunk(addr, buf, offset, offset + n);
        ghost var b2 := buf[..];
        FillStep(w0, w1, wire, addr, w, p, b1, b2, offset, offset + n, size, false, tail, r == EAGAIN);
        if r != 0 { return; }
        w, p := w + [wire[|w1|]], p + [ByteMode(b2[offset..offset + n])];
        offset := offset + n;
      }
      FillEnd(w0, wire, addr, w, p, buf[..], size, tail);
      r := 0;
    }

    /** The block-mode part of a read. */
    method ReadWholeBlocks(addr: nat, buf: array<byte>, size: nat, ghost w0: seq<Issued>, ghost tail: seq<byte>)
      returns (r: int, offset: nat, ghost w: seq<Issued>, ghost p: seq<Command>)
      requires !dmaBusy && size <= buf.Length && Filling(w0, wire, addr, [], [], buf[..], 0, size, true, tail)
      modifies `wire, `dmaBusy, `troubles, buf
      ensures r == 0 || r == EAGAIN ==> troubles == old(troubles)
      ensures r != 0 && r != EAGAIN ==> troubles == old(troubles) + [Status(ReadFifo, r)]
      ensures !dmaBusy && TransferResult(r) && offset <= size && buf[..][size..] == tail
      ensures r == 0 ==> Filling(w0, wire, addr, w, p, buf[..], offset, size, false, tail)
      ensures r != 0 ==> ReadStopped(w0, wire, addr, w, p, buf[..][..size], r == EAGAIN)
    {
      DoneIsResult();
      hide Filling, ReadStopped, ReadAs, SameOutside, AtMostOneRead, Command.Legal, TransferResult;
      r, offset, w, p := 0, 0, [], [];
      var remainder: nat := size;
      while remainder >= BLOCK
        invariant r == 0 && offset + remainder == size && !dmaBusy && troubles == old(troubles)
        invariant Filling(w0, wire, addr, w, p, buf[..], offset, size, true, tail)
      {
        var chunk := Min(remainder / BLOCK, MAX_BLOCKS) * BLOCK;
        ChunkIsLegal(buf[..], offset, remainder, chunk);
        ghost var w1, b1 := wire, buf[..];
        r := Cmd53ReadBlocks(addr, buf, offset, offset + chunk);
        ghost var b2 := buf[..];
        FillStep(w0, w1, wire, addr, w, p, b1, b2, offset, offset + chunk, size, true, tail, r == EAGAIN);
        if r != 0 { return; }
        w, p := w + [wire[|w1|]], p + [BlockMode(BLOCK, b2[offset..offset + chunk])];
        offset := offset + chunk;
        remainder := remainder - chunk;
      }
      FillTail(w0, wire, addr, w, p, buf[..], offset, size, tail);
    }

    /**
     `recv_pkt` of the 8801: as many bytes as the card's registers announce, or as the caller asked
     for if that is less.  A size above the buffer is refused before anything is read.
     */
    method RecvPkt(buf: array<byte>, n: nat)
      returns (r: Result<nat>, ghost w: seq<Issued>, ghost p: seq<Command>, ghost asked: nat)
      requires !dmaBusy
      modifies this, buf
      ensures !dmaBusy && old(readings) <= readings
      ensures n > buf.Length ==> r == Err(EINVAL) && wire == old(wire) && readings == old(readings)
      ensures r.Ok? ==> n <= buf.Length && Some(r.value) == Expected(readings[|old(readings)|..], n)
      ensures r.Ok? ==> wire == old(wire) + w && AllReadAs(w, RD_FIFO, Plan(buf[..][..r.value]))
      ensures r.Ok? ==> buf[..][r.value..] == old(buf[..][r.value..])
      ensures r.Err? ==> asked <= n
      ensures r.Err? && n <= buf.Length ==> r.errno != 0 && TransferResult(r.errno)
      ensures r.Ok? || r == Err(EAGAIN) || n > buf.Length ==> troubles == old(troubles)
      ensures r.Err? && r != Err(EAGAIN) && n <= buf.Length ==>
                |troubles| == |old(troubles)| + 1 && old(troubles) <= troubles
                && !OfSend(troubles[|old(troubles)|]) && ErrnoOf(troubles[|old(troubles)|]) == r.errno
      ensures n <= buf.Length ==> polls == old(polls) + 1
      ensures r.Err? && wire != old(wire) ==>
                ReadStopped(old(wire), wire, RD_FIFO, w, p, Front(buf[..], asked), r.errno == EAGAIN)
    {
      w, p, asked := [], [], 0;
      if n > buf.Length { return Err(EINVAL), w, p, asked; }
      TroubleOfReads();
      hide *;
      ghost var before := readings;
      var blockCnt, e := ReadByteAtFunc1(BLOCK_CNT);
      if e != 0 { return Err(e), w, p, asked; }
      if blockCnt == 0 {
        PlanOfNothing(RD_FIFO, buf[..][..0]);
        NothingExpected(before, readings, n);
        return Ok(0), w, p, asked;
      }
      var dataLen: nat := BLOCK * blockCnt;
      if blockCnt >= BYTEMODE_THRESH {
        var words, e' := ReadByteAtFunc1(BYTEMODE_LEN);
        if e' != 0 { return Err(e'), w, p, asked; }
        dataLen := 4 * (words as int);
        WordsExpected(before, readings, n, blockCnt, words);
      } else {
        BlocksExpected(before, readings, n, blockCnt);
      }
      var readLen := Min(n, dataLen);
      MinBounds(n, dataLen);
      asked := readLen;
      FrontIs(buf[..], asked);
      var status;
      status, w, p := RwExtHelperRead(RD_FIFO, buf, readLen);
      FrontIs(buf[..], asked);
      if status != 0 { return Err(status), w, p, asked; }
      r := Ok(readLen);
    }
  }

  lemma TroubleOfReads()
    ensures forall op: Op, e: int {:trigger Status(op, e)} :: ErrnoOf(Status(op, e)) == e
    ensures forall e: int :: !OfSend(Status(ReadFifo, e)) && !OfSend(Status(Register(BLOCK_CNT), e))
    ensures forall e: int :: !OfSend(Status(Register(BYTEMODE_LEN), e))
    ensures EAGAIN !in {0, -5, -74, -84, ETIMEDOUT} && BYTEMODE_LEN != BLOCK_CNT
  {
  }

  /** The length that the registers read for a receive announce. */
  function AnnouncedBy(s: seq<Reading>): Option<nat> {
    if |s| == 1 && s[0].reg == 0x12 && s[0].value < BYTEMODE_THRESH then Some(Announced(s[0].value, 0))
    else if |s| == 2 && s[0].reg == 0x12 && s[0].value >= BYTEMODE_THRESH && s[1].reg == 0x02 then
      Some(Announced(s[0].value, s[1].value))
    else None
  }

  /** The length of a receive: what is announced, but no more than asked for. */
  function Expected(s: seq<Reading>, n: nat): Option<nat> {
    if AnnouncedBy(s).Some? then Some(Min(n, AnnouncedBy(s).value)) else None
  }

  lemma NothingExpected(s: seq<Reading>, s': seq<Reading>, n: nat)
    requires s' == s + [Reading(BLOCK_CNT, 0)]
    ensures Expected(s'[|s|..], n) == Some(0)
  {
  }

  lemma BlocksExpected(s: seq<Reading>, s': seq<Reading>, n: nat, blockCnt: byte)
    requires s' == s + [Reading(BLOCK_CNT, blockCnt)] && blockCnt < BYTEMODE_THRESH
    ensures Expected(s'[|s|..], n) == Some(Min(n, BLOCK * blockCnt))
  {
  }

  lemma WordsExpected(s: seq<Reading>, s': seq<Reading>, n: nat, blockCnt: byte, words: byte)
    requires s' == s + [Reading(BLOCK_CNT, blockCnt)] + [Reading(BYTEMODE_LEN, words)] && blockCnt >= BYTEMODE_THRESH
    ensures Expected(s'[|s|..], n) == Some(Min(n, 4 * words))
  {
  }

  /** The first `n` elements, or all there are. */
  function Front<T>(s: seq<T>, n: nat): seq<T> { if n <= |s| then s[..n] else s }

  lemma FrontIs<T>(s: seq<T>, n: nat)
    ensures n <= |s| ==> Front(s, n) == s[..n]
  {
  }

  lemma MinBounds(a: nat, b: nat)
    ensures 0 <= Min(a, b) <= a && Min(a, b) <= b
    ensures a > 0 && b > 0 ==> Min(a, b) > 0
  {
  }

  /** A block-mode command on the wire, before and after it was carried out. */
  lemma BlockCommand(addr: nat, buf: seq<byte>)
    ensures var c := BlockMode(BLOCK, buf);
            var i := Issued(c.Arg(addr), |buf| / BLOCK, BLOCK, Dma(buf), true);
            i == Completed(addr, c) && AttemptOf(i, addr, c) && AttemptOf(i.(complete := false), addr, c)
  {
    hide Command.Arg;
  }

  lemma FifoParts()
    ensures WR_FIFO >= 0 && RD_FIFO >= 0
    ensures WR_FIFO / 256 % 8 == RD_FIFO / 256 % 8 == 1 && WR_FIFO % 256 == 7 && RD_FIFO % 256 == 8
  {
  }

  /** Sends go to register 7 of function 1, at a fixed address. */
  lemma SendsGoTo(c: Command)
    requires c.Legal() && (c.BlockMode? ==> c.blksz == BLOCK)
    ensures var a := Decode(Completed(WR_FIFO, c).arg); a.write && a.fn == 1 && a.addr == 7 && !a.incrAddr
  {
    hide *;
    FifoParts();
    CompletedDelivers(WR_FIFO, c);
  }

  /** Receives come from its register 8. */
  lemma ReceivesComeFrom(i: Issued, c: Command)
    requires c.Legal() && (c.BlockMode? ==> c.blksz == BLOCK) && ReadAs(i, RD_FIFO, c)
    ensures var a := Decode(i.arg); !a.write && a.fn == 1 && a.addr == 8 && !a.incrAddr
  {
    hide *;
    FifoParts();
    ReadNames(i, RD_FIFO, c);
  }

  lemma NothingYet(w: seq<Issued>, addr: nat, p: seq<Command>)
    ensures forall r :: r != EAGAIN ==> Failed(w, w, addr, p, r, 0)
  {
    hide Completed, AttemptOf;
    assert w + AllCompleted(addr, p[..0]) == w;
  }

  lemma GateStarts(len: nat, s: seq<Reading>)
    ensures GateAfter([], len) == Polling(0, 0) && Polled(s, s, 0)
  {
  }

  lemma RoundPolls(before: seq<Reading>, t: seq<Reading>, s: seq<Reading>, rounds: nat, done: bool)
    requires Polled(before, t, rounds * FLOW_CTRL_RETRY_COUNT) && t <= s && Round(s[|t|..], done)
    ensures before <= t <= s && Polled(before, s, (rounds + 1) * FLOW_CTRL_RETRY_COUNT)
    ensures rounds < GATE_ROUNDS ==> Polled(before, s, GATE_ROUNDS * FLOW_CTRL_RETRY_COUNT)
  {
    assert forall j :: |t| <= j < |s| ==> s[j] == s[|t|..][j - |t|];
  }

  lemma NextCommand(p: seq<Command>, k: nat, c: Command, rest: seq<Command>)
    requires k <= |p| && p[k..] == [c] + rest
    ensures k < |p| && p[k] == c && p[k + 1..] == rest
  {
    assert |p[k..]| >= 1;
    assert p[k] == p[k..][0];
    assert p[k + 1..] == p[k..][1..];
  }

  lemma NextBlockCommand(p: seq<Command>, k: nat, buf: seq<byte>, offset: nat, chunk: nat)
    requires offset + BLOCK <= |buf| && k <= |p| && p[k..] == BlockPlan(buf[offset..], BLOCK)
    requires chunk == Min((|buf| - offset) / BLOCK, MAX_BLOCKS) * BLOCK
    ensures chunk > 0 && offset + chunk <= |buf| && k < |p|
    ensures p[k] == BlockMode(BLOCK, buf[offset..offset + chunk]) && p[k].Legal()
    ensures p[k + 1..] == BlockPlan(buf[offset + chunk..], BLOCK)
  {
    var rest := buf[offset..];
    ChunkBounds(|rest|, BLOCK, chunk / BLOCK);
    assert rest[..chunk] == buf[offset..offset + chunk] && rest[chunk..] == buf[offset + chunk..];
    NextCommand(p, k, BlockMode(BLOCK, rest[..chunk]), BlockPlan(rest[chunk..], BLOCK));
  }

  lemma NextByteCommand(p: seq<Command>, k: nat, buf: seq<byte>, offset: nat, n: nat)
    requires offset < |buf| && k <= |p| && p[k..] == BytePlan(buf[offset..])
    requires n == Min(|buf| - offset, 512)
    ensures k < |p| && p[k] == ByteMode(buf[offset..offset + n])
    ensures p[k + 1..] == BytePlan(buf[offset + n..])
  {
    var rest := buf[offset..];
    assert rest[..n] == buf[offset..offset + n] && rest[n..] == buf[offset + n..];
    NextCommand(p, k, ByteMode(rest[..n]), BytePlan(rest[n..]));
  }

  /** `w` is `w0` followed by the first `k` planned commands, carried out. */
  predicate Done(w0: seq<Issued>, w: seq<Issued>, addr: nat, p: seq<Command>, k: nat) {
    k <= |p| && w == w0 + AllCompleted(addr, p[..k])
  }

  /** `Done`, with the plan of the bytes from `offset` on still to come. */
  predicate Writing(w0: seq<Issued>, w: seq<Issued>, addr: nat, p: seq<Command>, k: nat, buf: seq<byte>,
                    offset: nat, blocks: bool) {
    && Done(w0, w, addr, p, k) && offset <= |buf|
    && p[k..] == if blocks then BlockPlan(buf[offset..], BLOCK) else BytePlan(buf[offset..])
  }

  lemma WriteStarts(w0: seq<Issued>, addr: nat, buf: seq<byte>)
    ensures Writing(w0, w0, addr, Plan(buf), 0, buf, 0, |buf| > 512)
    ensures buf == [] ==> w0 == w0 + AllCompleted(addr, Plan(buf))
  {
    assert buf[0..] == buf;
  }

  /** A block-mode command of the plan: carried out, or the end of the write. */
  lemma BlockCommandDone(w0: seq<Issued>, w: seq<Issued>, w': seq<Issued>, addr: nat, p: seq<Command>, k: nat,
                         buf: seq<byte>, offset: nat, chunk: nat, r: int)
    requires Writing(w0, w, addr, p, k, buf, offset, true) && offset + BLOCK <= |buf|
    requires chunk == Min((|buf| - offset) / BLOCK, MAX_BLOCKS) * BLOCK && offset + chunk <= |buf|
    requires var c := BlockMode(BLOCK, buf[offset..offset + chunk]);
             AtMostOnce(w, w', addr, c) && (r == 0 ==> w' == w + [Completed(addr, c)])
    requires r == EAGAIN ==> w' == w
    ensures r == 0 ==> Writing(w0, w', addr, p, k + 1, buf, offset + chunk, true)
    ensures r != 0 ==> Failed(w0, w', addr, p, r, k)
  {
    hide BlockPlan, Done, Failed, AtMostOnce, Completed;
    NextBlockCommand(p, k, buf, offset, chunk) by { assert k <= |p| by { DoneBound(w0, w, addr, p, k); } }
    DoneNext(w0, w, w', addr, p, k, r);
  }

  lemma ByteCommandDone(w0: seq<Issued>, w: seq<Issued>, w': seq<Issued>, addr: nat, p: seq<Command>, k: nat,
                        buf: seq<byte>, offset: nat, n: nat, r: int)
    requires Writing(w0, w, addr, p, k, buf, offset, false) && offset < |buf|
    requires n == Min(|buf| - offset, 512) && offset + n <= |buf|
    requires var c := ByteMode(buf[offset..offset + n]);
             AtMostOnce(w, w', addr, c) && (r == 0 ==> w' == w + [Completed(addr, c)])
    requires r == EAGAIN ==> w' == w
    ensures r == 0 ==> Writing(w0, w', addr, p, k + 1, buf, offset + n, false)
    ensures r != 0 ==> Failed(w0, w', addr, p, r, k)
  {
    hide BytePlan, Done, Failed, AtMostOnce, Completed;
    NextByteCommand(p, k, buf, offset, n) by { assert k <= |p| by { DoneBound(w0, w, addr, p, k); } }
    DoneNext(w0, w, w', addr, p, k, r);
  }

  lemma DoneBound(w0: seq<Issued>, w: seq<Issued>, addr: nat, p: seq<Command>, k: nat)
    requires Done(w0, w, addr, p, k)
    ensures k <= |p|
  {
  }

  lemma BlocksAreWritten(w0: seq<Issued>, w: seq<Issued>, addr: nat, p: seq<Command>, k: nat, buf: seq<byte>,
                         offset: nat)
    requires Writing(w0, w, addr, p, k, buf, offset, true) && |buf| < offset + BLOCK
    ensures Writing(w0, w, addr, p, k, buf, offset, false)
  {
    hide BytePlan;
  }

  lemma WriteEnds(w0: seq<Issued>, w: seq<Issued>, addr: nat, p: seq<Command>, k: nat, buf: seq<byte>, offset: nat)
    requires Writing(w0, w, addr, p, k, buf, offset, false) && offset >= |buf|
    ensures w == w0 + AllCompleted(addr, p)
  {
    assert p[k..] == [];
    assert p[..k] == p;
  }

  lemma DoneNext(w0: seq<Issued>, w: seq<Issued>, w': seq<Issued>, addr: nat, p: seq<Command>, k: nat, r: int)
    requires Done(w0, w, addr, p, k) && k < |p|
    requires r == 0 ==> w' == w + [Completed(addr, p[k])]
    requires r == EAGAIN ==> w' == w
    requires AtMostOnce(w, w', addr, p[k])
    ensures r == 0 ==> Done(w0, w', addr, p, k + 1)
    ensures r != 0 ==> Failed(w0, w', addr, p, r, k)
  {
    hide Completed, AttemptOf;
    assert AllCompleted(addr, p[..k + 1]) == AllCompleted(addr, p[..k]) + [Completed(addr, p[k])];
  }

  /**
   For a write that is a single command, an error of any kind leaves at most one attempt on the
   wire, and EAGAIN leaves none: repeating the write after EAGAIN cannot send it twice.
   */
  lemma SingleCommandWrite(w: seq<Issued>, w': seq<Issued>, addr: nat, data: seq<byte>, r: int)
    requires |Plan(data)| == 1 && WriteOutcome(w, w', addr, data, r)
    ensures r == 0 ==> w' == w + [Completed(addr, Plan(data)[0])]
    ensures r == EAGAIN ==> w' == w
    ensures AtMostOnce(w, w', addr, Plan(data)[0])
  {
    var p := Plan(data);
    CompletedIsAttempt(addr, p[0]);
    hide Plan, Completed, AttemptOf;
    assert p == [p[0]];
    if r != 0 {
      var k: nat :| Failed(w, w', addr, p, r, k);
      if k == 0 {
        assert AllCompleted(addr, p[..0]) == [];
      } else {
        assert p[..k] == p;
      }
    }
  }

  /** Exactly the writes that plan at most one command are safe to repeat after EAGAIN. */
  lemma EagainIsCleanIffSingle(addr: nat, data: seq<byte>)
    ensures (forall w, w' :: WriteOutcome(w, w', addr, data, EAGAIN) ==> w' == w) <==> |Plan(data)| <= 1
  {
    var p := Plan(data);
    hide Plan, Completed, AttemptOf, AtMostOnce;
    if |p| <= 1 {
      forall w, w' | WriteOutcome(w, w', addr, data, EAGAIN) ensures w' == w {
        var k: nat :| Failed(w, w', addr, p, EAGAIN, k);
        assert AllCompleted(addr, p[..k]) == [];
      }
    } else {
      var w: seq<Issued> := [];
      var w' := w + AllCompleted(addr, p[..1]);
      assert Failed(w, w', addr, p, EAGAIN, 1);
      assert WriteOutcome(w, w', addr, data, EAGAIN) && |w'| == 1;
    }
  }
}
