/**
 The receiving side put together (driver/bsp/src/sdio/flow.rs, `poll_rx_one`): one receive through
 the SDIO host, demultiplexed into the command manager.
 */
module RxPath {
  import opened Wrappers
  import opened Bytes
  import opened Transfer
  import opened ReadPlan
  import opened SdioHost
  import opened CmdMgr
  import opened RxDemux

  /**
   Success reports the frames of the bytes the card sent, which one command at most took from it,
   and the manager follows them.  After an error the manager is as it was; after EAGAIN, on which
   callers poll again, the card still has every byte.
   */
  method PollRxOnce(host: Host, mgr: RwnxCmdMgr) returns (r: Result<()>, reports: seq<Report>, ghost w: seq<Issued>)
    requires mgr.Valid() && !host.dmaBusy
    modifies host, mgr, mgr.slots
    ensures mgr.Valid() && !host.dmaBusy
    ensures old(host.wire) <= host.wire && WritesOf(host.wire) == WritesOf(old(host.wire))
    ensures old(host.readings) <= host.readings
    ensures r.Ok? ==> host.wire == old(host.wire) + w && |w| <= 1
    ensures r.Ok? ==> Some(|CardStream(w)|) == Expected(host.readings[|old(host.readings)|..], 512)
    ensures r.Ok? ==> reports == Demux(CardStream(w), 0) && mgr.Value() == Deliver(old(mgr.Value()), reports)
    ensures r.Err? ==> reports == [] && mgr.Value() == old(mgr.Value())
    ensures |host.wire| <= |old(host.wire)| + 1
    ensures r == Err(-11) ==> host.wire == old(host.wire)
    ensures host.polls == old(host.polls) + 1
    ensures r.Ok? || r == Err(EAGAIN) ==> host.troubles == old(host.troubles)
    ensures r.Err? && r != Err(EAGAIN) ==>
              |host.troubles| == |old(host.troubles)| + 1 && old(host.troubles) <= host.troubles
              && !OfSend(host.troubles[|old(host.troubles)|]) && ErrnoOf(host.troubles[|old(host.troubles)|]) == r.errno
  {
    ghost var m := mgr.Value();
    assert m.Valid();
    hide WritesOf, IsWrite, OfSend, ErrnoOf;
    hide Demux, Deliver, RwnxCmdMgr.Value, RwnxCmdMgr.Valid, AllReadAs, CardStream, ReadStopped, Plan, Expected, Front;
    reports, w := [], [];
    var buf := new byte[IPC_RX_BUF_SIZE](_ => 0);
    ghost var w0 := host.wire;
    ghost var p, asked;
    var n;
    n, w, p, asked := host.RecvPkt(buf, IPC_RX_BUF_SIZE);
    if n.Err? {
      if host.wire != w0 {
        FrontFits(buf[..], asked);
        StoppedBeforeAny(w0, host.wire, RD_FIFO, w, p, Front(buf[..], asked), n.errno == EAGAIN);
        OneRead(w0, host.wire);
      }
      return Err(n.errno), [], w;
    }
    ExpectedFits(host.readings[|old(host.readings)|..], IPC_RX_BUF_SIZE);
    ghost var data := buf[..][..n.value];
    ReceivedAtOnce(w0, w, data);
    if n.value == 0 {
      NothingToDo(data, m);
      return Ok(()), [], w;
    }
    assert buf[..n.value] == data;
    reports := PollRxOne(buf[..n.value], mgr);
    r := Ok(());
  }

  lemma FrontFits(s: seq<byte>, n: nat)
    requires n <= |s|
    ensures |Front(s, n)| == n
  {
  }

  lemma ExpectedFits(s: seq<Reading>, n: nat)
    ensures Expected(s, n).Some? ==> Expected(s, n).value <= n
  {
  }

  /** A receive that fits the buffer of the receive thread is one command, or none. */
  lemma ReceivedAtOnce(w0: seq<Issued>, w: seq<Issued>, data: seq<byte>)
    requires AllReadAs(w, RD_FIFO, Plan(data)) && |data| <= IPC_RX_BUF_SIZE
    ensures |w| <= 1 && CardStream(w) == data && WritesOf(w0 + w) == WritesOf(w0)
  {
    ReadsAreNoWrites(w, RD_FIFO, Plan(data));
    OnlyWrites(w);
    WritesOfAppend(w0, w);
    hide WritesOf, IsWrite, CardStream;
    SingleCommand(data);
    ReadsRefineStream(w, RD_FIFO, data);
  }

  lemma OneRead(w0: seq<Issued>, w: seq<Issued>)
    requires AtMostOneRead(w0, w)
    ensures WritesOf(w) == WritesOf(w0)
  {
    if w != w0 {
      assert w[..|w| - 1] == w0;
    }
  }

  /**
   Frames and a short tail that the card announces with its registers: one poll reports exactly
   those frames if and only if they end within the 512 bytes that it reads.
   */
  lemma PollReportsIffWithinCut(frames: seq<Frame>, tail: seq<byte>, s: seq<Reading>, stream: seq<byte>)
    requires AllValid(frames) && |tail| < 16
    requires AnnouncedBy(s) == Some(|EncodeAll(frames) + tail|)
    requires Some(|stream|) == Expected(s, IPC_RX_BUF_SIZE) && stream <= EncodeAll(frames) + tail
    ensures Demux(stream, 0) == ReportedAll(frames, 0) <==> |EncodeAll(frames)| <= IPC_RX_BUF_SIZE
  {
    CutDemux(frames, tail, IPC_RX_BUF_SIZE);
    hide Demux, EncodeAll, ReportedAll, AllValid, AnnouncedBy;
    var sent := EncodeAll(frames) + tail;
    assert stream == sent[..|stream|];
  }

  /**
   The usual announcement, frames filled up with zeros: one poll reports exactly those frames if and
   only if they end within the 512 bytes that it reads and it reads fewer than 63 zeros behind them.
   */
  lemma PollOfZeroFilled(frames: seq<Frame>, k: nat, s: seq<Reading>, stream: seq<byte>)
    requires AllValid(frames)
    requires AnnouncedBy(s) == Some(|EncodeAll(frames)| + k)
    requires Some(|stream|) == Expected(s, IPC_RX_BUF_SIZE) && stream <= EncodeAll(frames) + Zeros(k)
    ensures Demux(stream, 0) == ReportedAll(frames, 0)
       <==> |EncodeAll(frames)| <= IPC_RX_BUF_SIZE && |stream| - |EncodeAll(frames)| < 63
  {
    hide Demux, EncodeAll, ReportedAll, AllValid, AnnouncedBy, Zeros;
    var sent := EncodeAll(frames) + Zeros(k);
    var n := Min(IPC_RX_BUF_SIZE, |sent|);
    assert |stream| == n && stream == sent[..n];
    CutZeros(frames, k, IPC_RX_BUF_SIZE);
  }

  lemma NothingToDo(data: seq<byte>, m: Mgr)
    requires data == [] && m.Valid()
    ensures Demux(data, 0) == [] && Deliver(m, []) == m
  {
  }
}
