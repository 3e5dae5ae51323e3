/** Demultiplexing of a received buffer (driver/bsp/src/sdio/flow.rs, `poll_rx_one`). */
module RxDemux {
  import opened Wrappers
  import opened Bytes
  import opened CmdMgr

  const SDIO_TYPE_CFG_CMD_RSP: byte := 0x11
  const RX_HWHRD_LEN_DATA := 60
  const IPC_RX_BUF_SIZE := 512

  /** What one step reports: a data slice of the buffer, or a confirmation with its parameters. */
  datatype Report =
    | DataFrame(off: nat, len: nat)
    | CfmFrame(off: nat, len: nat, id: u16, paramOff: nat, param: seq<byte>)

  /** The configuration bit (0x10) of a type byte. */
  predicate IsConfig(typeByte: byte) { typeByte / 16 % 2 == 1 }

  /** In every block of thirty-two values the upper sixteen are configuration. */
  lemma IsConfigMeans(typeByte: byte)
    ensures IsConfig(typeByte) <==> 16 <= typeByte % 32
  {
  }

  /** A parsed frame: how many bytes it takes and what to report. */
  datatype Parsed = Parsed(total: nat, report: Report)

  /** `parse_one_cfm_at`: with the 4-byte prefix, or failing that the bare 8-byte header. */
  function ParseOneCfmAt(buf: seq<byte>, offset: nat): (p: Option<Parsed>)
    ensures p.Some? ==> 8 < p.value.total && offset + p.value.total <= |buf|
  {
    if offset + 16 > |buf| then None
    else
      var plen := U16At(buf, offset + 10);
      if buf[offset + 2] % 128 == SDIO_TYPE_CFG_CMD_RSP && plen <= 256 && offset + 16 + plen <= |buf| then
        Some(Parsed(16 + plen, CfmFrame(offset, 16 + plen, U16At(buf, offset + 4), offset + 16,
                                        buf[offset + 16..offset + 16 + plen])))
      else
        var blen := U16At(buf, offset + 6);
        if 0 < blen <= 256 && offset + 8 + blen <= |buf| then
          Some(Parsed(8 + blen, CfmFrame(offset, 8 + blen, U16At(buf, offset), offset + 8,
                                         buf[offset + 8..offset + 8 + blen])))
        else None
  }

  /** A data frame at `offset`, if the type byte says so and the aligned frame is all there. */
  function ParseDataAt(buf: seq<byte>, offset: nat): (p: Option<Parsed>)
    ensures p.Some? ==> 3 < p.value.total && offset + p.value.total <= |buf|
  {
    if offset + 3 > |buf| || IsConfig(buf[offset + 2]) then None
    else
      var aggrLen := U16At(buf, offset) + RX_HWHRD_LEN_DATA;
      var total := 3 + RoundUp4(aggrLen);
      if offset + total <= |buf| then Some(Parsed(total, DataFrame(offset, 3 + aggrLen))) else None
  }

  function ParseAt(buf: seq<byte>, offset: nat): (p: Option<Parsed>)
    ensures p.Some? ==> 3 < p.value.total && offset + p.value.total <= |buf|
  {
    var d := ParseDataAt(buf, offset);
    if d.Some? then d else ParseOneCfmAt(buf, offset)
  }

  /** Everything reported from `offset` on. */
  function Demux(buf: seq<byte>, offset: nat): seq<Report>
    decreases |buf| - offset
  {
    if offset >= |buf| then []
    else
      match ParseAt(buf, offset)
      case None => []
      case Some(p) => [p.report] + Demux(buf, offset + p.total)
  }

  /** The manager's reaction to one report. */
  function DeliverOne(m: Mgr, r: Report): (m': Mgr)
    requires m.Valid()
    ensures m'.Valid()
  {
    if r.CfmFrame? then OnCfmKeepsValid(m, r.id, r.param); OnCfm(m, r.id, r.param) else m
  }

  /** The manager after all reports, in order. */
  function Deliver(m: Mgr, reports: seq<Report>): (m': Mgr)
    requires m.Valid()
    ensures m'.Valid()
    decreases |reports|
  {
    if reports == [] then m else Deliver(DeliverOne(m, reports[0]), reports[1..])
  }

  /** The receive loop over the bytes read, driving the command manager. */
  method PollRxOne(buf: seq<byte>, mgr: RwnxCmdMgr) returns (reports: seq<Report>)
    requires mgr.Valid()
    modifies mgr, mgr.slots
    ensures mgr.Valid()
    ensures reports == Demux(buf, 0)
    ensures mgr.Value() == Deliver(old(mgr.Value()), reports)
  {
    hide OnCfm, Mgr.Valid, ParseAt;
    reports := [];
    var offset: nat := 0;
    while offset < |buf|
      invariant offset <= |buf| && mgr.Valid()
      invariant Demux(buf, 0) == reports + Demux(buf, offset)
      invariant mgr.Value() == Deliver(old(mgr.Value()), reports)
      decreases |buf| - offset
    {
      var p := ParseAt(buf, offset);
      if p.None? {
        assert reports + [] == reports;
        break;
      }
      var r := p.value.report;
      DeliverSnoc(old(mgr.Value()), reports, r);
      if r.CfmFrame? {
        mgr.OnCfmMsg(r.id, r.param);
      }
      assert reports + [r] + Demux(buf, offset + p.value.total) == reports + Demux(buf, offset);
      reports := reports + [r];
      offset := offset + p.value.total;
    }
    assert reports + [] == reports;
  }

  lemma {:induction false} DeliverSnoc(m: Mgr, reports: seq<Report>, r: Report)
    requires m.Valid()
    ensures Deliver(m, reports + [r]) == DeliverOne(Deliver(m, reports), r)
    decreases |reports|
  {
    hide DeliverOne, Mgr.Valid;
    if reports == [] {
      assert ([] + [r])[1..] == [];
    } else {
      assert (reports + [r])[1..] == reports[1..] + [r];
      DeliverSnoc(DeliverOne(m, reports[0]), reports[1..], r);
    }
  }

  lemma {:induction false} DeliverAppend(m: Mgr, a: seq<Report>, b: seq<Report>)
    requires m.Valid()
    ensures Deliver(Deliver(m, a), b) == Deliver(m, a + b)
    decreases |b|
  {
    hide DeliverOne, Mgr.Valid;
    if b == [] {
      assert a + b == a;
    } else {
      var r := b[0];
      DeliverSnoc(m, a, r);
      DeliverAppend(m, a + [r], b[1..]);
      assert a + b == (a + [r]) + b[1..];
    }
  }

  // ---------- Arbitrary bytes ----------

  /** Slices inside the buffer from `lo` on, in increasing order without overlap. */
  ghost predicate Ordered(buf: seq<byte>, reports: seq<Report>, lo: nat) {
    reports == [] ||
    (var r := reports[0];
     && lo <= r.off && r.off + r.len <= |buf|
     && (r.CfmFrame? ==> r.off <= r.paramOff <= r.off + r.len && |r.param| <= 256)
     && (r.CfmFrame? ==> r.param == buf[r.paramOff..r.off + r.len])
     && Ordered(buf, reports[1..], r.off + r.len))
  }

  /** Whatever the bytes, every reported slice lies in the buffer, after the one before it. */
  lemma {:induction false} DemuxOrdered(buf: seq<byte>, offset: nat)
    requires offset <= |buf|
    ensures Ordered(buf, Demux(buf, offset), offset)
    decreases |buf| - offset
  {
    hide ParseAt;
    if offset < |buf| && ParseAt(buf, offset).Some? {
      var p := ParseAt(buf, offset).value;
      ParsedInBounds(buf, offset);
      var rest := Demux(buf, offset + p.total);
      DemuxOrdered(buf, offset + p.total);
      assert Ordered(buf, rest, p.report.off + p.report.len);
      assert Demux(buf, offset) == [p.report] + rest;
    }
  }

  lemma ParsedInBounds(buf: seq<byte>, offset: nat)
    requires ParseAt(buf, offset).Some?
    ensures var p := ParseAt(buf, offset).value;
            var r := p.report;
            && r.off == offset && r.len <= p.total && offset + p.total <= |buf|
            && (r.CfmFrame? ==> r.off <= r.paramOff <= r.off + r.len && |r.param| <= 256)
            && (r.CfmFrame? ==> r.param == buf[r.paramOff..r.off + r.len])
  {
  }

  /** A slice is reported as data only if its type byte is in the lower half of a block of thirty-two. */
  lemma {:induction false} DataIsNeverConfig(buf: seq<byte>, offset: nat)
    ensures forall r :: r in Demux(buf, offset) && r.DataFrame? ==> r.off + 2 < |buf| && buf[r.off + 2] % 32 < 16
    decreases |buf| - offset
  {
    hide ParseAt;
    if offset < |buf| && ParseAt(buf, offset).Some? {
      if ParseAt(buf, offset).value.report.DataFrame? { ParsedDataType(buf, offset); }
      DataIsNeverConfig(buf, offset + ParseAt(buf, offset).value.total);
    }
  }

  lemma ParsedDataType(buf: seq<byte>, offset: nat)
    requires ParseAt(buf, offset).Some? && ParseAt(buf, offset).value.report.DataFrame?
    ensures var r := ParseAt(buf, offset).value.report; r.off + 2 < |buf| && buf[r.off + 2] % 32 < 16
  {
    hide U16At, RoundUp4;
    IsConfigMeans(buf[offset + 2]);
  }

  // ---------- Framing and its inverse ----------

  /**
   A frame as the chip sends it: data, a confirmation behind a four-byte prefix, or a confirmation with its
   bare header.
   */
  datatype Frame =
    | Data(typeByte: byte, body: seq<byte>, pad: seq<byte>)
    | Cfm(prefix: u16, typeByte: byte, prefix3: byte, id: u16, dest: u16, src: u16, pattern: u32, param: seq<byte>)
    | Bare(id: u16, dest: u16, src: u16, param: seq<byte>)
  {
    predicate Valid() {
      match this
      case Data(_, _, _) =>
        typeByte % 32 < 16 && RX_HWHRD_LEN_DATA <= |body| < RX_HWHRD_LEN_DATA + 0x1_0000
        && |pad| == RoundUp4(|body|) - |body|
      case Cfm(_, _, _, _, _, _, _, _) => (typeByte == 0x11 || typeByte == 0x91) && |param| <= 256
      case Bare(_, _, _, _) => BareIsNotMistaken(dest) && 8 <= |param| <= 256
    }

    function Encode(): (s: seq<byte>)
      requires Valid()
      ensures |s| > 3
    {
      match this
      case Data(_, _, _) => Le16(|body| - RX_HWHRD_LEN_DATA) + [typeByte] + body + pad
      case Cfm(_, _, _, _, _, _, _, _) =>
        Le16(prefix) + [typeByte, prefix3] + Le16(id) + Le16(dest) + Le16(src) + Le16(|param|) + Le32(pattern) + param
      case Bare(_, _, _, _) => Le16(id) + Le16(dest) + Le16(src) + Le16(|param|) + param
    }

    /** What should be reported for the frame when it starts at `off`. */
    function Reported(off: nat): Report {
      match this
      case Data(_, _, _) => DataFrame(off, 3 + |body|)
      case Cfm(_, _, _, _, _, _, _, _) => CfmFrame(off, 16 + |param|, id, off + 16, param)
      case Bare(_, _, _, _) => CfmFrame(off, 8 + |param|, id, off + 8, param)
    }
  }

  /** The low byte of the destination stands where the others have their type, and is neither type. */
  predicate BareIsNotMistaken(dest: u16) {
    var low := dest % 256;
    16 <= low % 32 && low != 0x11 && low != 0x91
  }

  predicate AllValid(frames: seq<Frame>) {
    forall i :: 0 <= i < |frames| ==> frames[i].Valid()
  }

  function EncodeAll(frames: seq<Frame>): seq<byte>
    requires AllValid(frames)
  {
    if frames == [] then [] else frames[0].Encode() + EncodeAll(frames[1..])
  }

  function ReportedAll(frames: seq<Frame>, off: nat): seq<Report>
    requires AllValid(frames)
  {
    if frames == [] then [] else [frames[0].Reported(off)] + ReportedAll(frames[1..], off + |frames[0].Encode()|)
  }

  /** A piece of a buffer reads the same inside the buffer. */
  lemma PieceReads(buf: seq<byte>, off: nat, e: seq<byte>, i: nat)
    requires off + |e| <= |buf| && buf[off..off + |e|] == e && i + 2 <= |e|
    ensures U16At(buf, off + i) == U16At(e, i) && buf[off + i] == e[i] && buf[off + i + 1] == e[i + 1]
  {
    var t := buf[off..off + |e|];
    assert t[i] == buf[off + i] && t[i + 1] == buf[off + i + 1];
  }

  lemma Le16Reads(a: seq<byte>, x: u16, b: seq<byte>)
    ensures U16At(a + Le16(x) + b, |a|) == x
  {
    var s := a + Le16(x) + b;
    assert s[|a|] == Le16(x)[0] && s[|a| + 1] == Le16(x)[1];
  }

  lemma DataParses(buf: seq<byte>, off: nat, f: Frame)
    requires f.Data? && f.Valid() && off + |f.Encode()| <= |buf| && buf[off..off + |f.Encode()|] == f.Encode()
    ensures ParseAt(buf, off) == Some(Parsed(|f.Encode()|, f.Reported(off)))
  {
    var e := f.Encode();
    DataFields(f);
    hide Frame.Encode, U16At, ParseAt;
    PieceReads(buf, off, e, 0);
    PieceReads(buf, off, e, 1);
    IsConfigMeans(f.typeByte);
    hide RoundUp4, IsConfig;
    DataAt(buf, off, |f.body|, |f.pad|);
  }

  lemma DataAt(buf: seq<byte>, off: nat, n: nat, pad: nat)
    requires RX_HWHRD_LEN_DATA <= n && off + 3 + n + pad <= |buf| && pad == RoundUp4(n) - n
    requires !IsConfig(buf[off + 2]) && U16At(buf, off) == n - RX_HWHRD_LEN_DATA
    ensures ParseAt(buf, off) == Some(Parsed(3 + n + pad, DataFrame(off, 3 + n)))
  {
    hide *;
    DataTaken(buf, off);
    ParseIsData(buf, off);
  }

  lemma DataTaken(buf: seq<byte>, off: nat)
    requires off + 3 <= |buf| && !IsConfig(buf[off + 2])
    ensures var n := U16At(buf, off) + RX_HWHRD_LEN_DATA;
            off + 3 + RoundUp4(n) <= |buf| ==>
              ParseDataAt(buf, off) == Some(Parsed(3 + RoundUp4(n), DataFrame(off, 3 + n)))
  {
    hide U16At, RoundUp4, IsConfig;
  }

  lemma ParseIsData(buf: seq<byte>, off: nat)
    ensures ParseDataAt(buf, off).Some? ==> ParseAt(buf, off) == ParseDataAt(buf, off)
  {
    hide ParseDataAt, ParseOneCfmAt;
  }

  lemma DataFields(f: Frame)
    requires f.Data? && f.Valid()
    ensures var e := f.Encode();
            |e| == 3 + |f.body| + |f.pad| && U16At(e, 0) == |f.body| - RX_HWHRD_LEN_DATA && e[2] == f.typeByte
  {
    Le16Reads([], |f.body| - RX_HWHRD_LEN_DATA, [f.typeByte] + f.body + f.pad);
    assert f.Encode() == [] + Le16(|f.body| - RX_HWHRD_LEN_DATA) + ([f.typeByte] + f.body + f.pad);
  }

  lemma CfmParses(buf: seq<byte>, off: nat, f: Frame)
    requires f.Cfm? && f.Valid() && off + |f.Encode()| <= |buf| && buf[off..off + |f.Encode()|] == f.Encode()
    ensures ParseAt(buf, off) == Some(Parsed(|f.Encode()|, f.Reported(off)))
  {
    var e := f.Encode();
    CfmFields(f);
    RspType(f.typeByte);
    hide Frame.Encode, U16At, ParseDataAt, ParseOneCfmAt;
    PieceReads(buf, off, e, 2);
    PieceReads(buf, off, e, 4);
    PieceReads(buf, off, e, 10);
    assert buf[off + 16..off + 16 + |f.param|] == buf[off..off + |e|][16..];
    NoDataFrame(buf, off);
    CfmAt(buf, off, f.id, f.param);
  }

  lemma CfmAt(buf: seq<byte>, off: nat, id: u16, param: seq<byte>)
    requires off + 16 + |param| <= |buf| && |param| <= 256 && buf[off + 2] % 128 == SDIO_TYPE_CFG_CMD_RSP
    requires U16At(buf, off + 4) == id && U16At(buf, off + 10) == |param|
    requires buf[off + 16..off + 16 + |param|] == param
    ensures ParseOneCfmAt(buf, off)
         == Some(Parsed(16 + |param|, CfmFrame(off, 16 + |param|, id, off + 16, param)))
  {
    hide U16At;
  }

  lemma NoDataFrame(buf: seq<byte>, off: nat)
    requires off + 3 <= |buf| && buf[off + 2] % 128 == SDIO_TYPE_CFG_CMD_RSP
    ensures ParseDataAt(buf, off).None?
  {
    ConfigBit(buf[off + 2]);
    hide U16At, RoundUp4;
  }

  lemma ConfigBit(b: byte)
    requires b % 128 == SDIO_TYPE_CFG_CMD_RSP
    ensures IsConfig(b)
  {
    RspType(b);
  }

  /** A data frame stands at `off`, going by its type and its length. */
  predicate DataStands(buf: seq<byte>, off: nat) {
    off + 3 <= |buf| && buf[off + 2] % 32 < 16 && off + 3 + RoundUp4(60 + U16At(buf, off)) <= |buf|
  }

  /** A confirmation behind a prefix. */
  predicate PrefixedStands(buf: seq<byte>, off: nat) {
    off + 16 <= |buf| && (buf[off + 2] == 0x11 || buf[off + 2] == 0x91)
    && U16At(buf, off + 10) <= 256 && off + 16 + U16At(buf, off + 10) <= |buf|
  }

  /** A confirmation with its bare header. */
  predicate BareStands(buf: seq<byte>, off: nat) {
    off + 16 <= |buf| && 1 <= U16At(buf, off + 6) <= 256 && off + 8 + U16At(buf, off + 6) <= |buf|
  }

  /** The three are tried in this order, each exactly when those before it do not stand there. */
  lemma ParseTries(buf: seq<byte>, off: nat)
    ensures ParseAt(buf, off).Some? <==> DataStands(buf, off) || PrefixedStands(buf, off) || BareStands(buf, off)
    ensures ParseAt(buf, off).Some? && ParseAt(buf, off).value.report.DataFrame? <==> DataStands(buf, off)
    ensures !DataStands(buf, off) && PrefixedStands(buf, off) ==> ParseAt(buf, off).value.total >= 16
    ensures !DataStands(buf, off) && PrefixedStands(buf, off) ==> ParseAt(buf, off).value.report.paramOff == off + 16
    ensures !DataStands(buf, off) && !PrefixedStands(buf, off) && BareStands(buf, off) ==>
              ParseAt(buf, off).value.report.paramOff == off + 8
  {
    DataIfStands(buf, off);
    PrefixedIfStands(buf, off);
    CfmIfStands(buf, off);
    hide IsConfig, U16At, RoundUp4, ParseDataAt, ParseOneCfmAt, DataStands, PrefixedStands, BareStands;
  }

  lemma DataIfStands(buf: seq<byte>, off: nat)
    ensures ParseDataAt(buf, off).Some? <==> DataStands(buf, off)
    ensures DataStands(buf, off) ==> ParseDataAt(buf, off).value.report.DataFrame?
  {
    if off + 3 <= |buf| {
      IsConfigMeans(buf[off + 2]);
    }
    hide IsConfig, U16At, RoundUp4;
  }

  lemma PrefixedIfStands(buf: seq<byte>, off: nat)
    ensures PrefixedStands(buf, off) ==> ParseOneCfmAt(buf, off).Some?
    ensures PrefixedStands(buf, off) ==> var p := ParseOneCfmAt(buf, off).value;
              p.total >= 16 && p.report.CfmFrame? && p.report.paramOff == off + 16
  {
    if off + 16 <= |buf| { RspType(buf[off + 2]); }
    hide U16At;
  }

  lemma CfmIfStands(buf: seq<byte>, off: nat)
    ensures !PrefixedStands(buf, off) ==> (ParseOneCfmAt(buf, off).Some? <==> BareStands(buf, off))
    ensures !PrefixedStands(buf, off) && BareStands(buf, off) ==> var p := ParseOneCfmAt(buf, off).value;
              p.report.CfmFrame? && p.report.paramOff == off + 8
  {
    if off + 16 <= |buf| { RspType(buf[off + 2]); }
    hide U16At;
  }

  /** A bare header is recognised wherever sixteen bytes are left and nothing else stands there. */
  lemma BareParses(buf: seq<byte>, off: nat, id: u16, dest: u16, src: u16, param: seq<byte>)
    requires 1 <= |param| <= 256 && !DataStands(buf, off) && !PrefixedStands(buf, off)
    requires off + 16 <= |buf| && StandsAt(buf, off, Le16(id) + Le16(dest) + Le16(src) + Le16(|param|) + param)
    ensures ParseAt(buf, off) == Some(Parsed(8 + |param|, CfmFrame(off, 8 + |param|, id, off + 8, param)))
  {
    var e := Le16(id) + Le16(dest) + Le16(src) + Le16(|param|) + param;
    BareFields(id, dest, src, param);
    hide Le16, U16At, ParseAt, DataStands, PrefixedStands;
    PieceReads(buf, off, e, 0);
    PieceReads(buf, off, e, 6);
    assert buf[off + 8..off + 8 + |param|] == buf[off..off + |e|][8..] == e[8..];
    BareAt(buf, off, id, param);
  }

  lemma BareAt(buf: seq<byte>, off: nat, id: u16, param: seq<byte>)
    requires 1 <= |param| <= 256 && !DataStands(buf, off) && !PrefixedStands(buf, off)
    requires off + 16 <= |buf| && off + 8 + |param| <= |buf| && buf[off + 8..off + 8 + |param|] == param
    requires U16At(buf, off) == id && U16At(buf, off + 6) == |param|
    ensures ParseAt(buf, off) == Some(Parsed(8 + |param|, CfmFrame(off, 8 + |param|, id, off + 8, param)))
  {
    DataIfStands(buf, off);
    RspType(buf[off + 2]);
    hide U16At, RoundUp4, IsConfig, DataStands, ParseDataAt;
  }

  lemma NothingElseStands(buf: seq<byte>, off: nat, f: Frame)
    requires f.Bare? && f.Valid() && StandsAt(buf, off, f.Encode())
    ensures !DataStands(buf, off) && !PrefixedStands(buf, off)
  {
    BareFields(f.id, f.dest, f.src, f.param);
    hide Le16;
    PieceReads(buf, off, f.Encode(), 2);
  }

  lemma RspType(b: byte)
    ensures b % 128 == SDIO_TYPE_CFG_CMD_RSP <==> b == 0x11 || b == 0x91
  {
  }

  lemma BareFields(id: u16, dest: u16, src: u16, param: seq<byte>)
    requires |param| <= 256
    ensures var e := Le16(id) + Le16(dest) + Le16(src) + Le16(|param|) + param;
            && |e| == 8 + |param| && U16At(e, 0) == id && e[2] == dest % 256
            && U16At(e, 6) == |param| && e[8..] == param
  {
    var e := Le16(id) + Le16(dest) + Le16(src) + Le16(|param|) + param;
    assert e[2] == Le16(dest)[0];
    hide Le16;
    assert e == [] + Le16(id) + (Le16(dest) + Le16(src) + Le16(|param|) + param);
    Le16Reads([], id, Le16(dest) + Le16(src) + Le16(|param|) + param);
    assert e == (Le16(id) + Le16(dest) + Le16(src)) + Le16(|param|) + param;
    Le16Reads(Le16(id) + Le16(dest) + Le16(src), |param|, param);
  }

  lemma CfmFields(f: Frame)
    requires f.Cfm? && f.Valid()
    ensures var e := f.Encode();
            && |e| == 16 + |f.param| && e[2] == f.typeByte && U16At(e, 4) == f.id && U16At(e, 10) == |f.param|
            && e[16..] == f.param
  {
    var h := Le16(f.prefix) + [f.typeByte, f.prefix3];
    var g := Le16(f.dest) + Le16(f.src);
    var e := f.Encode();
    hide Le16, Le32;
    assert e == h + Le16(f.id) + (g + Le16(|f.param|) + Le32(f.pattern) + f.param);
    Le16Reads(h, f.id, g + Le16(|f.param|) + Le32(f.pattern) + f.param);
    assert e == (h + Le16(f.id) + g) + Le16(|f.param|) + (Le32(f.pattern) + f.param);
    Le16Reads(h + Le16(f.id) + g, |f.param|, Le32(f.pattern) + f.param);
  }

  /** `e` stands in `buf` at `off`. */
  predicate StandsAt(buf: seq<byte>, off: nat, e: seq<byte>) { off + |e| <= |buf| && buf[off..off + |e|] == e }

  lemma BareFrameParses(buf: seq<byte>, off: nat, f: Frame)
    requires f.Bare? && f.Valid() && StandsAt(buf, off, f.Encode())
    ensures ParseAt(buf, off) == Some(Parsed(|f.Encode()|, f.Reported(off)))
  {
    NothingElseStands(buf, off, f);
    hide ParseAt, StandsAt, DataStands, PrefixedStands;
    LongEnough(buf, off, f.Encode());
    BareParses(buf, off, f.id, f.dest, f.src, f.param);
  }

  lemma LongEnough(buf: seq<byte>, off: nat, e: seq<byte>)
    requires StandsAt(buf, off, e)
    ensures off + |e| <= |buf|
  {
  }

  /** One well-formed frame is recognised wherever it stands, whatever is around it. */
  lemma ParseEncoded(buf: seq<byte>, off: nat, f: Frame)
    requires f.Valid() && StandsAt(buf, off, f.Encode())
    ensures ParseAt(buf, off) == Some(Parsed(|f.Encode()|, f.Reported(off)))
  {
    hide Frame.Encode, Frame.Reported, ParseAt;
    match f
    case Data(_, _, _) => DataParses(buf, off, f);
    case Cfm(_, _, _, _, _, _, _, _) => CfmParses(buf, off, f);
    case Bare(id, dest, src, param) => BareFrameParses(buf, off, f);
  }

  /** A list of frames, wherever it stands, is reported in order, and the loop goes on with what follows. */
  lemma {:induction false} DemuxEncoded(buf: seq<byte>, off: nat, frames: seq<Frame>)
    requires AllValid(frames) && StandsAt(buf, off, EncodeAll(frames))
    ensures Demux(buf, off) == ReportedAll(frames, off) + Demux(buf, off + |EncodeAll(frames)|)
    decreases |frames|
  {
    hide Frame.Encode, Frame.Reported, ParseAt, Frame.Valid;
    if frames != [] {
      var e, rest := frames[0].Encode(), EncodeAll(frames[1..]);
      var all := buf[off..off + |e + rest|];
      assert all[..|e|] == e && all[|e|..] == rest;
      assert buf[off..off + |e|] == all[..|e|] && buf[off + |e|..off + |e| + |rest|] == all[|e|..];
      ParseEncoded(buf, off, frames[0]);
      DemuxEncoded(buf, off + |e|, frames[1..]);
    }
  }

  /** A tail too short for any frame stops the loop. */
  lemma ShortTailStops(pre: seq<byte>, tail: seq<byte>)
    requires |tail| < 16
    ensures Demux(pre + tail, |pre|) == []
  {
    var buf := pre + tail;
    if |pre| < |buf| {
      assert ParseDataAt(buf, |pre|).None?;
      assert ParseOneCfmAt(buf, |pre|).None?;
    }
  }

  lemma StandsFirst(e: seq<byte>, tail: seq<byte>)
    ensures StandsAt(e + tail, 0, e)
  {
  }

  lemma DemuxFromStart(frames: seq<Frame>, tail: seq<byte>)
    requires AllValid(frames)
    ensures var e := EncodeAll(frames);
            Demux(e + tail, 0) == ReportedAll(frames, 0) + Demux(e + tail, |e|)
  {
    hide *;
    var e := EncodeAll(frames);
    StandsFirst(e, tail);
    DemuxEncoded(e + tail, 0, frames);
  }

  /** Frames followed by a short tail: exactly those frames are reported, in order. */
  lemma DemuxUndoesFraming(frames: seq<Frame>, tail: seq<byte>)
    requires AllValid(frames) && |tail| < 16
    ensures Demux(EncodeAll(frames) + tail, 0) == ReportedAll(frames, 0)
  {
    hide *;
    DemuxFromStart(frames, tail);
    ShortTailStops(EncodeAll(frames), tail);
  }

  /** Where a reported frame ends in the buffer, alignment of data frames included. */
  function EndOf(r: Report): nat {
    match r
    case DataFrame(off, len) => off + 3 + RoundUp4(if len < 3 then 0 else len - 3)
    case CfmFrame(off, len, _, _, _) => off + len
  }

  lemma ParsedEnds(buf: seq<byte>, offset: nat)
    requires ParseAt(buf, offset).Some?
    ensures EndOf(ParseAt(buf, offset).value.report) == offset + ParseAt(buf, offset).value.total <= |buf|
  {
  }

  lemma {:induction false} ReportsEnd(buf: seq<byte>, offset: nat)
    ensures forall r :: r in Demux(buf, offset) ==> EndOf(r) <= |buf|
    decreases |buf| - offset
  {
    hide ParseAt, EndOf;
    if offset < |buf| && ParseAt(buf, offset).Some? {
      ParsedEnds(buf, offset);
      ReportsEnd(buf, offset + ParseAt(buf, offset).value.total);
    }
  }

  lemma ReportedEnds(f: Frame, off: nat)
    requires f.Valid()
    ensures EndOf(f.Reported(off)) == off + |f.Encode()|
  {
  }

  /** The last frame of a list ends where the list ends. */
  lemma {:induction false} LastEnds(frames: seq<Frame>, off: nat)
    requires AllValid(frames) && frames != []
    ensures exists r :: r in ReportedAll(frames, off) && EndOf(r) == off + |EncodeAll(frames)|
    decreases |frames|
  {
    hide EndOf, Frame.Encode, Frame.Reported, Frame.Valid;
    var f := frames[0];
    var rest := ReportedAll(frames[1..], off + |f.Encode()|);
    assert ReportedAll(frames, off) == [f.Reported(off)] + rest;
    if |frames| == 1 {
      ReportedEnds(f, off);
      assert f.Reported(off) in ReportedAll(frames, off);
    } else {
      LastEnds(frames[1..], off + |f.Encode()|);
      var r :| r in rest && EndOf(r) == off + |f.Encode()| + |EncodeAll(frames[1..])|;
      assert r in ReportedAll(frames, off);
    }
  }

  /** A buffer that ends before the frames do never gives their reports. */
  lemma TooShortDemux(frames: seq<Frame>, buf: seq<byte>)
    requires AllValid(frames) && |buf| < |EncodeAll(frames)|
    ensures Demux(buf, 0) != ReportedAll(frames, 0)
  {
    hide Demux, EndOf, ReportedAll, EncodeAll;
    NoFrames();
    LastEnds(frames, 0);
    ReportsEnd(buf, 0);
  }

  /** A buffer cut at `n` bytes gives exactly the frames' reports if and only if the frames end before the cut. */
  lemma CutDemux(frames: seq<Frame>, tail: seq<byte>, n: nat)
    requires AllValid(frames) && |tail| < 16
    ensures var s := EncodeAll(frames) + tail;
            Demux(s[..Min(n, |s|)], 0) == ReportedAll(frames, 0) <==> |EncodeAll(frames)| <= n
  {
    var e := EncodeAll(frames);
    var s := e + tail;
    var buf := s[..Min(n, |s|)];
    if |e| <= n {
      var cut := tail[..|buf| - |e|];
      assert buf == e + cut;
      hide *;
      DemuxUndoesFraming(frames, cut);
    } else {
      TooShortDemux(frames, buf);
    }
  }

  /** The same for frames filled up with zeros: fewer than 63 of those may be left within the cut. */
  lemma CutZeros(frames: seq<Frame>, k: nat, n: nat)
    requires AllValid(frames)
    ensures var s := EncodeAll(frames) + Zeros(k);
            Demux(s[..Min(n, |s|)], 0) == ReportedAll(frames, 0)
            <==> |EncodeAll(frames)| <= n && Min(n, |s|) - |EncodeAll(frames)| < 63
  {
    var e := EncodeAll(frames);
    var s := e + Zeros(k);
    var buf := s[..Min(n, |s|)];
    if |e| <= n {
      var m := |buf| - |e|;
      assert buf == e + Zeros(m);
      hide *;
      ZeroTail(frames, m);
    } else {
      TooShortDemux(frames, buf);
    }
  }

  lemma NoFrames()
    ensures EncodeAll([]) == []
  {
  }

  /** Exactly how many trailing zeros are harmless: from 63 on they read as a data frame of length zero. */
  lemma ZeroTail(frames: seq<Frame>, n: nat)
    requires AllValid(frames)
    ensures Demux(EncodeAll(frames) + Zeros(n), 0) == ReportedAll(frames, 0) <==> n < 63
  {
    var e := EncodeAll(frames);
    hide *;
    DemuxFromStart(frames, Zeros(n));
    ZerosDemux(e, n);
  }

  lemma ZerosDemux(e: seq<byte>, n: nat)
    ensures Demux(e + Zeros(n), |e|) == [] <==> n < 63
  {
    hide ParseAt, Zeros;
    if n < 16 {
      ShortTailStops(e, Zeros(n));
    } else {
      ZerosParse(e + Zeros(n), |e|, n);
    }
  }

  lemma ZerosParse(buf: seq<byte>, off: nat, n: nat)
    requires |buf| == off + n && buf[off..] == Zeros(n) && n >= 16
    ensures ParseAt(buf, off).Some? <==> n >= 63
  {
    forall i | off <= i < off + 16 ensures buf[i] == 0 {
      assert buf[i] == buf[off..][i - off];
    }
    assert buf[off + 2] == 0;
    assert U16At(buf, off) == 0 && U16At(buf, off + 6) == 0;
  }

  /** The same, seen by the command manager: it changes as the fold of the sent confirmations. */
  function DeliverSent(m: Mgr, frames: seq<Frame>): Mgr
    requires m.Valid()
    decreases |frames|
  {
    if frames == [] then m
    else if !frames[0].Data? then
      OnCfmKeepsValid(m, frames[0].id, frames[0].param);
      DeliverSent(OnCfm(m, frames[0].id, frames[0].param), frames[1..])
    else DeliverSent(m, frames[1..])
  }

  lemma {:induction false} DeliverReported(m: Mgr, frames: seq<Frame>, off: nat)
    requires m.Valid() && AllValid(frames)
    ensures Deliver(m, ReportedAll(frames, off)) == DeliverSent(m, frames)
    decreases |frames|
  {
    if frames != [] {
      var f := frames[0];
      var r := f.Reported(off);
      var m1 := DeliverOne(m, r);
      var rs, off1 := ReportedAll(frames, off), off + |f.Encode()|;
      assert rs == [r] + ReportedAll(frames[1..], off1);
      assert DeliverSent(m, frames) == DeliverSent(m1, frames[1..]);
      hide *;
      DeliverReported(m1, frames[1..], off1);
      DeliverCons(m, r, ReportedAll(frames[1..], off1));
    }
  }

  lemma DeliverCons(m: Mgr, r: Report, rest: seq<Report>)
    requires m.Valid()
    ensures Deliver(m, [r] + rest) == Deliver(DeliverOne(m, r), rest)
  {
    hide DeliverOne, Mgr.Valid;
    assert ([r] + rest)[1..] == rest;
  }
}
