/**
 The host-to-chip LMAC message and its 8801 wire frame (driver/bsp/src/cmd.rs), with the
 block-write request built by the firmware loader (driver/bsp/src/fw_load.rs).
 */
module Lmac {
  import opened Wrappers
  import opened Bytes

  const LMAC_MSG_MAX_LEN := 1032
  const SDIO_TYPE_CFG_CMD_RSP: byte := 0x11
  const TASK_DBG: u16 := 1
  const DRV_TASK_ID: u16 := 100
  const DBG_MEM_BLOCK_WRITE_REQ: u16 := 1034
  const DBG_MEM_BLOCK_WRITE_CFM: u16 := 1035

  datatype LmacMsg = LmacMsg(id: u16, destId: u16, srcId: u16, paramLen: u16, param: seq<byte>) {
    /** `param` is a fixed buffer of LMAC_MSG_MAX_LEN bytes of which `paramLen` are meant. */
    predicate Valid() {
      |param| == LMAC_MSG_MAX_LEN && paramLen <= LMAC_MSG_MAX_LEN
    }
  }

  /** The 12-bit length the frame carries: LMAC header, parameters and four more. */
  function LenField(paramLen: u16): nat { (8 + paramLen) % 0x1_0000 + 4 }

  function TxFrameHeader(m: LmacMsg): (s: seq<byte>)
    ensures |s| == 16
  {
    var l := LenField(m.paramLen);
    [l % 256, (l / 256) % 16, SDIO_TYPE_CFG_CMD_RSP, 0, 0, 0, 0, 0]
    + Le16(m.id) + Le16(m.destId) + Le16(m.srcId) + Le16(m.paramLen)
  }

  /** The whole frame of a valid message. */
  function TxFrame(m: LmacMsg): (s: seq<byte>)
    requires m.Valid()
    ensures |s| == 16 + m.paramLen
  {
    TxFrameHeader(m) + m.param[..m.paramLen]
  }

  /**
   Writes the frame into the caller's buffer and returns the length it announces.  A buffer that
   holds the header but not the parameters gets the header only, and the full length is returned
   all the same.
   */
  method Serialize8801(m: LmacMsg, buf: array<byte>) returns (n: nat)
    requires m.Valid() && buf.Length >= 16
    modifies buf
    ensures n == 16 + m.paramLen
    ensures n <= buf.Length ==> buf[..n] == TxFrame(m)
    ensures n <= buf.Length ==> buf[n..] == old(buf[n..])
    ensures n > buf.Length ==> buf[..16] == TxFrameHeader(m) && buf[16..] == old(buf[16..])
  {
    PutHeader(m, buf);
    hide TxFrameHeader;
    var plen := m.paramLen;
    if plen > 0 && buf.Length >= 16 + plen {
      CopyParam(m, buf);
    }
    n := 16 + plen;
    assert plen == 0 ==> m.param[..plen] == [] && buf[..n] == buf[..16] + m.param[..plen];
  }

  /** The stores of the header, byte by byte. */
  method PutHeader(m: LmacMsg, buf: array<byte>)
    requires m.Valid() && buf.Length >= 16
    modifies buf
    ensures buf[..16] == TxFrameHeader(m) && buf[16..] == old(buf[16..])
  {
    PutLength(m, buf);
    ghost var front := buf[..8];
    PutIds(m, buf);
    assert buf[..16] == front + buf[8..16];
  }

  /** Length, type and two fills of zeros. */
  method PutLength(m: LmacMsg, buf: array<byte>)
    requires buf.Length >= 16
    modifies buf
    ensures buf[..8] == TxFrameHeader(m)[..8] && buf[16..] == old(buf[16..])
  {
    var payloadLen := (8 + m.paramLen) % 0x1_0000;
    var lenPlus4 := payloadLen + 4;
    buf[0] := lenPlus4 % 256;
    buf[1] := (lenPlus4 / 256) % 16;
    buf[2] := SDIO_TYPE_CFG_CMD_RSP;
    buf[3] := 0;
    buf[4], buf[5], buf[6], buf[7] := 0, 0, 0, 0;
  }

  /** The ids and the parameter length, little-endian. */
  method PutIds(m: LmacMsg, buf: array<byte>)
    requires buf.Length >= 16
    modifies buf
    ensures buf[..8] == old(buf[..8]) && buf[16..] == old(buf[16..])
    ensures buf[8..16] == Le16(m.id) + Le16(m.destId) + Le16(m.srcId) + Le16(m.paramLen)
  {
    buf[8], buf[9] := m.id % 256, m.id / 256;
    buf[10], buf[11] := m.destId % 256, m.destId / 256;
    buf[12], buf[13] := m.srcId % 256, m.srcId / 256;
    buf[14], buf[15] := m.paramLen % 256, m.paramLen / 256;
  }

  /** The copy of the parameters behind the header. */
  method CopyParam(m: LmacMsg, buf: array<byte>)
    requires m.Valid() && buf.Length >= 16 + m.paramLen
    modifies buf
    ensures buf[..16 + m.paramLen] == old(buf[..16]) + m.param[..m.paramLen]
    ensures buf[16 + m.paramLen..] == old(buf[16 + m.paramLen..])
  {
    forall i | 0 <= i < m.paramLen {
      buf[16 + i] := m.param[i];
    }
  }

  /** What the chip reads out of a frame: its ids and the parameters that are meant. */
  datatype Request = Request(id: u16, destId: u16, srcId: u16, param: seq<byte>)

  /**
   The receiver's reading of a byte string as one frame: type 0x11, a length field that agrees
   with the parameter length, and all parameters present.  Bytes after the frame are padding.
   */
  function Unframe(s: seq<byte>): Option<Request> {
    if |s| < 16 || s[2] != SDIO_TYPE_CFG_CMD_RSP then None
    else
      var plen := U16At(s, 14);
      if FromLe16(s[0], s[1] % 16) != 12 + plen || |s| < 16 + plen then None
      else Some(Request(U16At(s, 8), U16At(s, 10), U16At(s, 12), s[16..16 + plen]))
  }

  /** The header fields as they are read back. */
  lemma HeaderReadsBack(m: LmacMsg)
    requires m.Valid()
    ensures var h := TxFrameHeader(m);
            && h[2] == SDIO_TYPE_CFG_CMD_RSP && FromLe16(h[0], h[1] % 16) == 12 + m.paramLen
            && U16At(h, 8) == m.id && U16At(h, 10) == m.destId && U16At(h, 12) == m.srcId && U16At(h, 14) == m.paramLen
  {
    assert LenField(m.paramLen) == 12 + m.paramLen;
  }

  /** What no receiver reads: the length is cut to twelve bits, no checksum, and a dummy word of zeros. */
  lemma HeaderFills(m: LmacMsg)
    ensures var h := TxFrameHeader(m);
            && h[1] < 16 && FromLe16(h[0], h[1]) == ((8 + m.paramLen) % 0x1_0000 + 4) % 0x1000
            && h[2..8] == [0x11, 0, 0, 0, 0, 0]
  {
    var l := LenField(m.paramLen);
    assert l % 0x1000 == l % 256 + 256 * (l / 256 % 16);
  }

  /** Framing followed by any padding is undone by the receiver, for every valid message. */
  lemma UnframeTxFrame(m: LmacMsg, pad: seq<byte>)
    requires m.Valid()
    ensures Unframe(TxFrame(m) + pad) == Some(Request(m.id, m.destId, m.srcId, m.param[..m.paramLen]))
  {
    HeaderReadsBack(m);
    hide TxFrameHeader;
    var s, h := TxFrame(m) + pad, TxFrameHeader(m);
    assert forall i :: 0 <= i < 16 ==> s[i] == h[i];
    assert s[16..16 + m.paramLen] == m.param[..m.paramLen];
  }

  /** DBG_MEM_BLOCK_WRITE_REQ: address, size, then the bytes; refused when it does not fit. */
  function BlockWriteMsg(addr: u32, size: u32, data: seq<byte>): (m: Option<LmacMsg>)
    ensures m.Some? <==> |data| <= 1024
    ensures m.Some? ==> m.value.Valid()
  {
    var paramLen := 8 + |data|;
    if paramLen > LMAC_MSG_MAX_LEN then None
    else Some(LmacMsg(DBG_MEM_BLOCK_WRITE_REQ, TASK_DBG, DRV_TASK_ID, paramLen,
                      Le32(addr) + Le32(size) + data + Zeros(LMAC_MSG_MAX_LEN - paramLen)))
  }

  type Memory = map<int, byte>

  /** The byte of `data` that lands at `a` when `data` is stored from `addr` on. */
  function ByteFor(addr: int, data: seq<byte>, a: int): byte
    requires addr <= a < addr + |data|
  {
    data[a - addr]
  }

  /** `mem` with `data` stored from `addr` on. */
  function Store(mem: Memory, addr: int, data: seq<byte>): Memory {
    mem + (map a | addr <= a < addr + |data| :: ByteFor(addr, data, a))
  }

  /** The chip's effect of one received byte string; anything but a well-formed block write has none. */
  function ChipApply(mem: Memory, s: seq<byte>): Memory {
    match Unframe(s)
    case None => mem
    case Some(r) =>
      if r.id != DBG_MEM_BLOCK_WRITE_REQ || |r.param| < 8 then mem
      else
        var size := U32At(r.param, 4);
        if |r.param| < 8 + size then mem else Store(mem, U32At(r.param, 0), r.param[8..8 + size])
  }

  /** A request that is not refused says address, size and data in its parameters, and nothing else. */
  lemma BlockWriteParams(addr: u32, size: u32, data: seq<byte>)
    requires |data| <= 1024
    ensures var m := BlockWriteMsg(addr, size, data).value;
            var p := m.param[..m.paramLen];
            && m.id == 1034 && m.destId == 1 && m.srcId == 100 && |p| == 8 + |data|
            && U32At(p, 0) == addr && U32At(p, 4) == size && p[8..] == data
            && m.param[m.paramLen..] == Zeros(1024 - |data|)
  {
    var m := BlockWriteMsg(addr, size, data).value;
    var p, q := m.param[..m.paramLen], Le32(addr) + Le32(size);
    Le32RoundTrip(addr);
    Le32RoundTrip(size);
    hide Le32;
    assert p == q + data;
    assert forall i :: 0 <= i < 4 ==> p[i] == Le32(addr)[i] && p[4 + i] == Le32(size)[i];
  }

  /** A block-write message, framed and padded, stores exactly its bytes at its address. */
  lemma ChipAppliesBlockWrite(mem: Memory, addr: u32, data: seq<byte>, pad: seq<byte>)
    requires |data| <= 1024
    ensures ChipApply(mem, TxFrame(BlockWriteMsg(addr, |data|, data).value) + pad) == Store(mem, addr, data)
  {
    hide Unframe, TxFrame, BlockWriteMsg, Store, U32At;
    var m := BlockWriteMsg(addr, |data|, data).value;
    UnframeTxFrame(m, pad);
    BlockWriteParams(addr, |data|, data);
    var p := m.param[..m.paramLen];
    assert p[8..8 + |data|] == p[8..];
  }
}
