/** The in-place padding of an outgoing message (driver/bsp/src/sdio/flow.rs). */
module TxPad {
  import opened Bytes

  const BLOCK := 512
  const PENDING_CMD_TX_CAP := 1536

  /** The length `aicwf_sdio_tx_msg_pad` returns. */
  function PadLen(payloadLen: nat): nat {
    var len := RoundUp4(payloadLen);
    if len % BLOCK != 0 then ((len + 4) / BLOCK + 1) * BLOCK else len
  }

  /** The length `ipc_send_len_8801` returns. */
  function IpcSendLen8801(serializedLen: nat): nat {
    var len4 := RoundUp4(serializedLen);
    if len4 % BLOCK == 0 then len4 else (len4 + 4 + BLOCK - 1) / BLOCK * BLOCK
  }

  /** A payload followed by the zeros that padding appends. */
  function Padded(payload: seq<byte>): (s: seq<byte>)
    ensures |s| == PadLen(|payload|)
    ensures payload <= s
    ensures forall i :: |payload| <= i < |s| ==> s[i] == 0
  {
    PadLenBounds(|payload|);
    payload + Zeros(PadLen(|payload|) - |payload|)
  }

  lemma PadLenBounds(n: nat)
    ensures PadLen(n) >= n && PadLen(n) % BLOCK == 0
    ensures IpcSendLen8801(n) >= n && IpcSendLen8801(n) % BLOCK == 0
  {
    var m := RoundUp4(n);
    RoundUp4Bounds(n);
    assert m % 4 == 0;
    hide RoundUp4;
    var q := m / BLOCK;
    LengthsOf(m, q, m % BLOCK);
    DivIs(q * BLOCK, q, 0);
    DivIs((q + 1) * BLOCK, q + 1, 0);
    DivIs((q + 2) * BLOCK, q + 2, 0);
  }

  /** `buf[lo..hi].fill(0)`. */
  method FillZero(buf: array<byte>, lo: nat, hi: nat)
    requires lo <= hi <= buf.Length
    modifies buf
    ensures forall i :: 0 <= i < buf.Length ==> buf[i] == if lo <= i < hi then 0 else old(buf[i])
  {
    forall i | lo <= i < hi { buf[i] := 0; }
  }

  lemma RoundUp4Bounds(n: nat)
    ensures n <= RoundUp4(n) <= n + 3
    ensures n % 4 == 0 ==> RoundUp4(n) == n
  {
  }

  /**
   Pads `payloadLen` bytes of `buf` in place.  Whenever the padded message fits the buffer it is
   the payload followed by zeros; the payload and everything past the padded length are untouched.
   */
  method AicwfSdioTxMsgPad(buf: array<byte>, payloadLen: nat) returns (sendLen: nat)
    requires payloadLen <= buf.Length
    modifies buf
    ensures sendLen == PadLen(payloadLen)
    ensures buf[..payloadLen] == old(buf[..payloadLen])
    ensures sendLen <= buf.Length ==> buf[..sendLen] == Padded(old(buf[..payloadLen]))
    ensures sendLen <= buf.Length ==> forall i :: payloadLen <= i < sendLen ==> buf[i] == 0
    ensures sendLen <= buf.Length ==> buf[sendLen..] == old(buf[sendLen..])
  {
    RoundUp4Bounds(payloadLen);
    PadLenOfAligned(payloadLen);
    hide PadLen, RoundUp4;
    var len := payloadLen;
    if len % 4 != 0 {
      var adjustLen := RoundUp4(len);
      var need := adjustLen - len;
      if buf.Length >= payloadLen + need {
        FillZero(buf, payloadLen, payloadLen + need);
      }
      len := adjustLen;
    }
    assert len == RoundUp4(payloadLen);
    if len % BLOCK != 0 {
      if buf.Length >= len + 4 {
        FillZero(buf, len, len + 4);
      }
      var payloadLenAfterTail := len + 4;
      sendLen := (payloadLenAfterTail / BLOCK + 1) * BLOCK;
    } else {
      sendLen := len;
    }
    if sendLen > len && buf.Length >= sendLen {
      FillZero(buf, len, sendLen);
    }
  }

  lemma PadLenOfAligned(n: nat)
    ensures var len := RoundUp4(n);
            && PadLen(n) == (if len % BLOCK != 0 then ((len + 4) / BLOCK + 1) * BLOCK else len)
            && PadLen(n) >= len
            && (len % BLOCK != 0 ==> PadLen(n) > len + 4)
  {
    hide RoundUp4;
  }

  lemma DivIs(x: int, q: int, r: int)
    requires x == q * BLOCK + r && 0 <= r < BLOCK
    ensures x / BLOCK == q && x % BLOCK == r
  {
  }

  /** Both computations on an aligned length, by its place in the block. */
  lemma LengthsOf(m: nat, q: nat, r: nat)
    requires m == q * BLOCK + r && r < BLOCK && r % 4 == 0
    ensures m % BLOCK == r && (m + 4) / BLOCK == (if r == 508 then q + 1 else q)
    ensures (m + 4) % BLOCK != 0 <==> r != 508
    ensures (m + 4 + BLOCK - 1) / BLOCK == q + 1
  {
    DivIs(m, q, r);
    if r == 508 { DivIs(m + 4, q + 1, 0); } else { DivIs(m + 4, q, r + 4); }
    DivIs(m + 4 + BLOCK - 1, q + 1, r + 3);
  }

  /**
   The two length computations of the driver agree except when four bytes after the aligned
   payload end exactly on a block boundary; there the padding function sends one block more.
   */
  lemma PadLenVersusIpcSendLen(n: nat)
    ensures PadLen(n) == IpcSendLen8801(n) <==> (RoundUp4(n) + 4) % BLOCK != 0
    ensures (RoundUp4(n) + 4) % BLOCK == 0 ==> PadLen(n) == IpcSendLen8801(n) + BLOCK
  {
    var m := RoundUp4(n);
    assert m % 4 == 0;
    hide RoundUp4;
    LengthsOf(m, m / BLOCK, m % BLOCK);
  }

  /** Alignment goes up to the next multiple of four, by less than four. */
  lemma RoundUp4Least(n: nat)
    ensures RoundUp4(n) % 4 == 0 && n <= RoundUp4(n) < n + 4
  {
  }

  /**
   Both computations outright: an aligned length of whole blocks stays; otherwise the padding
   function sends the least number of whole blocks that exceeds it by more than the four bytes of
   the tail, the other one the least that exceeds it by at least those.
   */
  lemma PadLenIsLeast(n: nat)
    ensures var m, p, q := RoundUp4(n), PadLen(n), IpcSendLen8801(n);
            && p % 512 == 0 && q % 512 == 0
            && (m % 512 == 0 ==> p == m == q)
            && (m % 512 != 0 ==> p - 512 <= m + 4 < p && q - 512 < m + 4 <= q)
  {
    RoundUp4Least(n);
    var m := RoundUp4(n);
    hide RoundUp4;
    var q := m / BLOCK;
    LengthsOf(m, q, m % BLOCK);
    DivIs(q * BLOCK, q, 0);
    DivIs((q + 1) * BLOCK, q + 1, 0);
    DivIs((q + 2) * BLOCK, q + 2, 0);
  }

  lemma BlocksAreFixed(m: nat)
    requires m % BLOCK == 0
    ensures PadLen(m) == m == IpcSendLen8801(m)
  {
    var q := m / BLOCK;
    assert m == 4 * (128 * q);
    FourTimes(128 * q);
    hide RoundUp4;
  }

  lemma FourTimes(k: nat)
    ensures RoundUp4(4 * k) == 4 * k
  {
  }

  /** Padding a padded length changes nothing, under either computation. */
  lemma PadLenIdempotent(n: nat)
    ensures PadLen(PadLen(n)) == PadLen(n) == IpcSendLen8801(PadLen(n))
    ensures IpcSendLen8801(IpcSendLen8801(n)) == IpcSendLen8801(n) == PadLen(IpcSendLen8801(n))
  {
    PadLenBounds(n);
    hide *;
    BlocksAreFixed(PadLen(n));
    BlocksAreFixed(IpcSendLen8801(n));
  }

  /** Exactly which payloads that fit the mailbox still fit it once padded. */
  lemma PadFitsMailbox(n: nat)
    requires n <= PENDING_CMD_TX_CAP
    ensures PadLen(n) <= PENDING_CMD_TX_CAP <==> n <= 1528 || n >= 1533
    ensures 1 <= n && PadLen(n) <= PENDING_CMD_TX_CAP ==> PadLen(n) in {512, 1024, 1536}
  {
  }
}
