/**
 The read direction of the same split (driver/bsp/src/sdio/backend.rs): which commands fill a
 buffer, and that the bytes the card sends for them are the buffer's contents.
 */
module ReadPlan {
  import opened Bytes
  import opened Cmd53
  import opened Transfer

  /** The argument of the read command that asks for as many bytes, in the same mode, as `c` carries. */
  function ReadArg(addr: nat, c: Command): nat {
    var fn, reg := addr / 256 % 8, addr % 256;
    match c
    case ByteMode(data) => ArgByte(false, fn, reg, false, |data|)
    case BlockMode(blksz, data) => ArgBlock(false, fn, reg, false, if blksz == 0 then 0 else |data| / blksz)
  }

  /** `i` is a completed read in which the card sent the data of `c`. */
  predicate ReadAs(i: Issued, addr: nat, c: Command) {
    && i.complete && i.arg == ReadArg(addr, c) && !IsWrite(i) && CardBytes(i) == c.data
    && i.blkCount == (if c.BlockMode? then |c.data| / BLOCK else 1)
    && i.blkSize == (if c.BlockMode? then BLOCK else |c.data|)
    && (i.phase.Dma? <==> c.BlockMode?)
  }

  /** What the card is asked for: a read of just these bytes, in this mode, at one fixed function and register. */
  lemma ReadNames(i: Issued, addr: nat, c: Command)
    requires c.Legal() && (c.BlockMode? ==> c.blksz == BLOCK) && ReadAs(i, addr, c)
    ensures Decode(i.arg) == Access(false, addr / 256 % 8, c.BlockMode?, false, addr % 256,
                                    if c.BlockMode? then |c.data| / BLOCK else |c.data| % 512)
    ensures TransferLength(Decode(i.arg)) == |c.data| == i.blkCount * i.blkSize
    ensures i.blkSize == (if c.BlockMode? then 512 else |c.data|)
  {
    hide Or, CardBytes;
    var fn, reg := addr / 256 % 8, addr % 256;
    match c
    case ByteMode(data) => DecodeArgByte(false, fn, reg, false, |data|);
    case BlockMode(_, data) => DecodeArgBlock(false, fn, reg, false, |data| / BLOCK);
  }

  predicate AllReadAs(w: seq<Issued>, addr: nat, p: seq<Command>) {
    |w| == |p| && forall j :: 0 <= j < |p| ==> ReadAs(w[j], addr, p[j])
  }

  lemma {:induction false} StreamIsRead(w: seq<Issued>, addr: nat, p: seq<Command>)
    requires AllReadAs(w, addr, p)
    ensures CardStream(w) == Carried(p)
  {
    hide CardBytes, ReadArg;
    if p != [] {
      StreamIsRead(w[1..], addr, p[1..]);
    }
  }

  /** A buffer filled by the commands of its plan holds exactly what the card sent, in order. */
  lemma ReadsRefineStream(w: seq<Issued>, addr: nat, data: seq<byte>)
    requires AllReadAs(w, addr, Plan(data))
    ensures CardStream(w) == data
  {
    PlanCarries(data);
    StreamIsRead(w, addr, Plan(data));
  }

  /** A byte-mode read moves the bytes of the words the data port gave, up to the count asked for. */
  lemma PioRead(addr: nat, data: seq<byte>, words: seq<u32>, arg: nat)
    requires 1 <= |data| <= 512 && |data| <= 4 * |words| && data == UnpackWords(words)[..|data|]
    requires arg == ArgByte(false, addr / 256 % 8, addr % 256, false, |data|)
    ensures ReadAs(Issued(arg, 1, |data|, Pio(words), true), addr, ByteMode(data))
  {
    hide Or, UnpackWords;
    DecodeArgByte(false, addr / 256 % 8, addr % 256, false, |data|);
  }

  /** A block-mode read of a legal size fits the pool, and its argument is read as a read. */
  lemma BlockRead(addr: nat, data: seq<byte>)
    requires BlockMode(BLOCK, data).Legal()
    ensures 0 < |data| <= DMA_POOL_SIZE && |data| % 4 == 0
    ensures !Decode(ArgBlock(false, addr / 256 % 8, addr % 256, false, |data| / BLOCK)).write
  {
    var n := |data|;
    assert BLOCK <= n <= MAX_BLOCKS * BLOCK && n % BLOCK == 0;
    hide *;
    LegalSize(n);
    ReadArgIsRead(addr, n / BLOCK);
  }

  lemma LegalSize(n: nat)
    requires BLOCK <= n <= MAX_BLOCKS * BLOCK && n % BLOCK == 0
    ensures 0 < n <= DMA_POOL_SIZE && n % 4 == 0 && 1 <= n / BLOCK <= MAX_BLOCKS
  {
    assert n == 4 * (128 * (n / BLOCK));
  }

  /** A block-mode read takes the whole DMA buffer. */
  lemma DmaRead(addr: nat, data: seq<byte>, arg: nat)
    requires 0 < |data| <= MAX_BLOCKS * BLOCK && |data| % BLOCK == 0
    requires arg == ArgBlock(false, addr / 256 % 8, addr % 256, false, |data| / BLOCK)
    ensures ReadAs(Issued(arg, |data| / BLOCK, BLOCK, Dma(data), true), addr, BlockMode(BLOCK, data))
  {
    hide Or;
    DecodeArgBlock(false, addr / 256 % 8, addr % 256, false, |data| / BLOCK);
  }

  lemma {:induction false} UnpackAppend(words: seq<u32>, w: u32)
    ensures UnpackWords(words + [w]) == UnpackWords(words) + Le32(w)
  {
    if words == [] {
      assert (words + [w])[1..] == [];
    } else {
      UnpackAppend(words[1..], w);
      assert (words + [w])[1..] == words[1..] + [w];
    }
  }

  // ---------- Plans of data that is not known yet ----------

  /**
   The commands `p` already carried `got`, and whatever the `left` bytes to come are, the plan of
   the whole goes on with the plan of those bytes.
   */
  ghost predicate Planned(p: seq<Command>, got: seq<byte>, left: nat, blocks: bool) {
    forall rest: seq<byte> {:trigger got + rest} :: |rest| == left ==> Plan(got + rest) == p + Remaining(rest, blocks)
  }

  function Remaining(rest: seq<byte>, blocks: bool): seq<Command> {
    if blocks then BlockPlan(rest, BLOCK) else BytePlan(rest)
  }

  lemma PlannedStart(size: nat)
    ensures Planned([], [], size, size > 512)
  {
    hide BlockPlan, BytePlan;
    forall rest: seq<byte> | |rest| == size ensures Plan([] + rest) == [] + Remaining(rest, size > 512) {
      assert [] + rest == rest;
    }
  }

  lemma PlannedNext(p: seq<Command>, got: seq<byte>, left: nat, blocks: bool, d: seq<byte>, c: Command)
    requires Planned(p, got, left, blocks) && 0 < |d| <= left
    requires blocks ==> left >= BLOCK && |d| == Min(left / BLOCK, MAX_BLOCKS) * BLOCK && c == BlockMode(BLOCK, d)
    requires !blocks ==> |d| == Min(left, 512) && c == ByteMode(d)
    ensures Planned(p + [c], got + d, left - |d|, blocks)
  {
    hide Plan, BlockPlan, BytePlan;
    forall rest: seq<byte> | |rest| == left - |d|
      ensures Plan(got + d + rest) == p + [c] + Remaining(rest, blocks)
    {
      RemainingStep(d, rest, blocks, c);
      hide Remaining;
      Regroup(got, d, rest);
      assert |d + rest| == left;
      Regroup(p, [c], Remaining(rest, blocks));
    }
  }

  lemma RemainingStep(d: seq<byte>, rest: seq<byte>, blocks: bool, c: Command)
    requires |d| > 0
    requires blocks ==> |d + rest| >= BLOCK && |d| == Min(|d + rest| / BLOCK, MAX_BLOCKS) * BLOCK
    requires blocks ==> c == BlockMode(BLOCK, d)
    requires !blocks ==> |d| == Min(|d + rest|, 512) && c == ByteMode(d)
    ensures Remaining(d + rest, blocks) == [c] + Remaining(rest, blocks)
  {
    var all := d + rest;
    assert all[..|d|] == d && all[|d|..] == rest;
  }

  lemma PlannedTail(p: seq<Command>, got: seq<byte>, left: nat)
    requires Planned(p, got, left, true) && left < BLOCK
    ensures Planned(p, got, left, false)
  {
    hide Plan, BytePlan;
    forall rest: seq<byte> | |rest| == left ensures Plan(got + rest) == p + Remaining(rest, false) {
      assert BlockPlan(rest, BLOCK) == BytePlan(rest);
    }
  }

  lemma PlannedEnd(p: seq<Command>, got: seq<byte>)
    requires Planned(p, got, 0, false)
    ensures Plan(got) == p
  {
    hide Plan;
    assert got + [] == got;
    assert p + Remaining([], false) == p;
  }

  // ---------- Filling a buffer ----------

  /** Nothing outside `lo..hi` differs. */
  predicate SameOutside(b': seq<byte>, b: seq<byte>, lo: nat, hi: nat) {
    lo <= hi <= |b| == |b'| && b'[..lo] == b[..lo] && b'[hi..] == b[hi..]
  }

  predicate AtMostOneRead(w: seq<Issued>, w': seq<Issued>) {
    w' == w || (|w'| == |w| + 1 && w <= w' && !IsWrite(w'[|w|]))
  }

  /** Read arguments are read as such. */
  lemma ReadArgIsRead(addr: nat, count: nat)
    requires 1 <= count
    ensures count <= 512 ==> !Decode(ArgByte(false, addr / 256 % 8, addr % 256, false, count)).write
    ensures count <= MAX_BLOCKS ==> !Decode(ArgBlock(false, addr / 256 % 8, addr % 256, false, count)).write
  {
    hide Or;
    if count <= 512 { DecodeArgByte(false, addr / 256 % 8, addr % 256, false, count); }
    if count <= MAX_BLOCKS { DecodeArgBlock(false, addr / 256 % 8, addr % 256, false, count); }
  }

  lemma ReadsAreNoWrites(w: seq<Issued>, addr: nat, p: seq<Command>)
    requires AllReadAs(w, addr, p)
    ensures NoWrites(w)
  {
    forall j | 0 <= j < |w| ensures !IsWrite(w[j]) {
      assert ReadAs(w[j], addr, p[j]);
    }
  }

  /** One more word in the buffer. */
  lemma FilledNext(b: seq<byte>, b': seq<byte>, lo: nat, start: nat, end: nat, s: seq<byte>, le: seq<byte>)
    requires lo <= start < end <= |b| == |b'| && |le| == 4
    requires start - lo <= |s| && end == Min(start + 4, end) && (start - lo == |s|)
    requires b[lo..start] == s[..start - lo]
    requires forall k :: 0 <= k < |b| && !(start <= k < end) ==> b'[k] == b[k]
    requires forall k :: start <= k < end ==> b'[k] == le[k - start]
    ensures b'[lo..end] == (s + le)[..end - lo]
  {
    assert b'[lo..start] == b[lo..start];
    assert b'[lo..end] == b'[lo..start] + b'[start..end];
    assert b'[start..end] == le[..end - start];
    assert (s + le)[..end - lo] == s + le[..end - start];
  }

  lemma {:induction false} CarriedAppend(p: seq<Command>, c: Command)
    ensures Carried(p + [c]) == Carried(p) + c.data
  {
    if p == [] {
      assert (p + [c])[1..] == [];
    } else {
      CarriedAppend(p[1..], c);
      assert (p + [c])[1..] == p[1..] + [c];
    }
  }

  /**
   A read of `size` bytes after `offset` of them: the commands on the wire since `w0` were answered
   with the front of the buffer, and are the plan of it as far as it goes.
   */
  ghost predicate Filling(w0: seq<Issued>, wire: seq<Issued>, addr: nat, w: seq<Issued>, p: seq<Command>,
                          buf: seq<byte>, offset: nat, size: nat, blocks: bool, tail: seq<byte>) {
    && offset <= size <= |buf| && buf[size..] == tail
    && wire == w0 + w && AllReadAs(w, addr, p) && Carried(p) == buf[..offset]
    && Planned(p, buf[..offset], size - offset, blocks)
  }

  /**
   An error after the commands `p`: they are the start, and not the whole, of the plan of what is
   now in the buffer, so what they took from the card is at its front; at most one more command was
   started, and none was if the error came between commands.
   */
  predicate ReadStopped(w0: seq<Issued>, wire: seq<Issued>, addr: nat, w: seq<Issued>, p: seq<Command>,
                        buf: seq<byte>, between: bool) {
    && AllReadAs(w, addr, p) && p < Plan(buf)
    && AtMostOneRead(w0 + w, wire)
    && (between ==> wire == w0 + w)
  }

  lemma FillStart(w0: seq<Issued>, addr: nat, buf: seq<byte>, size: nat)
    requires size <= |buf|
    ensures Filling(w0, w0, addr, [], [], buf, 0, size, size > 512, buf[size..])
  {
    hide Planned, ReadAs;
    PlannedStart(size);
    assert w0 == w0 + [];
  }

  lemma ChunkIsLegal(buf: seq<byte>, offset: nat, remainder: nat, chunk: int)
    requires remainder >= BLOCK && offset + remainder <= |buf| && chunk == Min(remainder / BLOCK, MAX_BLOCKS) * BLOCK
    ensures 0 < chunk <= remainder && BlockMode(BLOCK, buf[offset..offset + chunk]).Legal()
  {
    ChunkBounds(remainder, BLOCK, Min(remainder / BLOCK, MAX_BLOCKS));
  }

  /** What was read so far survives the next command, whatever its outcome, and grows by it on success. */
  lemma FillStep(w0: seq<Issued>, w1: seq<Issued>, w2: seq<Issued>, addr: nat, w: seq<Issued>, p: seq<Command>,
                 b1: seq<byte>, b2: seq<byte>, lo: nat, hi: nat, size: nat, blocks: bool, tail: seq<byte>, again: bool)
    requires Filling(w0, w1, addr, w, p, b1, lo, size, blocks, tail)
    requires lo < hi <= size && SameOutside(b2, b1, lo, hi)
    requires blocks ==> size - lo >= BLOCK && hi - lo == Min((size - lo) / BLOCK, MAX_BLOCKS) * BLOCK
    requires !blocks ==> hi - lo == Min(size - lo, 512)
    requires AtMostOneRead(w1, w2) && (again ==> w2 == w1)
    ensures b2[size..] == tail
    ensures ReadStopped(w0, w2, addr, w, p, b2[..size], again)
    ensures var c := if blocks then BlockMode(BLOCK, b2[lo..hi]) else ByteMode(b2[lo..hi]);
            |w2| == |w1| + 1 && ReadAs(w2[|w1|], addr, c) ==>
              Filling(w0, w2, addr, w + [w2[|w1|]], p + [c], b2, hi, size, blocks, tail)
  {
    hide Planned, ReadAs, Carried, Plan;
    SliceFacts(b1, b2, lo, hi, size);
    FillStopped(w0, w1, w2, addr, w, p, b1, b2, lo, size, blocks, tail, again);
    var d := b2[lo..hi];
    var c := if blocks then BlockMode(BLOCK, d) else ByteMode(d);
    PlannedNext(p, b1[..lo], size - lo, blocks, d, c);
    CarriedAppend(p, c);
    if |w2| == |w1| + 1 {
      assert w2[..|w1|] == w1;
      assert w2 == w0 + (w + [w2[|w1|]]);
    }
  }

  lemma SliceFacts(b1: seq<byte>, b2: seq<byte>, lo: nat, hi: nat, size: nat)
    requires lo <= hi <= size <= |b1| && SameOutside(b2, b1, lo, hi)
    ensures b2[size..] == b1[size..] && b2[..hi] == b1[..lo] + b2[lo..hi] && b2[..size][..lo] == b1[..lo]
  {
    assert b2[size..] == b2[hi..][size - hi..] && b1[size..] == b1[hi..][size - hi..];
  }

  lemma FillStopped(w0: seq<Issued>, w1: seq<Issued>, w2: seq<Issued>, addr: nat, w: seq<Issued>, p: seq<Command>,
                    b1: seq<byte>, b2: seq<byte>, lo: nat, size: nat, blocks: bool, tail: seq<byte>, again: bool)
    requires Filling(w0, w1, addr, w, p, b1, lo, size, blocks, tail) && lo < size <= |b2|
    requires b2[..size][..lo] == b1[..lo] && AtMostOneRead(w1, w2) && (again ==> w2 == w1)
    ensures ReadStopped(w0, w2, addr, w, p, b2[..size], again)
  {
    hide Planned, ReadAs, Carried, Plan;
    PlanNotOver(p, b2[..size], lo, blocks);
  }

  lemma PlanNotOver(p: seq<Command>, data: seq<byte>, lo: nat, blocks: bool)
    requires lo < |data| && Planned(p, data[..lo], |data| - lo, blocks)
    ensures p < Plan(data)
  {
    hide Plan;
    assert data[..lo] + data[lo..] == data;
    RemainingIsEmpty(data[lo..], blocks);
  }

  lemma RemainingIsEmpty(rest: seq<byte>, blocks: bool)
    ensures Remaining(rest, blocks) == [] <==> rest == []
  {
  }

  lemma FillTail(w0: seq<Issued>, wire: seq<Issued>, addr: nat, w: seq<Issued>, p: seq<Command>,
                 buf: seq<byte>, offset: nat, size: nat, tail: seq<byte>)
    requires Filling(w0, wire, addr, w, p, buf, offset, size, true, tail) && size - offset < BLOCK
    ensures Filling(w0, wire, addr, w, p, buf, offset, size, false, tail) && buf[size..] == tail
  {
    hide Planned, ReadAs, Carried;
    PlannedTail(p, buf[..offset], size - offset);
  }

  lemma FillEnd(w0: seq<Issued>, wire: seq<Issued>, addr: nat, w: seq<Issued>, p: seq<Command>, buf: seq<byte>,
                size: nat, tail: seq<byte>)
    requires Filling(w0, wire, addr, w, p, buf, size, size, false, tail)
    ensures wire == w0 + w && AllReadAs(w, addr, p) && p == Plan(buf[..size]) && buf[size..] == tail
  {
    hide Planned, ReadAs, Carried, Plan;
    PlannedEnd(p, buf[..size]);
  }

  /** A read that plans at most one command had not completed any when it stopped. */
  lemma StoppedBeforeAny(w0: seq<Issued>, wire: seq<Issued>, addr: nat, w: seq<Issued>, p: seq<Command>,
                         buf: seq<byte>, between: bool)
    requires ReadStopped(w0, wire, addr, w, p, buf, between) && |buf| <= 512
    ensures w == [] && (between ==> wire == w0) && AtMostOneRead(w0, wire)
  {
    SingleCommand(buf);
    hide Plan, ReadAs;
    assert w0 + [] == w0;
  }

  lemma PlanOfNothing(addr: nat, data: seq<byte>)
    requires data == []
    ensures AllReadAs([], addr, Plan(data))
  {
  }

  // ---------- Length of a receive ----------

  const BYTEMODE_THRESH := 64

  /** `recv_pkt` of the 8801: the length the card announces, in blocks or, from 64 on, in words. */
  function Announced(blockCnt: byte, byteLen: byte): (n: nat)
  {
    if blockCnt >= BYTEMODE_THRESH then byteLen * 4 else blockCnt * BLOCK
  }

  /** The announcement read back: blocks of 512 bytes below 64, words of four bytes from there on. */
  lemma AnnouncedMeans(blockCnt: byte, byteLen: byte)
    ensures blockCnt < 64 ==> Announced(blockCnt, byteLen) % 512 == 0 && Announced(blockCnt, byteLen) / 512 == blockCnt
    ensures blockCnt >= 64 ==> Announced(blockCnt, byteLen) % 4 == 0 && Announced(blockCnt, byteLen) / 4 == byteLen
  {
  }

  /**
   An announced length in blocks is drained by a single command, which an EAGAIN cannot split;
   so is one in words up to 512 bytes.
   */
  lemma AnnouncedIsOneCommand(blockCnt: byte, byteLen: byte, data: seq<byte>)
    requires |data| == Announced(blockCnt, byteLen)
    ensures |Plan(data)| <= 1 <==> blockCnt < BYTEMODE_THRESH || byteLen <= 128
  {
    SingleCommand(data);
    if blockCnt >= BYTEMODE_THRESH && byteLen > 128 {
      assert byteLen * 4 > 512 && byteLen * 4 < 1024;
      assert |data| % BLOCK != 0;
    }
  }
}
