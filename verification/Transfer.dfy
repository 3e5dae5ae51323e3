/**
 How a write is split into CMD53 commands, by the backend (driver/bsp/src/sdio/backend.rs) and by
 the generic helper (kernel/sdhci/src/sdio_io.rs), and what the card receives.
 */
module Transfer {
  import opened Bytes
  import opened Cmd53

  /** One command with the data it is meant to carry: byte mode, or block mode with a block size. */
  datatype Command = ByteMode(data: seq<byte>) | BlockMode(blksz: nat, data: seq<byte>) {
    predicate Legal() {
      match this
      case ByteMode(_) => 1 <= |data| <= 512
      case BlockMode(_, _) => blksz > 0 && blksz <= |data| <= MAX_BLOCKS * blksz && |data| % blksz == 0
    }

    /** The argument word; `addr` is function * 0x100 + register, the register address stays fixed. */
    function Arg(addr: nat): nat {
      var fn, reg := addr / 256 % 8, addr % 256;
      match this
      case ByteMode(_) => ArgByte(true, fn, reg, false, |data|)
      case BlockMode(_, _) => ArgBlock(true, fn, reg, false, if blksz == 0 then 0 else |data| / blksz)
    }
  }

  /** What the host hands over after the command: words through the data port, or a DMA buffer. */
  datatype DataPhase = Pio(words: seq<u32>) | Dma(bytes: seq<byte>) {
    function Stream(): seq<byte> {
      match this
      case Pio(words) => UnpackWords(words)
      case Dma(bytes) => bytes
    }
  }

  /** A command whose command register was written: argument, block registers, data so far. */
  datatype Issued = Issued(arg: nat, blkCount: nat, blkSize: nat, phase: DataPhase, complete: bool)

  /** The bytes the card takes from an issued command. */
  function CardBytes(i: Issued): seq<byte> {
    var s := i.phase.Stream();
    s[..Min(TransferLength(Decode(i.arg)), |s|)]
  }

  /** A backend command carried out to the end. */
  function Completed(addr: nat, c: Command): Issued {
    match c
    case ByteMode(data) => Issued(c.Arg(addr), 1, |data|, Pio(PackWords(data)), true)
    case BlockMode(_, data) => Issued(c.Arg(addr), |data| / BLOCK, BLOCK, Dma(data), true)
  }

  /** `i` is command `c` as far as it got: its registers, and a prefix of its data; all of it if it was carried out. */
  predicate AttemptOf(i: Issued, addr: nat, c: Command) {
    var full := Completed(addr, c);
    && i.arg == full.arg && i.blkCount == full.blkCount && i.blkSize == full.blkSize
    && (i.complete ==> i == full)
    && match (i.phase, full.phase)
       case (Pio(words), Pio(all)) => words <= all
       case (Dma(bytes), Dma(all)) => bytes == all
       case _ => false
  }

  /**
   The card receives exactly the command's bytes at one fixed function and register, and the
   transfer length it reads from the argument is the one programmed into the host's block registers:
   blocks of 512 bytes, or in byte mode one block of as many bytes as there are.  Blocks go by DMA,
   single bytes through the data port.
   */
  lemma CompletedDelivers(addr: nat, c: Command)
    requires c.Legal() && (c.BlockMode? ==> c.blksz == BLOCK)
    ensures var i := Completed(addr, c);
            var a := Decode(i.arg);
            && i.complete && CardBytes(i) == c.data
            && a == Access(true, addr / 256 % 8, c.BlockMode?, false, addr % 256,
                           if c.BlockMode? then |c.data| / BLOCK else |c.data| % 512)
            && TransferLength(a) == |c.data| == i.blkCount * i.blkSize
            && i.blkCount == (if c.BlockMode? then |c.data| / 512 else 1)
            && i.blkSize == (if c.BlockMode? then 512 else |c.data|)
            && (i.phase.Dma? <==> c.BlockMode?)
  {
    hide Or;
    var fn, reg := addr / 256 % 8, addr % 256;
    match c
    case ByteMode(data) =>
      DecodeArgByte(true, fn, reg, false, |data|);
      UnpackPackWords(data);
    case BlockMode(_, data) =>
      DecodeArgBlock(true, fn, reg, false, |data| / BLOCK);
  }

  // ---------- Splitting ----------

  function BytePlan(data: seq<byte>): (p: seq<Command>)
    decreases |data|
  {
    if data == [] then []
    else
      var n := Min(|data|, 512);
      [ByteMode(data[..n])] + BytePlan(data[n..])
  }

  function BlockPlan(data: seq<byte>, blksz: nat): (p: seq<Command>)
    requires blksz > 0
    decreases |data|
  {
    if |data| < blksz then BytePlan(data)
    else
      var chunk := Chunk(|data|, blksz);
      [BlockMode(blksz, data[..chunk])] + BlockPlan(data[chunk..], blksz)
  }

  /** Bytes moved by the next block-mode command when `remainder` are left. */
  function Chunk(remainder: nat, blksz: nat): (chunk: nat)
    requires 0 < blksz <= remainder
    ensures 0 < chunk <= remainder
    ensures chunk == Min(remainder / blksz, MAX_BLOCKS) * blksz
  {
    var q := Min(remainder / blksz, MAX_BLOCKS);
    ChunkBounds(remainder, blksz, q);
    q * blksz
  }

  lemma ChunkBounds(remainder: nat, blksz: nat, q: nat)
    requires 0 < blksz <= remainder && q == Min(remainder / blksz, MAX_BLOCKS)
    ensures 1 <= q && blksz <= q * blksz <= remainder && q * blksz <= MAX_BLOCKS * blksz
    ensures (q * blksz) % blksz == 0 && (q * blksz) / blksz == q
  {
    var d := remainder / blksz;
    QuotientBounds(remainder, blksz);
    ProductMono(q, d, blksz);
    ProductMono(1, q, blksz);
    ProductMono(q, MAX_BLOCKS, blksz);
    MultipleDiv(q, blksz);
  }

  lemma QuotientBounds(n: nat, b: nat)
    requires 0 < b <= n
    ensures 1 <= n / b && n / b * b <= n
  {
    var k := n / b;
    assert n == k * b + n % b;
    assert k == 0 ==> k * b == 0;
  }

  lemma ProductMono(x: nat, y: nat, b: nat)
    requires x <= y
    ensures x * b <= y * b
  {
  }

  lemma MultipleDiv(q: nat, b: nat)
    requires b > 0
    ensures (q * b) % b == 0 && (q * b) / b == q
  {
    var x := q * b;
    assert x == (x / b) * b + x % b;
    var k := q - x / b;
    assert k * b == x % b;
    assert k >= 1 ==> k * b >= b;
    assert k <= -1 ==> k * b + b <= 0;
  }

  /** The backend: block mode only above 512 bytes. */
  function Plan(data: seq<byte>): seq<Command> {
    if |data| > 512 then BlockPlan(data, BLOCK) else BytePlan(data)
  }

  /** The generic helper: block mode from one block on, if the card supports it. */
  function GenericPlan(data: seq<byte>, multiBlock: bool, blksz: nat): seq<Command>
    requires multiBlock && data != [] ==> blksz > 0
  {
    if multiBlock && data != [] && |data| >= blksz then BlockPlan(data, blksz) else BytePlan(data)
  }

  /** All data of a list of commands, in order. */
  function Carried(p: seq<Command>): seq<byte> {
    if p == [] then [] else p[0].data + Carried(p[1..])
  }

  lemma {:induction false} BytePlanCarries(data: seq<byte>)
    ensures Carried(BytePlan(data)) == data
    ensures forall c :: c in BytePlan(data) ==> c.Legal() && c.ByteMode?
    decreases |data|
  {
    if data != [] {
      var n := Min(|data|, 512);
      BytePlanCarries(data[n..]);
      assert BytePlan(data)[1..] == BytePlan(data[n..]);
      assert data == data[..n] + data[n..];
    }
  }

  lemma {:induction false} BlockPlanCarries(data: seq<byte>, blksz: nat)
    requires blksz > 0
    ensures Carried(BlockPlan(data, blksz)) == data
    ensures forall c :: c in BlockPlan(data, blksz) ==> c.Legal() && (c.BlockMode? ==> c.blksz == blksz)
    decreases |data|
  {
    if |data| < blksz {
      BytePlanCarries(data);
    } else {
      var chunk := Chunk(|data|, blksz);
      ChunkBounds(|data|, blksz, Min(|data| / blksz, MAX_BLOCKS));
      BlockPlanCarries(data[chunk..], blksz);
      assert BlockPlan(data, blksz)[1..] == BlockPlan(data[chunk..], blksz);
      assert data == data[..chunk] + data[chunk..];
    }
  }

  /** The commands the backend plans carry the buffer in order, each within the limits of CMD53 and of the DMA pool. */
  lemma PlanCarries(data: seq<byte>)
    ensures Carried(Plan(data)) == data
    ensures forall c :: c in Plan(data) ==> c.Legal() && (c.BlockMode? ==> c.blksz == BLOCK)
    ensures forall c :: c in Plan(data) && c.BlockMode? ==> |c.data| <= DMA_POOL_SIZE && |c.data| % 4 == 0
  {
    hide BlockPlan, BytePlan, Carried;
    if |data| > 512 { BlockPlanCarries(data, BLOCK); } else { BytePlanCarries(data); }
    forall c | c in Plan(data) && c.BlockMode? ensures |c.data| <= DMA_POOL_SIZE && |c.data| % 4 == 0 {
      assert c.Legal() && c.blksz == 512;
    }
  }

  /** So do those of the generic helper, for every block size and with or without block mode. */
  lemma GenericPlanCarries(data: seq<byte>, multiBlock: bool, blksz: nat)
    requires multiBlock && data != [] ==> blksz > 0
    ensures Carried(GenericPlan(data, multiBlock, blksz)) == data
    ensures forall c :: c in GenericPlan(data, multiBlock, blksz) ==> c.Legal()
  {
    if multiBlock && data != [] { BlockPlanCarries(data, blksz); }
    BytePlanCarries(data);
  }

  /**
   A list that begins with `blocks` block-mode commands, all of 511 blocks but the last of them, and
   goes on with `tails` byte-mode commands, all of 512 bytes but the last.
   */
  predicate Shaped(p: seq<Command>, blocks: nat, tails: nat, blksz: nat) {
    && |p| == blocks + tails
    && (forall j :: 0 <= j < blocks ==> p[j].BlockMode? && p[j].blksz == blksz)
    && (forall j :: 0 <= j < blocks - 1 ==> |p[j].data| == 511 * blksz)
    && (forall j :: blocks <= j < |p| ==> p[j].ByteMode?)
    && (forall j :: blocks <= j < |p| - 1 ==> |p[j].data| == 512)
  }

  lemma {:induction false} BytePlanShape(data: seq<byte>)
    ensures Shaped(BytePlan(data), 0, (|data| + 511) / 512, 512)
    decreases |data|
  {
    if data != [] {
      var n := Min(|data|, 512);
      BytePlanShape(data[n..]);
      assert BytePlan(data)[1..] == BytePlan(data[n..]);
      assert n < 512 ==> BytePlan(data[n..]) == [];
    }
  }

  lemma DivSub(n: nat, q: nat, b: nat)
    requires b > 0 && q * b <= n
    ensures (n - q * b) / b == n / b - q && (n - q * b) % b == n % b
  {
    var d, r := n / b, n % b;
    assert n == d * b + r;
    assert n - q * b == (d - q) * b + r;
    QuotientIs(n - q * b, d - q, r, b);
  }

  /** Block-mode commands take as many blocks as they can, and only what is less than a block is left to byte mode. */
  lemma {:induction false} BlockPlanShape(data: seq<byte>, blksz: nat)
    requires blksz > 0
    ensures Shaped(BlockPlan(data, blksz), (|data| / blksz + 510) / 511, (|data| % blksz + 511) / 512, blksz)
    decreases |data|
  {
    if |data| < blksz {
      QuotientIs(|data|, 0, |data|, blksz);
      BytePlanShape(data);
    } else {
      var q := Min(|data| / blksz, MAX_BLOCKS);
      ChunkBounds(|data|, blksz, q);
      var chunk := Chunk(|data|, blksz);
      DivSub(|data|, q, blksz);
      BlockPlanShape(data[chunk..], blksz);
      ShapeCons(BlockMode(blksz, data[..chunk]), BlockPlan(data[chunk..], blksz), |data| / blksz, q,
                (|data| % blksz + 511) / 512, blksz);
    }
  }

  lemma ShapeCons(c: Command, rest: seq<Command>, d: nat, q: nat, tails: nat, blksz: nat)
    requires q == Min(d, 511) && d >= 1 && c.BlockMode? && c.blksz == blksz && |c.data| == q * blksz
    requires Shaped(rest, (d - q + 510) / 511, tails, blksz)
    ensures Shaped([c] + rest, (d + 510) / 511, tails, blksz)
  {
  }

  /** What the backend plans, outright: which modes, how many commands, and how long each is. */
  lemma PlanShape(data: seq<byte>)
    ensures |data| > 512 ==> Shaped(Plan(data), (|data| / 512 + 510) / 511, if |data| % 512 == 0 then 0 else 1, 512)
    ensures |data| <= 512 ==> Shaped(Plan(data), 0, if data == [] then 0 else 1, 512)
  {
    if |data| > 512 { BlockPlanShape(data, BLOCK); } else { BytePlanShape(data); }
  }

  /** The same for the generic helper, which uses block mode from one block on. */
  lemma GenericPlanShape(data: seq<byte>, multiBlock: bool, blksz: nat)
    requires multiBlock && data != [] ==> blksz > 0
    ensures multiBlock && data != [] && |data| >= blksz ==>
              Shaped(GenericPlan(data, multiBlock, blksz),
                     (|data| / blksz + 510) / 511, (|data| % blksz + 511) / 512, blksz)
    ensures !(multiBlock && data != [] && |data| >= blksz) ==>
              Shaped(GenericPlan(data, multiBlock, blksz), 0, (|data| + 511) / 512, 512)
  {
    if multiBlock && data != [] && |data| >= blksz { BlockPlanShape(data, blksz); } else { BytePlanShape(data); }
  }

  /** The two helpers issue the same commands for every size but 512. */
  lemma GenericVersusBackend(data: seq<byte>)
    ensures GenericPlan(data, true, BLOCK) == Plan(data) <==> |data| != 512
  {
    if |data| == 512 {
      assert Plan(data)[0].ByteMode?;
      assert GenericPlan(data, true, BLOCK)[0].BlockMode?;
    }
  }

  /** The bytes of all issued commands as the card sees them. */
  function CardStream(w: seq<Issued>): seq<byte> {
    if w == [] then [] else CardBytes(w[0]) + CardStream(w[1..])
  }

  function AllCompleted(addr: nat, p: seq<Command>): (w: seq<Issued>)
    ensures |w| == |p|
  {
    seq(|p|, i requires 0 <= i < |p| => Completed(addr, p[i]))
  }

  /** End to end: decoding every command and joining what the card takes gives the buffer back. */
  lemma PlanRefinesStream(addr: nat, data: seq<byte>)
    ensures CardStream(AllCompleted(addr, Plan(data))) == data
  {
    PlanCarries(data);
    StreamIsCarried(addr, Plan(data));
  }

  lemma {:induction false} StreamIsCarried(addr: nat, p: seq<Command>)
    requires forall c :: c in p ==> c.Legal() && (c.BlockMode? ==> c.blksz == BLOCK)
    ensures CardStream(AllCompleted(addr, p)) == Carried(p)
  {
    hide Command.Legal, Completed, CardBytes, Decode, TransferLength;
    if p != [] {
      CompletedDelivers(addr, p[0]);
      StreamIsCarried(addr, p[1..]);
      assert AllCompleted(addr, p)[1..] == AllCompleted(addr, p[1..]);
    }
  }

  // ---------- Writes among reads ----------

  /** The card reads the command as a write. */
  predicate IsWrite(i: Issued) { Decode(i.arg).write }

  predicate AllWrites(w: seq<Issued>) { forall j :: 0 <= j < |w| ==> IsWrite(w[j]) }

  predicate NoWrites(w: seq<Issued>) { forall j :: 0 <= j < |w| ==> !IsWrite(w[j]) }

  /** The writes on a wire, in order. */
  function WritesOf(w: seq<Issued>): seq<Issued> {
    if w == [] then []
    else WritesOf(w[..|w| - 1]) + if IsWrite(w[|w| - 1]) then [w[|w| - 1]] else []
  }

  lemma {:induction false} WritesOfAppend(a: seq<Issued>, b: seq<Issued>)
    ensures WritesOf(a + b) == WritesOf(a) + WritesOf(b)
    decreases |b|
  {
    hide IsWrite;
    if b == [] {
      assert a + b == a;
    } else {
      assert (a + b)[..|a + b| - 1] == a + b[..|b| - 1];
      WritesOfAppend(a, b[..|b| - 1]);
    }
  }

  lemma {:induction false} OnlyWrites(w: seq<Issued>)
    ensures AllWrites(w) ==> WritesOf(w) == w
    ensures NoWrites(w) ==> WritesOf(w) == []
  {
    hide IsWrite;
    if w != [] {
      OnlyWrites(w[..|w| - 1]);
      assert w == w[..|w| - 1] + [w[|w| - 1]];
    }
  }

  lemma AttemptIsWrite(i: Issued, addr: nat, c: Command)
    requires c.Legal() && (c.BlockMode? ==> c.blksz == BLOCK) && AttemptOf(i, addr, c)
    ensures IsWrite(i)
  {
    hide Or;
    var fn, reg := addr / 256 % 8, addr % 256;
    match c
    case ByteMode(data) => DecodeArgByte(true, fn, reg, false, |data|);
    case BlockMode(_, data) => DecodeArgBlock(true, fn, reg, false, |data| / BLOCK);
  }

  lemma CompletedIsAttempt(addr: nat, c: Command)
    ensures AttemptOf(Completed(addr, c), addr, c)
  {
    hide Command.Arg;
  }

  /** Exactly which writes are a single command. */
  lemma SingleCommand(data: seq<byte>)
    ensures |Plan(data)| == 1 <==> 1 <= |data| <= 512 || (|data| % BLOCK == 0 && 512 < |data| <= MAX_BLOCKS * BLOCK)
    ensures |Plan(data)| == 1 && |data| > 512 ==> Plan(data) == [BlockMode(BLOCK, data)]
    ensures |Plan(data)| == 1 && |data| <= 512 ==> Plan(data) == [ByteMode(data)]
    ensures Plan(data) == [] <==> data == []
  {
    if |data| > 512 {
      var chunk := Chunk(|data|, BLOCK);
      assert Plan(data) == [BlockMode(BLOCK, data[..chunk])] + BlockPlan(data[chunk..], BLOCK);
      assert |data[chunk..]| == 0 <==> |data| % BLOCK == 0 && |data| <= MAX_BLOCKS * BLOCK;
    } else if data != [] {
      assert data[..|data|] == data && data[|data|..] == [];
      assert Plan(data) == [ByteMode(data)] + BytePlan(data[|data|..]);
    }
  }
}
