/**
 The generic transfer helper (kernel/sdhci/src/sdio_io.rs) over any host that carries out single
 CMD53 commands and may refuse each of them.
 */
module SdioIo {
  import opened Bytes
  import opened Transfer

  const SDIO_MAX_BYTE_SIZE := 512
  const SDIO_MAX_BLOCKS_PER_CMD := 511

  /** The executor of single commands; `done` lists those it carried out, with their address. */
  class MmcHost {
    var done: seq<(nat, Command)>

    constructor ()
      ensures done == []
    {
      done := [];
    }

    /** `io_rw_extended_write`: byte mode with `blocks == 0`, else block mode. */
    method IoRwExtendedWrite(addr: nat, data: seq<byte>, blocks: nat, blksz: nat) returns (r: int)
      requires if blocks == 0 then |data| == blksz else |data| == blocks * blksz
      modifies this
      ensures r == 0 ==> done == old(done) + [(addr, if blocks == 0 then ByteMode(data) else BlockMode(blksz, data))]
      ensures r != 0 ==> done == old(done)
    {
      r := *;
      if r == 0 {
        done := done + [(addr, if blocks == 0 then ByteMode(data) else BlockMode(blksz, data))];
      }
    }

    /**
     `sdio_writesb`, which is also the write direction of `sdio_io_rw_ext_helper`: exactly the
     planned commands in order, or on an error exactly those before the one refused.
     */
    method SdioWritesb(addr: nat, src: seq<byte>, multiBlock: bool, curBlksize: nat) returns (r: int, ghost k: nat)
      requires multiBlock && src != [] ==> curBlksize > 0
      modifies this
      ensures k <= |GenericPlan(src, multiBlock, curBlksize)|
      ensures done == old(done) + AtAddress(addr, GenericPlan(src, multiBlock, curBlksize)[..k])
      ensures r == 0 <==> k == |GenericPlan(src, multiBlock, curBlksize)|
    {
      hide *;
      ghost var d0 := done;
      ghost var p := GenericPlan(src, multiBlock, curBlksize);
      k := 0;
      IssueStarts(d0, addr, src, multiBlock, curBlksize);
      var size := |src|;
      if size == 0 { return 0, 0; }
      var offset: nat := 0;
      if multiBlock && size >= curBlksize {
        var remainder: nat := size;
        while remainder >= curBlksize
          invariant offset + remainder == size
          invariant IssuedSoFar(d0, done, addr, p, k, src, offset, true, curBlksize)
        {
          var blocks := Min(remainder / curBlksize, SDIO_MAX_BLOCKS_PER_CMD);
          var chunk := blocks * curBlksize;
          NextBlocks(d0, done, addr, p, k, src, offset, curBlksize, blocks, chunk);
          r := IoRwExtendedWrite(addr, src[offset..offset + chunk], blocks, curBlksize);
          if r != 0 { return; }
          offset := offset + chunk;
          remainder := remainder - chunk;
          k := k + 1;
        }
        BlocksOver(d0, done, addr, p, k, src, offset, curBlksize);
      }
      while offset < size
        invariant offset <= size
        invariant IssuedSoFar(d0, done, addr, p, k, src, offset, false, curBlksize)
        decreases size - offset
      {
        var n := Min(size - offset, SDIO_MAX_BYTE_SIZE);
        NextBytes(d0, done, addr, p, k, src, offset, curBlksize, n);
        r := IoRwExtendedWrite(addr, src[offset..offset + n], 0, n);
        if r != 0 { return; }
        offset := offset + n;
        k := k + 1;
      }
      AllOver(d0, done, addr, p, k, src, curBlksize);
      r := 0;
    }
  }

  function AtAddress(addr: nat, p: seq<Command>): (s: seq<(nat, Command)>)
    ensures |s| == |p|
  {
    seq(|p|, i requires 0 <= i < |p| => (addr, p[i]))
  }

  /** `k` commands of the plan are done, and what is left of it is the plan of the bytes from `offset` on. */
  predicate IssuedSoFar(d0: seq<(nat, Command)>, done: seq<(nat, Command)>, addr: nat, p: seq<Command>, k: nat,
                        src: seq<byte>, offset: nat, blocks: bool, blksz: nat)
    requires blocks ==> blksz > 0
  {
    && k <= |p| && offset <= |src| && done == d0 + AtAddress(addr, p[..k])
    && p[k..] == (if blocks then BlockPlan(src[offset..], blksz) else BytePlan(src[offset..]))
    && (k == |p| <==> offset == |src|)
  }

  lemma IssueStarts(d0: seq<(nat, Command)>, addr: nat, src: seq<byte>, multiBlock: bool, blksz: nat)
    requires multiBlock && src != [] ==> blksz > 0
    ensures IssuedSoFar(d0, d0, addr, GenericPlan(src, multiBlock, blksz), 0, src, 0,
                        multiBlock && src != [] && |src| >= blksz, blksz)
    ensures d0 == d0 + AtAddress(addr, GenericPlan(src, multiBlock, blksz)[..0])
    ensures src == [] ==> |GenericPlan(src, multiBlock, blksz)| == 0
  {
    assert src[0..] == src;
    GenericPlanCarries(src, multiBlock, blksz);
  }

  /** One more command of the plan, if the host carries it out. */
  lemma Issue(d0: seq<(nat, Command)>, done: seq<(nat, Command)>, addr: nat, p: seq<Command>, k: nat,
              src: seq<byte>, offset: nat, blocks: bool, blksz: nat, c: Command, rest: seq<Command>, n: nat)
    requires (blocks ==> blksz > 0) && 0 < n && offset + n <= |src|
    requires IssuedSoFar(d0, done, addr, p, k, src, offset, blocks, blksz) && p[k..] == [c] + rest
    requires rest == if blocks then BlockPlan(src[offset + n..], blksz) else BytePlan(src[offset + n..])
    requires rest == [] <==> offset + n == |src|
    ensures k < |p| && p[k] == c
    ensures IssuedSoFar(d0, done + [(addr, c)], addr, p, k + 1, src, offset + n, blocks, blksz)
  {
    hide BlockPlan, BytePlan;
    assert |p[k..]| == |p| - k >= 1 && p[k] == p[k..][0];
    assert p[k + 1..] == p[k..][1..] == rest;
    assert AtAddress(addr, p[..k + 1]) == AtAddress(addr, p[..k]) + [(addr, c)];
  }

  lemma PlanIsEmpty(data: seq<byte>, blksz: nat)
    ensures blksz > 0 ==> (BlockPlan(data, blksz) == [] <==> data == [])
    ensures BytePlan(data) == [] <==> data == []
  {
  }

  lemma NextBlocks(d0: seq<(nat, Command)>, done: seq<(nat, Command)>, addr: nat, p: seq<Command>, k: nat,
                   src: seq<byte>, offset: nat, blksz: nat, blocks: int, chunk: int)
    requires 0 < blksz && offset + blksz <= |src| && IssuedSoFar(d0, done, addr, p, k, src, offset, true, blksz)
    requires blocks == Min((|src| - offset) / blksz, SDIO_MAX_BLOCKS_PER_CMD) && chunk == blocks * blksz
    ensures 1 <= blocks && 0 < chunk && offset + chunk <= |src| && k < |p|
    ensures done == d0 + AtAddress(addr, p[..k])
    ensures IssuedSoFar(d0, done + [(addr, BlockMode(blksz, src[offset..offset + chunk]))], addr, p, k + 1,
                        src, offset + chunk, true, blksz)
  {
    var rest := src[offset..];
    ChunkBounds(|rest|, blksz, blocks);
    assert rest[..chunk] == src[offset..offset + chunk] && rest[chunk..] == src[offset + chunk..];
    PlanIsEmpty(rest[chunk..], blksz);
    Issue(d0, done, addr, p, k, src, offset, true, blksz,
          BlockMode(blksz, rest[..chunk]), BlockPlan(rest[chunk..], blksz), chunk);
  }

  lemma NextBytes(d0: seq<(nat, Command)>, done: seq<(nat, Command)>, addr: nat, p: seq<Command>, k: nat,
                  src: seq<byte>, offset: nat, blksz: nat, n: int)
    requires offset < |src| && IssuedSoFar(d0, done, addr, p, k, src, offset, false, blksz)
    requires n == Min(|src| - offset, SDIO_MAX_BYTE_SIZE)
    ensures 0 < n && offset + n <= |src| && k < |p|
    ensures done == d0 + AtAddress(addr, p[..k])
    ensures IssuedSoFar(d0, done + [(addr, ByteMode(src[offset..offset + n]))], addr, p, k + 1,
                        src, offset + n, false, blksz)
  {
    var rest := src[offset..];
    assert rest[..n] == src[offset..offset + n] && rest[n..] == src[offset + n..];
    PlanIsEmpty(rest[n..], blksz);
    Issue(d0, done, addr, p, k, src, offset, false, blksz, ByteMode(rest[..n]), BytePlan(rest[n..]), n);
  }

  lemma BlocksOver(d0: seq<(nat, Command)>, done: seq<(nat, Command)>, addr: nat, p: seq<Command>, k: nat,
                   src: seq<byte>, offset: nat, blksz: nat)
    requires blksz > 0 && offset <= |src| < offset + blksz
    requires IssuedSoFar(d0, done, addr, p, k, src, offset, true, blksz)
    ensures IssuedSoFar(d0, done, addr, p, k, src, offset, false, blksz)
  {
    hide BytePlan;
  }

  lemma AllOver(d0: seq<(nat, Command)>, done: seq<(nat, Command)>, addr: nat, p: seq<Command>, k: nat,
                src: seq<byte>, blksz: nat)
    requires IssuedSoFar(d0, done, addr, p, k, src, |src|, false, blksz)
    ensures k == |p| && done == d0 + AtAddress(addr, p[..k])
  {
    hide BytePlan;
  }
}
