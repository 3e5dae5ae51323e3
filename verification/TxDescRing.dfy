/** The transmit descriptor rings of the host environment (driver/fdrv/src/sdio_bus.rs). */
module TxDescRing {
  import opened Wrappers
  import opened Bytes

  const NX_TXQ_CNT := 4
  const TXDESC_PER_QUEUE := 64

  type HostId = x: int | 0 <= x < 0x1_0000_0000_0000_0000

  /** The ring slot `i` entries after index `used`. */
  function SlotAt(used: nat, i: nat): nat { (used + i) % TXDESC_PER_QUEUE }

  /** One queue: the two running 32-bit indices and the ring of host ids. */
  datatype Ring = Ring(free: u32, used: u32, slots: seq<HostId>) {
    predicate Valid() { |slots| == TXDESC_PER_QUEUE }

    /** Entries pushed and not yet confirmed, from the indices alone. */
    function Count(): nat { (free - used) % TWO_TO_THE_32 }

    /** Those entries, oldest first. */
    function Outstanding(): (s: seq<HostId>)
      requires Valid() && Count() <= TXDESC_PER_QUEUE
      ensures |s| == Count()
    {
      seq(Count(), i requires 0 <= i < Count() => slots[SlotAt(used, i)])
    }
  }

  function Push(r: Ring, id: HostId): Ring
    requires r.Valid()
  {
    r.(slots := r.slots[r.free % TXDESC_PER_QUEUE := id], free := (r.free + 1) % TWO_TO_THE_32)
  }

  function Advance(r: Ring): (Ring, HostId)
    requires r.Valid()
  {
    (r.(used := (r.used + 1) % TWO_TO_THE_32), r.slots[r.used % TXDESC_PER_QUEUE])
  }

  // ---------- In place ----------

  class SdioHostEnv {
    const freeIdx: array<u32>
    const usedIdx: array<u32>
    const hostId: array2<HostId>

    ghost predicate Valid()
      reads this
    {
      && freeIdx != usedIdx && freeIdx.Length == usedIdx.Length == NX_TXQ_CNT
      && hostId.Length0 == NX_TXQ_CNT && hostId.Length1 == TXDESC_PER_QUEUE
    }

    ghost function Queue(q: nat): (r: Ring)
      requires Valid() && q < NX_TXQ_CNT
      reads this, freeIdx, usedIdx, hostId
      ensures r.Valid()
    {
      Ring(freeIdx[q], usedIdx[q],
           seq(TXDESC_PER_QUEUE, i requires 0 <= i < TXDESC_PER_QUEUE reads this, hostId => hostId[q, i]))
    }

    constructor ()
      ensures Valid() && fresh(freeIdx) && fresh(usedIdx) && fresh(hostId)
      ensures forall q :: 0 <= q < NX_TXQ_CNT ==> Queue(q).Count() == 0
    {
      freeIdx := new u32[NX_TXQ_CNT](_ => 0);
      usedIdx := new u32[NX_TXQ_CNT](_ => 0);
      hostId := new HostId[NX_TXQ_CNT, TXDESC_PER_QUEUE]((_, _) => 0);
    }

    method TxdescPush(queueIdx: nat, id: HostId)
      requires Valid()
      modifies freeIdx, hostId
      ensures queueIdx < NX_TXQ_CNT ==> Queue(queueIdx) == Push(old(Queue(queueIdx)), id)
      ensures forall q :: 0 <= q < NX_TXQ_CNT && q != queueIdx ==> Queue(q) == old(Queue(q))
    {
      if queueIdx >= NX_TXQ_CNT {
        return;
      }
      var free := freeIdx[queueIdx] % TXDESC_PER_QUEUE;
      hostId[queueIdx, free] := id;
      freeIdx[queueIdx] := (freeIdx[queueIdx] + 1) % TWO_TO_THE_32;
      assert Queue(queueIdx).slots == old(Queue(queueIdx)).slots[free := id];
    }

    method TxCfmAdvance(queueIdx: nat) returns (id: Option<HostId>)
      requires Valid()
      modifies usedIdx
      ensures queueIdx >= 4 ==> id == None
      ensures queueIdx < 4 ==> id.Some? && (Queue(queueIdx), id.value) == Advance(old(Queue(queueIdx)))
      ensures forall q :: 0 <= q < NX_TXQ_CNT && q != queueIdx ==> Queue(q) == old(Queue(q))
    {
      if queueIdx >= NX_TXQ_CNT {
        return None;
      }
      var used := usedIdx[queueIdx] % TXDESC_PER_QUEUE;
      id := Some(hostId[queueIdx, used]);
      usedIdx[queueIdx] := (usedIdx[queueIdx] + 1) % TWO_TO_THE_32;
      assert Queue(queueIdx).slots == old(Queue(queueIdx)).slots;
    }
  }

  // ---------- FIFO behaviour ----------

  lemma SlotIndex(r: Ring)
    ensures SlotAt(r.used, r.Count()) == r.free % TXDESC_PER_QUEUE
  {
    assert r.used + r.Count() == r.free || r.used + r.Count() == r.free + TWO_TO_THE_32;
  }

  lemma SlotsDiffer(used: nat, i: nat, n: nat)
    requires i < n < TXDESC_PER_QUEUE
    ensures SlotAt(used, i) != SlotAt(used, n)
  {
  }

  lemma NextSlot(used: u32, i: nat)
    ensures SlotAt((used + 1) % TWO_TO_THE_32, i) == SlotAt(used, i + 1)
  {
  }

  /** While the ring has room, a push appends, wherever the 32-bit indices stand. */
  lemma PushAppends(r: Ring, id: HostId)
    requires r.Valid() && r.Count() < TXDESC_PER_QUEUE
    ensures Push(r, id).Count() == r.Count() + 1
    ensures Push(r, id).Outstanding() == r.Outstanding() + [id]
  {
    var r', n := Push(r, id), r.Count();
    CountAfterPush(r, id);
    SlotIndex(r);
    hide SlotAt, Ring.Count;
    forall i: nat | i < n ensures SlotAt(r.used, i) != SlotAt(r.used, n) {
      SlotsDiffer(r.used, i, n);
    }
  }

  /** A confirmation returns the oldest outstanding entry and removes it. */
  lemma AdvanceTakesOldest(r: Ring)
    requires r.Valid() && 1 <= r.Count() <= TXDESC_PER_QUEUE
    ensures Advance(r).0.Count() == r.Count() - 1
    ensures Advance(r).1 == r.Outstanding()[0] && Advance(r).0.Outstanding() == r.Outstanding()[1..]
  {
    var r', n := Advance(r).0, r.Count();
    CountAfterAdvance(r);
    assert SlotAt(r.used, 0) == r.used % TXDESC_PER_QUEUE;
    hide SlotAt, Ring.Count;
    forall i: nat | i < n - 1 ensures SlotAt(r'.used, i) == SlotAt(r.used, i + 1) {
      NextSlot(r.used, i);
    }
  }

  /**
   Both limits are exact: a push into a full ring overwrites the oldest entry, which is then answered with the
   newest.
   */
  lemma FullPushOverwrites(r: Ring, id: HostId)
    requires r.Valid() && r.Count() == TXDESC_PER_QUEUE
    ensures Push(r, id).Count() == TXDESC_PER_QUEUE + 1 && Advance(Push(r, id)).1 == id
  {
    SlotIndex(r);
    FullTurn(r.used);
    CountAfterPush(r, id);
    hide Ring.Count, SlotAt;
  }

  lemma FullTurn(used: nat)
    ensures SlotAt(used, TXDESC_PER_QUEUE) == used % TXDESC_PER_QUEUE
  {
  }

  lemma CountAfterPush(r: Ring, id: HostId)
    requires r.Valid() && r.Count() <= TXDESC_PER_QUEUE
    ensures Push(r, id).Count() == r.Count() + 1
  {
  }

  lemma CountAfterAdvance(r: Ring)
    requires r.Valid() && 1 <= r.Count() <= TXDESC_PER_QUEUE
    ensures Advance(r).0.Count() == r.Count() - 1
  {
  }

  /** ... and a confirmation of an empty ring makes it look as if 2^32 - 1 entries were outstanding. */
  lemma EmptyAdvanceUnderflows(r: Ring)
    requires r.Valid() && r.Count() == 0
    ensures Advance(r).0.Count() == TWO_TO_THE_32 - 1
  {
  }

  // ---------- Runs over the four queues ----------

  datatype Op = In(q: nat, id: HostId) | Cfm(q: nat)

  function Step(rs: seq<Ring>, o: Op): (rs': seq<Ring>)
    requires |rs| == NX_TXQ_CNT && forall q :: 0 <= q < |rs| ==> rs[q].Valid()
    ensures |rs'| == NX_TXQ_CNT && forall q :: 0 <= q < |rs'| ==> rs'[q].Valid()
  {
    match o
    case In(q, id) => if q < NX_TXQ_CNT then rs[q := Push(rs[q], id)] else rs
    case Cfm(q) => if q < NX_TXQ_CNT then rs[q := Advance(rs[q]).0] else rs
  }

  /** The rings after the operations of `h`, the indices of queue `q` starting at `start[q]`. */
  function Run(start: seq<u32>, h: seq<Op>): (rs: seq<Ring>)
    requires |start| == NX_TXQ_CNT
    ensures |rs| == NX_TXQ_CNT && forall q :: 0 <= q < |rs| ==> rs[q].Valid()
  {
    if h == [] then
      seq(NX_TXQ_CNT, q requires 0 <= q < NX_TXQ_CNT => Ring(start[q], start[q], seq(TXDESC_PER_QUEUE, _ => 0)))
    else Step(Run(start, h[..|h| - 1]), h[|h| - 1])
  }

  /** Every push finds room and every confirmation an entry. */
  predicate InWindow(start: seq<u32>, h: seq<Op>)
    requires |start| == NX_TXQ_CNT
  {
    h == [] ||
    (InWindow(start, h[..|h| - 1]) &&
     var rs := Run(start, h[..|h| - 1]);
     match h[|h| - 1]
     case In(q, _) => q < 4 ==> rs[q].Count() < 64
     case Cfm(q) => q < 4 ==> 1 <= rs[q].Count())
  }

  function Pushed(h: seq<Op>, q: nat): seq<HostId> {
    if h == [] then []
    else
      var o := h[|h| - 1];
      Pushed(h[..|h| - 1], q) + if o.In? && o.q == q then [o.id] else []
  }

  function Confirmed(start: seq<u32>, h: seq<Op>, q: nat): seq<HostId>
    requires |start| == NX_TXQ_CNT && q < NX_TXQ_CNT
  {
    if h == [] then []
    else
      Confirmed(start, h[..|h| - 1], q)
      + if h[|h| - 1] == Cfm(q) then [Advance(Run(start, h[..|h| - 1])[q]).1] else []
  }

  /**
   Over every run within the window, from any starting indices, each queue is a FIFO of its own:
   what was pushed is what confirmations returned, in order, followed by what is outstanding.
   */
  lemma {:induction false} EachQueueIsFifo(start: seq<u32>, h: seq<Op>, q: nat)
    requires |start| == NX_TXQ_CNT && q < NX_TXQ_CNT && InWindow(start, h)
    ensures Run(start, h)[q].Count() <= TXDESC_PER_QUEUE
    ensures Pushed(h, q) == Confirmed(start, h, q) + Run(start, h)[q].Outstanding()
  {
    hide Ring.Count, Ring.Outstanding, Push, Advance;
    if h != [] {
      var h0, o := h[..|h| - 1], h[|h| - 1];
      EachQueueIsFifo(start, h0, q);
      var r, c := Run(start, h0)[q], Confirmed(start, h0, q);
      if o.q == q && o.In? {
        PushAppends(r, o.id);
        assert c + (r.Outstanding() + [o.id]) == (c + r.Outstanding()) + [o.id];
      } else if o.q == q {
        AdvanceTakesOldest(r);
        var x, rest := Advance(r).1, r.Outstanding()[1..];
        assert r.Outstanding() == [x] + rest;
        assert c + ([x] + rest) == (c + [x]) + rest;
      }
    } else {
      NothingOutstanding(Run(start, h)[q]);
    }
  }

  lemma NothingOutstanding(r: Ring)
    requires r.Valid() && r.free == r.used
    ensures r.Count() == 0 && r.Outstanding() == []
  {
  }
}
