/** The multi-priority frame queue (kernel/skb/src/queue.rs). */
module FrameQueue {
  import opened Wrappers
  import opened Bytes

  const MAX_PRIO := 8

  /** The value of a queue: eight FIFO lists, the number in use, and the scan position. */
  datatype Queue<T> = Queue(numPrio: nat, hiPrio: nat, lists: seq<seq<T>>) {
    predicate Valid() {
      numPrio <= MAX_PRIO && |lists| == MAX_PRIO && (hiPrio < numPrio || hiPrio == 0)
    }
  }

  function New<T>(numPrio: nat): Queue<T> {
    Queue(Min(numPrio, MAX_PRIO), 0, seq(MAX_PRIO, _ => []))
  }

  /** The priority a frame is really queued under. */
  function Effective(numPrio: nat, prio: nat): nat {
    Min(prio, if numPrio == 0 then 0 else numPrio - 1)
  }

  /** A priority in use is kept; one beyond is the last in use, or the first list if none is. */
  lemma EffectiveMeans(numPrio: nat, prio: nat)
    ensures prio < numPrio ==> Effective(numPrio, prio) == prio
    ensures 0 < numPrio <= prio ==> Effective(numPrio, prio) == numPrio - 1
    ensures numPrio == 0 ==> Effective(numPrio, prio) == 0
  {
  }

  function Enqueue<T>(q: Queue<T>, x: T, prio: nat): Queue<T>
    requires q.Valid()
  {
    var p := Effective(q.numPrio, prio);
    q.(hiPrio := if q.hiPrio == 0 || p < q.hiPrio then p else q.hiPrio, lists := q.lists[p := q.lists[p] + [x]])
  }

  /** The first non-empty list at or after `i`, or `numPrio`. */
  function Scan<T>(lists: seq<seq<T>>, numPrio: nat, i: nat): (p: nat)
    requires i <= numPrio <= |lists|
    ensures i <= p <= numPrio
    ensures p < numPrio ==> lists[p] != []
    ensures forall k :: i <= k < p ==> lists[k] == []
    decreases numPrio - i
  {
    if i == numPrio || lists[i] != [] then i else Scan(lists, numPrio, i + 1)
  }

  function Dequeue<T>(q: Queue<T>): (Queue<T>, Option<T>)
    requires q.Valid()
  {
    var p := Scan(q.lists, q.numPrio, q.hiPrio);
    if p == q.numPrio then (q.(hiPrio := 0), None)
    else (q.(hiPrio := p, lists := q.lists[p := q.lists[p][1..]]), Some(q.lists[p][0]))
  }

  class PrioQueue<T> {
    const numPrio: nat
    var hiPrio: nat
    var lists: seq<seq<T>>

    function Value(): Queue<T>
      reads this
    {
      Queue(numPrio, hiPrio, lists)
    }

    predicate Valid()
      reads this
    {
      Value().Valid()
    }

    constructor (numPrio: nat)
      ensures Valid() && Value() == New<T>(numPrio)
    {
      this.numPrio := Min(numPrio, MAX_PRIO);
      hiPrio := 0;
      lists := seq(MAX_PRIO, _ => []);
    }

    method Put(x: T, prio: nat)
      requires Valid()
      modifies this
      ensures Valid() && Value() == Enqueue(old(Value()), x, prio)
    {
      var p := Effective(numPrio, prio);
      if hiPrio == 0 || p < hiPrio {
        hiPrio := p;
      }
      lists := lists[p := lists[p] + [x]];
    }

    method Get() returns (x: Option<T>)
      requires Valid()
      modifies this
      ensures Valid() && (Value(), x) == Dequeue(old(Value()))
    {
      while hiPrio < numPrio
        invariant hiPrio <= numPrio && lists == old(lists)
        invariant Scan(old(lists), numPrio, old(hiPrio)) == Scan(old(lists), numPrio, hiPrio)
      {
        if lists[hiPrio] != [] {
          x := Some(lists[hiPrio][0]);
          lists := lists[hiPrio := lists[hiPrio][1..]];
          return;
        }
        hiPrio := hiPrio + 1;
      }
      hiPrio := 0;
      x := None;
    }

    method IsEmpty() returns (empty: bool)
      requires Valid()
      ensures empty <==> forall k :: 0 <= k < numPrio ==> lists[k] == []
    {
      var k := 0;
      while k < numPrio
        invariant 0 <= k <= numPrio
        invariant forall j :: 0 <= j < k ==> lists[j] == []
      {
        if lists[k] != [] { return false; }
        k := k + 1;
      }
      return true;
    }
  }

  // ---------- Runs ----------

  datatype Op<T> = In(x: T, prio: nat) | Out

  function Step<T>(q: Queue<T>, o: Op<T>): (q': Queue<T>)
    requires q.Valid()
    ensures q'.Valid() && q'.numPrio == q.numPrio
  {
    match o
    case In(x, prio) => Enqueue(q, x, prio)
    case Out => Dequeue(q).0
  }

  function Run<T>(numPrio: nat, h: seq<Op<T>>): (q: Queue<T>)
    ensures q.Valid() && q.numPrio == Min(numPrio, 8)
  {
    if h == [] then New(numPrio) else Step(Run(numPrio, h[..|h| - 1]), h[|h| - 1])
  }

  /** The frames queued under priority `p`, in order of arrival. */
  function Arrived<T>(numPrio: nat, h: seq<Op<T>>, p: nat): seq<T> {
    if h == [] then []
    else
      var rest, o := Arrived(numPrio, h[..|h| - 1], p), h[|h| - 1];
      if o.In? && Effective(Min(numPrio, MAX_PRIO), o.prio) == p then rest + [o.x] else rest
  }

  /** The frames that came out of list `p`, in order. */
  function Served<T>(numPrio: nat, h: seq<Op<T>>, p: nat): seq<T> {
    if h == [] then []
    else
      var rest, q := Served(numPrio, h[..|h| - 1], p), Run(numPrio, h[..|h| - 1]);
      if h[|h| - 1].Out? && Dequeue(q).1.Some? && Scan(q.lists, q.numPrio, q.hiPrio) == p
      then rest + [Dequeue(q).1.value]
      else rest
  }

  /**
   No frame is lost, duplicated or reordered within its priority: what arrived is what was served, then what is
   queued.
   */
  lemma {:induction false} EachPriorityIsFifo<T>(numPrio: nat, h: seq<Op<T>>, p: nat)
    requires p < MAX_PRIO
    ensures Arrived(numPrio, h, p) == Served(numPrio, h, p) + Run(numPrio, h).lists[p]
  {
    if h != [] {
      var h0, o := h[..|h| - 1], h[|h| - 1];
      EachPriorityIsFifo(numPrio, h0, p);
      var q := Run(numPrio, h0);
      match o
      case In(x, prio) =>
        assert Served(numPrio, h0, p) + (q.lists[p] + [x]) == (Served(numPrio, h0, p) + q.lists[p]) + [x];
      case Out =>
        var k := Scan(q.lists, q.numPrio, q.hiPrio);
        if k == p && k < q.numPrio {
          assert q.lists[p] == [q.lists[p][0]] + q.lists[p][1..];
          assert Served(numPrio, h, p) == Served(numPrio, h0, p) + [q.lists[p][0]];
        }
    }
  }

  /** A `None` leaves the scan at the top, so a second one finds every list empty. */
  lemma TwoNonesMeanEmpty<T>(q: Queue<T>)
    requires q.Valid() && Dequeue(q).1.None? && Dequeue(Dequeue(q).0).1.None?
    ensures forall p :: 0 <= p < q.numPrio ==> q.lists[p] == []
  {
  }

  // ---------- Priority order ----------

  /** Nothing is queued above the scan position. */
  predicate Sound<T>(q: Queue<T>)
    requires q.Valid()
  {
    forall p :: 0 <= p < q.hiPrio ==> q.lists[p] == []
  }

  /** A dequeue serves the lowest-numbered non-empty list, and `None` only when there is none. */
  ghost predicate ServesBest<T>(q: Queue<T>)
    requires q.Valid()
  {
    var best := Scan(q.lists, q.numPrio, 0);
    if best == q.numPrio then Dequeue(q).1.None?
    else Dequeue(q) == (q.(hiPrio := best, lists := q.lists[best := q.lists[best][1..]]), Some(q.lists[best][0]))
  }

  /** Dequeue is right exactly in the sound states. */
  lemma ServesBestIffSound<T>(q: Queue<T>)
    requires q.Valid()
    ensures ServesBest(q) <==> Sound(q)
  {
    var best := Scan(q.lists, q.numPrio, 0);
    var p := Scan(q.lists, q.numPrio, q.hiPrio);
    if Sound(q) {
      assert best >= q.hiPrio || best == q.numPrio;
      assert best == p;
    } else {
      var k :| 0 <= k < q.hiPrio && q.lists[k] != [];
      assert best <= k < p;
    }
  }

  /**
   Dequeue keeps the state sound; enqueue does, except exactly when it moves the scan off position 0 past a waiting
   frame.
   */
  lemma StepKeepsSound<T>(q: Queue<T>, o: Op<T>)
    requires q.Valid() && Sound(q)
    ensures Sound(Step(q, o)) <==>
            !(o.In? && q.hiPrio == 0 && exists k :: 0 <= k < Effective(q.numPrio, o.prio) && q.lists[k] != [])
  {
    if o.In? {
      var p := Effective(q.numPrio, o.prio);
      var q' := Step(q, o);
      assert forall k :: 0 <= k < MAX_PRIO && k != p ==> q'.lists[k] == q.lists[k];
    }
  }

  predicate NeverTop<T>(numPrio: nat, h: seq<Op<T>>) {
    forall i :: 0 <= i < |h| && h[i].In? ==> Effective(Min(numPrio, MAX_PRIO), h[i].prio) != 0
  }

  /** On runs that never use priority 0, every dequeue serves the best frame and `None` means empty. */
  lemma {:induction false} PriorityOrder<T>(numPrio: nat, h: seq<Op<T>>)
    requires NeverTop(numPrio, h)
    ensures var q := Run(numPrio, h);
            Sound(q) && ServesBest(q) && (q.hiPrio == 0 ==> forall p :: 0 <= p < q.numPrio ==> q.lists[p] == [])
  {
    if h != [] {
      var h0, o := h[..|h| - 1], h[|h| - 1];
      assert NeverTop(numPrio, h0) by { assert forall i :: 0 <= i < |h0| ==> h0[i] == h[i]; }
      PriorityOrder(numPrio, h0);
      var q := Run(numPrio, h0);
      hide ServesBest;
      StepKeepsSound(q, o);
      if o.In? { assert h[|h| - 1].In?; }
    }
    ServesBestIffSound(Run(numPrio, h));
  }

  /** With priority 0 in use the order breaks: a lower frame arriving second is served first. */
  lemma TopFrameOvertaken<T>(a: T, b: T, n: nat)
    requires 2 <= n <= MAX_PRIO
    ensures var q := Enqueue(Enqueue(New(n), a, 0), b, 1);
            Dequeue(q).1 == Some(b) && Dequeue(Dequeue(q).0).1.None? && Dequeue(Dequeue(Dequeue(q).0).0).1 == Some(a)
  {
    var q := Enqueue(Enqueue(New(n), a, 0), b, 1);
    assert q.hiPrio == 1 && q.lists[1] == [b] && q.lists[0] == [a];
    var q1 := Dequeue(q).0;
    assert Scan(q.lists, n, 1) == 1;
    assert q1.hiPrio == 1 && q1.lists[1] == [] && q1.lists[0] == [a];
    forall k | 1 <= k < n ensures q1.lists[k] == [] {
    }
    assert Scan(q1.lists, n, 1) == n;
  }
}
