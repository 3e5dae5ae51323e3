/** The packet buffer (kernel/skb/src/skbuff.rs): one storage block with a window on it. */
module SkBuff {
  import opened Bytes

  /** What a buffer stands for: room in front, payload, room behind, each with the bytes in it. */
  datatype Parts = Parts(headroom: seq<byte>, payload: seq<byte>, tailroom: seq<byte>) {
    function Storage(): seq<byte> { headroom + payload + tailroom }

    /** `skb_put`: the payload grows into the room behind it. */
    function Put(n: nat): Parts {
      if n > |tailroom| then this else Parts(headroom, payload + tailroom[..n], tailroom[n..])
    }

    /** `skb_pull`: the front of the payload becomes headroom. */
    function Pull(n: nat): Parts {
      var c := Min(n, |payload|);
      Parts(headroom + payload[..c], payload[c..], tailroom)
    }

    /** `skb_push`: the payload grows into the room before it. */
    function Push(n: nat): Parts {
      if n > |headroom| then this
      else Parts(headroom[..|headroom| - n], headroom[|headroom| - n..] + payload, tailroom)
    }

    /** At least `n` bytes of headroom; what is added goes in front, as zeros. */
    function Reserve(n: nat): Parts {
      if n <= |headroom| then this else this.(headroom := Zeros(n - |headroom|) + headroom)
    }

    /** The payload length set outright, within the storage behind its start. */
    function SetLen(n: nat): Parts {
      var rest := payload + tailroom;
      var l := Min(n, |rest|);
      Parts(headroom, rest[..l], rest[l..])
    }
  }

  datatype Op = DoPut(n: nat) | DoPull(n: nat) | DoPush(n: nat) | DoReserve(n: nat) | DoSetLen(n: nat)

  function Step(p: Parts, op: Op): Parts {
    match op
    case DoPut(n) => p.Put(n)
    case DoPull(n) => p.Pull(n)
    case DoPush(n) => p.Push(n)
    case DoReserve(n) => p.Reserve(n)
    case DoSetLen(n) => p.SetLen(n)
  }

  function Steps(p: Parts, ops: seq<Op>): Parts
    decreases |ops|
  {
    if ops == [] then p else Steps(Step(p, ops[0]), ops[1..])
  }

  class SkBuff {
    var storage: seq<byte>
    var head: nat
    var len: nat

    ghost predicate Valid()
      reads this
    {
      head + len <= |storage|
    }

    ghost function Value(): Parts
      reads this
      requires Valid()
    {
      Parts(storage[..head], storage[head..head + len], storage[head + len..])
    }

    /** `alloc_with_headroom`; a headroom beyond the capacity is cut down to it. */
    constructor (capacity: nat, headroom: nat)
      ensures Valid() && Value() == Parts(Zeros(Min(headroom, capacity)), [], Zeros(capacity - Min(headroom, capacity)))
    {
      head := Min(headroom, capacity);
      storage := Zeros(capacity);
      len := 0;
    }

    method Put(n: nat) returns (ok: bool)
      requires Valid()
      modifies `len
      ensures Valid() && Value() == old(Value()).Put(n)
      ensures ok == (n <= |old(Value()).tailroom|)
    {
      if |storage| - (head + len) < n { return false; }
      len := len + n;
      ok := true;
    }

    method Pull(n: nat)
      requires Valid()
      modifies `head, `len
      ensures Valid() && Value() == old(Value()).Pull(n)
    {
      var consume := Min(n, len);
      ghost var payload := storage[head..head + len];
      assert payload[..consume] == storage[head..head + consume];
      assert payload[consume..] == storage[head + consume..head + len];
      assert storage[..head + consume] == storage[..head] + storage[head..head + consume];
      head := head + consume;
      len := len - consume;
    }

    method Push(n: nat) returns (ok: bool)
      requires Valid()
      modifies `head, `len
      ensures Valid() && Value() == old(Value()).Push(n)
      ensures ok == (n <= |old(Value()).headroom|)
    {
      if head < n { return false; }
      head := head - n;
      len := len + n;
      ok := true;
    }

    method Reserve(n: nat)
      requires Valid()
      modifies this
      ensures Valid() && Value() == old(Value()).Reserve(n)
    {
      if n <= head { return; }
      var need := n - head;
      storage := Zeros(need) + storage;
      head := head + need;
    }

    method SetLen(n: nat)
      requires Valid()
      modifies `len
      ensures Valid() && Value() == old(Value()).SetLen(n)
    {
      var max := |storage| - head;
      assert Value().payload + Value().tailroom == storage[head..];
      len := Min(n, max);
    }

    /** `copy_bits`: the part of `off..off + n` that there is, as far as the destination holds it. */
    method CopyBits(dst: array<byte>, off: nat, n: nat) returns (count: nat)
      requires Valid()
      modifies dst
      ensures count == Min(Min(n, dst.Length), if off <= |Value().payload| then |Value().payload| - off else 0)
      ensures count > 0 ==> dst[..count] == Value().payload[off..off + count]
      ensures dst[count..] == old(dst[count..])
    {
      var start := Min(off, len);
      count := Min(Min(len - start, n), dst.Length);
      forall i | 0 <= i < count { dst[i] := storage[head + start + i]; }
      assert Value().payload == storage[head..head + len];
    }
  }

  /** Over every run of operations the storage keeps its bytes: it only grows, at the front and by zeros. */
  lemma {:induction false} StorageOnlyGrows(p: Parts, ops: seq<Op>) returns (n: nat)
    ensures Steps(p, ops).Storage() == Zeros(n) + p.Storage()
    ensures (forall k :: 0 <= k < |ops| ==> !ops[k].DoReserve?) ==> n == 0
    decreases |ops|
  {
    if ops == [] {
      n := 0;
      assert Zeros(0) + p.Storage() == p.Storage();
    } else {
      var a := StepStorage(p, ops[0]);
      hide Step, Parts.Storage;
      var b := StorageOnlyGrows(Step(p, ops[0]), ops[1..]);
      n := a + b;
      ZerosJoin(b, a, p.Storage());
    }
  }

  lemma ZerosJoin(a: nat, b: nat, s: seq<byte>)
    ensures Zeros(a) + (Zeros(b) + s) == Zeros(a + b) + s
  {
  }

  /** How long each part is after each operation; with the storage kept, that says what is in it. */
  lemma LengthsMean(p: Parts, n: nat)
    ensures n <= |p.tailroom| ==>
              |p.Put(n).headroom| == |p.headroom| && |p.Put(n).payload| == |p.payload| + n
    ensures n <= |p.headroom| ==>
              |p.Push(n).headroom| == |p.headroom| - n && |p.Push(n).payload| == |p.payload| + n
    ensures n > |p.tailroom| ==> p.Put(n) == p
    ensures n > |p.headroom| ==> p.Push(n) == p
    ensures |p.Pull(n).headroom| - |p.headroom| == |p.payload| - |p.Pull(n).payload| == Min(n, |p.payload|)
    ensures |p.Reserve(n).headroom| == (if n > |p.headroom| then n else |p.headroom|)
    ensures p.Reserve(n).payload == p.payload && p.Reserve(n).tailroom == p.tailroom
    ensures |p.SetLen(n).payload| == Min(n, |p.payload| + |p.tailroom|) && p.SetLen(n).headroom == p.headroom
  {
  }

  /** A storage cut at `i` and `j`. */
  function Cut(s: seq<byte>, i: nat, j: nat): (p: Parts)
    requires i <= j <= |s|
    ensures p.Storage() == s
  {
    Parts(s[..i], s[i..j], s[j..])
  }

  lemma StepStorage(p: Parts, op: Op) returns (n: nat)
    ensures Step(p, op).Storage() == Zeros(n) + p.Storage()
    ensures !op.DoReserve? ==> n == 0
  {
    n := if op.DoReserve? && op.n > |p.headroom| then op.n - |p.headroom| else 0;
    assert Zeros(0) + p.Storage() == p.Storage();
    match op
    case DoPut(k) => PutMovesCut(p, k);
    case DoPull(k) => PullMovesCut(p, k);
    case DoPush(k) => PushMovesCut(p, k);
    case DoReserve(k) => ReserveStorage(p, k);
    case DoSetLen(k) => SetLenMovesCut(p, k);
  }

  lemma ReserveStorage(p: Parts, n: nat)
    ensures n > |p.headroom| ==> p.Reserve(n).Storage() == Zeros(n - |p.headroom|) + p.Storage()
  {
  }

  lemma PutMovesCut(p: Parts, n: nat)
    ensures n <= |p.tailroom| ==> p.Put(n) == Cut(p.Storage(), |p.headroom|, |p.headroom| + |p.payload| + n)
  {
    if n <= |p.tailroom| {
      var s, i, j := p.Storage(), |p.headroom|, |p.headroom| + |p.payload| + n;
      assert s[..i] == p.headroom && s[i..j] == p.payload + p.tailroom[..n] && s[j..] == p.tailroom[n..];
    }
  }

  lemma PullMovesCut(p: Parts, n: nat)
    ensures p.Pull(n) == Cut(p.Storage(), |p.headroom| + Min(n, |p.payload|), |p.headroom| + |p.payload|)
  {
    var c := Min(n, |p.payload|);
    var s, i, j := p.Storage(), |p.headroom| + c, |p.headroom| + |p.payload|;
    assert s[..i] == p.headroom + p.payload[..c] && s[i..j] == p.payload[c..] && s[j..] == p.tailroom;
  }

  lemma PushMovesCut(p: Parts, n: nat)
    ensures n <= |p.headroom| ==> p.Push(n) == Cut(p.Storage(), |p.headroom| - n, |p.headroom| + |p.payload|)
  {
    if n <= |p.headroom| {
      var s, i, j := p.Storage(), |p.headroom| - n, |p.headroom| + |p.payload|;
      assert s[..i] == p.headroom[..i] && s[i..j] == p.headroom[i..] + p.payload && s[j..] == p.tailroom;
    }
  }

  lemma SetLenMovesCut(p: Parts, n: nat)
    ensures p.SetLen(n) == Cut(p.Storage(), |p.headroom|, |p.headroom| + Min(n, |p.payload| + |p.tailroom|))
  {
    assert p.Storage()[|p.headroom|..] == p.payload + p.tailroom;
  }

  /** A push gives back exactly what an equal pull took, if the pull was in range (or both did nothing). */
  lemma PushUndoesPull(p: Parts, n: nat)
    ensures p.Pull(n).Push(n) == p <==> n <= |p.payload| || (p.payload == [] && n > |p.headroom|)
  {
    var q := p.Pull(n);
    if n <= |p.payload| {
      assert q.headroom[..|q.headroom| - n] == p.headroom;
      assert q.headroom[|q.headroom| - n..] == p.payload[..n];
    } else {
      assert |q.Push(n).payload| == if n > |q.headroom| then 0 else n;
    }
  }

  /** A payload written behind reserved headroom survives any header being pushed and pulled again. */
  lemma PullUndoesPush(p: Parts, n: nat)
    ensures p.Reserve(n).Push(n).Pull(n) == p.Reserve(n)
    ensures p.Reserve(n).Push(n).payload[n..] == p.payload
  {
    var q := p.Reserve(n);
    var r := q.Push(n);
    assert r.payload[..n] == q.headroom[|q.headroom| - n..];
    assert q.headroom == r.headroom + r.payload[..n];
  }
}
