/** The walk over the card information structure (driver/bsp/src/sdio/cis.rs). */
module Cis {
  import opened Wrappers
  import opened Bytes

  const CISTPL_NULL: byte := 0x00
  const CISTPL_MANFID: byte := 0x20
  const CISTPL_END: byte := 0xff
  const MAX_TUPLES := 256
  const SDIO_ADDR_17BIT := 0x2_0000

  /** A read by the card's register bus: the byte at an address, or an error. */
  type Bus = u32 -> Result<byte>

  datatype Ids = Ids(vendor: u16, device: u16)

  function Wrap(a: nat): u32 { a % TWO_TO_THE_32 }

  /** The four data bytes of a MANFID tuple at `ptr`, read in order; the first failing read is the error. */
  function ManfidAt(bus: Bus, ptr: u32): Result<Option<Ids>> {
    var d0, d1, d2, d3 := bus(ptr), bus(Wrap(ptr + 1)), bus(Wrap(ptr + 2)), bus(Wrap(ptr + 3));
    if d0.Err? then Err(d0.errno)
    else if d1.Err? then Err(d1.errno)
    else if d2.Err? then Err(d2.errno)
    else if d3.Err? then Err(d3.errno)
    else Ok(Some(Ids(FromLe16(d0.value, d1.value), FromLe16(d2.value, d3.value))))
  }

  /** The walk from `ptr` with `n` tuples left to look at. */
  function Walk(bus: Bus, ptr: u32, n: nat): Result<Option<Ids>>
    decreases n
  {
    if n == 0 then Ok(None)
    else
      match bus(ptr)
      case Err(e) => Err(e)
      case Ok(code) =>
        var p1 := Wrap(ptr + 1);
        if code == CISTPL_END then Ok(None)
        else if code == CISTPL_NULL then Walk(bus, p1, n - 1)
        else
          match bus(p1)
          case Err(e) => Err(e)
          case Ok(link) =>
            var p2 := Wrap(p1 + 1);
            if link == CISTPL_END then Ok(None)
            else if code == CISTPL_MANFID && link >= 4 then ManfidAt(bus, p2)
            else Walk(bus, Wrap(p2 + link), n - 1)
  }

  /** `parse_cis_for_manfid`. */
  method ParseCisForManfid(bus: Bus, cisPtr: u32) returns (r: Result<Option<Ids>>)
    ensures r == Walk(bus, cisPtr % 0x2_0000, 256)
  {
    hide ManfidAt;
    var ptr: u32 := cisPtr % SDIO_ADDR_17BIT;
    ghost var found := Walk(bus, ptr, MAX_TUPLES);
    for i := 0 to MAX_TUPLES
      invariant found == Walk(bus, ptr, MAX_TUPLES - i)
      invariant ptr <= SDIO_ADDR_17BIT + 256 * i
    {
      var code := bus(ptr);
      if code.Err? { return Err(code.errno); }
      ptr := Wrap(ptr + 1);
      if code.value == CISTPL_END { return Ok(None); }
      if code.value == CISTPL_NULL { continue; }
      var link := bus(ptr);
      if link.Err? { return Err(link.errno); }
      ptr := Wrap(ptr + 1);
      if link.value == CISTPL_END { return Ok(None); }
      if code.value == CISTPL_MANFID && link.value >= 4 {
        // the pointer never gets near the end of 32 bits: these four reads do not wrap
        assert ptr + 3 < TWO_TO_THE_32;
        r := ManfidAt(bus, ptr);
        return;
      }
      ptr := Wrap(ptr + link.value);
    }
    r := Ok(None);
  }

  // ---------- Tuple chains, section 16.2 of the SDIO Simplified Specification (Part E1) ----------

  /** A tuple: a one-byte null, or a code with a body whose length is the link byte. */
  datatype Tuple = Null | Tpl(code: byte, body: seq<byte>) {
    predicate Valid() {
      Tpl? ==> code != CISTPL_NULL && code != CISTPL_END && |body| < 0xff
    }

    function Encode(): (s: seq<byte>)
      requires Valid()
      ensures |s| > 0
    {
      match this
      case Null => [CISTPL_NULL]
      case Tpl(_, _) => [code, |body|] + body
    }

    predicate Manfid() { Tpl? && code == CISTPL_MANFID && |body| >= 4 }
  }

  predicate AllValid(ts: seq<Tuple>) { forall i :: 0 <= i < |ts| ==> ts[i].Valid() }

  function EncodeAll(ts: seq<Tuple>): seq<byte>
    requires AllValid(ts)
  {
    if ts == [] then [] else ts[0].Encode() + EncodeAll(ts[1..])
  }

  /** The bus answers with `s` from `ptr` on. */
  ghost predicate Holds(bus: Bus, ptr: u32, s: seq<byte>) {
    ptr + |s| < TWO_TO_THE_32 && forall a: u32 :: ptr <= a < ptr + |s| ==> bus(a) == Ok(s[a - ptr])
  }

  /** The first MANFID tuple of a chain that carries both ids. */
  function FirstManfid(ts: seq<Tuple>): (k: nat)
    ensures k <= |ts|
    ensures k < |ts| ==> ts[k].Manfid()
    ensures forall i :: 0 <= i < k ==> !ts[i].Manfid()
  {
    if ts == [] || ts[0].Manfid() then 0 else 1 + FirstManfid(ts[1..])
  }

  function IdsOf(t: Tuple): Ids
    requires t.Manfid()
  {
    Ids(FromLe16(t.body[0], t.body[1]), FromLe16(t.body[2], t.body[3]))
  }

  lemma HoldsPart(bus: Bus, ptr: u32, a: seq<byte>, b: seq<byte>)
    requires Holds(bus, ptr, a + b)
    ensures ptr + |a| < TWO_TO_THE_32 && Holds(bus, ptr, a) && Holds(bus, ptr + |a|, b)
  {
    assert forall i :: 0 <= i < |a| ==> (a + b)[i] == a[i];
    assert forall i :: |a| <= i < |a| + |b| ==> (a + b)[i] == b[i - |a|];
  }

  /** One tuple in memory: the walk reports it or steps over exactly its encoding. */
  lemma WalkTuple(bus: Bus, ptr: u32, t: Tuple, n: nat)
    requires t.Valid() && n > 0 && Holds(bus, ptr, t.Encode())
    ensures Walk(bus, ptr, n) == if t.Manfid() then Ok(Some(IdsOf(t))) else Walk(bus, ptr + |t.Encode()|, n - 1)
  {
    var s := t.Encode();
    assert bus(ptr) == Ok(s[0]);
    assert t.Tpl? ==> bus(ptr + 1) == Ok(s[1]) && s[0] == t.code && s[1] == |t.body|;
    if t.Manfid() { ManfidRead(bus, ptr + 2, t, s); }
    hide Holds, ManfidAt, IdsOf, Tuple.Encode;
    if t.Tpl? {
      WalkStep(bus, ptr, t.code, |t.body|, n);
    }
  }

  lemma WalkStep(bus: Bus, ptr: u32, code: byte, link: byte, n: nat)
    requires n > 0 && ptr + 2 + link < TWO_TO_THE_32 && bus(ptr) == Ok(code) && bus(ptr + 1) == Ok(link)
    requires code != CISTPL_NULL && code != CISTPL_END && link != CISTPL_END
    ensures Walk(bus, ptr, n)
         == if code == CISTPL_MANFID && link >= 4 then ManfidAt(bus, ptr + 2) else Walk(bus, ptr + 2 + link, n - 1)
  {
    hide ManfidAt;
    assert Wrap(ptr + 1) == ptr + 1 && Wrap(ptr + 2) == ptr + 2 && Wrap(ptr + 2 + link) == ptr + 2 + link;
    hide Wrap;
  }

  lemma WalkEnds(bus: Bus, ptr: u32, n: nat)
    requires n == 0 || bus(ptr) == Ok(CISTPL_END)
    ensures Walk(bus, ptr, n) == Ok(None)
  {
  }

  lemma ManfidRead(bus: Bus, ptr: u32, t: Tuple, s: seq<byte>)
    requires t.Valid() && t.Manfid() && s == t.Encode() && 2 <= ptr && Holds(bus, ptr - 2, s)
    ensures ManfidAt(bus, ptr) == Ok(Some(IdsOf(t)))
  {
    assert bus(ptr) == Ok(s[2]) && bus(ptr + 1) == Ok(s[3]) && bus(ptr + 2) == Ok(s[4]) && bus(ptr + 3) == Ok(s[5]);
  }

  /** What a walk over a chain should find when it looks at no more than `n` tuples. */
  function Found(ts: seq<Tuple>, n: nat): Option<Ids> {
    var k := FirstManfid(ts);
    if k < |ts| && k < n then Some(IdsOf(ts[k])) else None
  }

  lemma FoundCons(ts: seq<Tuple>, n: nat)
    ensures ts == [] || n == 0 ==> Found(ts, n) == None
    ensures ts != [] && n > 0 ==> Found(ts, n) == if ts[0].Manfid() then Some(IdsOf(ts[0])) else Found(ts[1..], n - 1)
  {
    hide Tuple.Manfid, IdsOf;
  }

  /**
   The walk inverts the encoding of every chain: it returns the ids of the first MANFID tuple if
   fewer than the allowed number of tuples precede it, and otherwise finds nothing.
   */
  lemma {:induction false} WalkInvertsEncoding(bus: Bus, ptr: u32, ts: seq<Tuple>, n: nat)
    requires AllValid(ts) && Holds(bus, ptr, EncodeAll(ts) + [CISTPL_END])
    ensures Walk(bus, ptr, n) == Ok(Found(ts, n))
    decreases |ts|
  {
    hide Walk, Holds, Tuple.Encode, Tuple.Manfid, IdsOf, Found;
    FoundCons(ts, n);
    if ts == [] || n == 0 {
      if ts == [] { HoldsFirst(bus, ptr, EncodeAll(ts) + [CISTPL_END]); }
      WalkEnds(bus, ptr, n);
    } else {
      var t, rest := ts[0], EncodeAll(ts[1..]) + [CISTPL_END];
      assert EncodeAll(ts) + [CISTPL_END] == t.Encode() + rest;
      HoldsPart(bus, ptr, t.Encode(), rest);
      WalkTuple(bus, ptr, t, n);
      if !t.Manfid() {
        WalkInvertsEncoding(bus, ptr + |t.Encode()|, ts[1..], n - 1);
      }
    }
  }

  lemma HoldsFirst(bus: Bus, ptr: u32, s: seq<byte>)
    requires s != [] && Holds(bus, ptr, s)
    ensures bus(ptr) == Ok(s[0])
  {
  }

  /** For the driver's parser: it finds the first MANFID tuple exactly when at most 255 tuples stand before it. */
  lemma ParserFindsManfid(bus: Bus, cisPtr: u32, ts: seq<Tuple>)
    requires AllValid(ts) && Holds(bus, cisPtr % SDIO_ADDR_17BIT, EncodeAll(ts) + [CISTPL_END])
    requires FirstManfid(ts) < |ts|
    ensures var r := Walk(bus, cisPtr % SDIO_ADDR_17BIT, MAX_TUPLES);
            && (r == Ok(Some(IdsOf(ts[FirstManfid(ts)]))) <==> FirstManfid(ts) <= 255)
            && (r == Ok(None) <==> FirstManfid(ts) > 255)
  {
    hide Walk, Holds, IdsOf;
    WalkInvertsEncoding(bus, cisPtr % SDIO_ADDR_17BIT, ts, MAX_TUPLES);
  }

  // ---------- Failing reads ----------

  /** An error of the walk is the error of some read. */
  lemma {:induction false} ErrorsAreReads(bus: Bus, ptr: u32, n: nat)
    ensures Walk(bus, ptr, n).Err? ==> exists a: u32 :: bus(a) == Err(Walk(bus, ptr, n).errno)
    decreases n
  {
    if n > 0 && bus(ptr).Ok? {
      var p1: nat := Wrap(ptr + 1);
      if bus(ptr).value == CISTPL_NULL {
        ErrorsAreReads(bus, p1, n - 1);
      } else if bus(p1).Ok? {
        var p2: nat, link: nat := Wrap(p1 + 1), bus(p1).value;
        ErrorsAreReads(bus, Wrap(p2 + link), n - 1);
      }
    }
  }

  /** The walk goes past tuples that are not what it looks for. */
  lemma {:induction false} WalkPast(bus: Bus, ptr: u32, ts: seq<Tuple>, n: nat)
    requires AllValid(ts) && FirstManfid(ts) == |ts| <= n && Holds(bus, ptr, EncodeAll(ts))
    ensures ptr + |EncodeAll(ts)| < TWO_TO_THE_32
    ensures Walk(bus, ptr, n) == Walk(bus, ptr + |EncodeAll(ts)|, n - |ts|)
    decreases |ts|
  {
    hide Walk, Tuple.Encode, Tuple.Manfid;
    if ts != [] {
      var t, rest := ts[0], EncodeAll(ts[1..]);
      HoldsPart(bus, ptr, t.Encode(), rest);
      hide Holds;
      WalkTuple(bus, ptr, t, n);
      WalkPast(bus, ptr + |t.Encode()|, ts[1..], n - 1);
    }
  }

  /** A read that fails ends the walk with its error: of a code, of a link, or of one of the four bytes of the ids. */
  lemma FailingReadIsReturned(bus: Bus, ptr: u32, n: nat, code: byte, link: byte, k: nat)
    requires n > 0 && ptr + 0x101 < TWO_TO_THE_32 && k < 4
    ensures bus(ptr).Err? ==> Walk(bus, ptr, n) == Err(bus(ptr).errno)
    ensures bus(ptr) == Ok(code) && code != 0 && code != 0xff && bus(ptr + 1).Err? ==>
              Walk(bus, ptr, n) == Err(bus(ptr + 1).errno)
    ensures bus(ptr) == Ok(0x20) && bus(ptr + 1) == Ok(link) && 4 <= link < 0xff && bus(ptr + 2 + k).Err?
            && (forall i: u32 :: ptr + 2 <= i < ptr + 2 + k ==> bus(i).Ok?) ==>
              Walk(bus, ptr, n) == Err(bus(ptr + 2 + k).errno)
    ensures bus(ptr) == Ok(code) && code != 0 && bus(ptr + 1) == Ok(0xff) ==> Walk(bus, ptr, n) == Ok(None)
  {
    if bus(ptr) == Ok(0x20) && bus(ptr + 1) == Ok(link) && 4 <= link < 0xff {
      WalkStep(bus, ptr, 0x20, link, n);
      hide Walk;
      ManfidFails(bus, ptr + 2, k);
    }
  }

  lemma ManfidFails(bus: Bus, ptr: u32, k: nat)
    requires ptr + 3 < TWO_TO_THE_32 && k < 4
    ensures bus(ptr + k).Err? && (forall i: u32 :: ptr <= i < ptr + k ==> bus(i).Ok?) ==>
              ManfidAt(bus, ptr) == Err(bus(ptr + k).errno)
  {
    assert Wrap(ptr + 1) == ptr + 1 && Wrap(ptr + 2) == ptr + 2 && Wrap(ptr + 3) == ptr + 3;
  }
}
