/** The ini-style configuration parser (driver/fdrv/src/cfgfile.rs).  A byte is a character of the same code. */
module CfgFile {
  import opened Wrappers
  import opened Bytes

  const MAC_TAG := "MAC_ADDR="
  const DEFAULT_MAC: seq<byte> := [0, 111, 111, 111, 111, 0]

  // ---------- Lines and tags ----------

  /** The end of the line that starts at or contains `i`. */
  function LineEnd(s: string, i: nat): (e: nat)
    requires i <= |s|
    ensures i <= e <= |s| && (e < |s| ==> s[e] == '\n')
    ensures forall k :: i <= k < e ==> s[k] != '\n'
    decreases |s| - i
  {
    if i == |s| || s[i] == '\n' then i else LineEnd(s, i + 1)
  }

  /** The lines of a text, without their newlines. */
  function Lines(s: string): (ls: seq<string>)
    ensures |ls| > 0
    decreases |s|
  {
    var e := LineEnd(s, 0);
    if e == |s| then [s] else [s[..e]] + Lines(s[e + 1..])
  }

  function Unlines(ls: seq<string>): string
    requires |ls| > 0
  {
    if |ls| == 1 then ls[0] else ls[0] + "\n" + Unlines(ls[1..])
  }

  /** `Lines` cuts at exactly the newlines. */
  lemma {:induction false} LinesMean(s: string)
    ensures Unlines(Lines(s)) == s
    ensures forall l :: l in Lines(s) ==> '\n' !in l
    decreases |s|
  {
    var e := LineEnd(s, 0);
    if e < |s| {
      LinesMean(s[e + 1..]);
      assert s == s[..e] + "\n" + s[e + 1..];
      assert Lines(s)[1..] == Lines(s[e + 1..]);
    }
  }

  /** What follows the tag in the first line that starts with it. */
  function FirstTagged(ls: seq<string>, tag: string): Option<string> {
    if ls == [] then None
    else if tag <= ls[0] then Some(ls[0][|tag|..])
    else FirstTagged(ls[1..], tag)
  }

  /** That is: of some line that starts with the tag and comes after none that does. */
  lemma {:induction false} FirstTaggedMeans(ls: seq<string>, tag: string)
    ensures FirstTagged(ls, tag).None? <==> forall k :: 0 <= k < |ls| ==> !(tag <= ls[k])
    ensures FirstTagged(ls, tag).Some? ==>
              exists k :: 0 <= k < |ls| && ls[k] == tag + FirstTagged(ls, tag).value
                          && forall j :: 0 <= j < k ==> !(tag <= ls[j])
    decreases |ls|
  {
    if ls != [] {
      if tag <= ls[0] {
        assert ls[0] == tag + ls[0][|tag|..];
      } else {
        FirstTaggedMeans(ls[1..], tag);
        var rest := ls[1..];
        assert forall k :: 1 <= k < |ls| ==> ls[k] == rest[k - 1];
        if FirstTagged(rest, tag).Some? {
          var k :| 0 <= k < |rest| && rest[k] == tag + FirstTagged(rest, tag).value
                   && forall j :: 0 <= j < k ==> !(tag <= rest[j]);
          assert ls[k + 1] == tag + FirstTagged(ls, tag).value;
          assert forall j :: 0 <= j < k + 1 ==> !(tag <= ls[j]);
        }
      }
    }
  }

  /** `find_tag` finds that, for every text and every tag; an empty text has no line to look at. */
  method FindTag(text: string, tag: string) returns (value: Option<string>)
    ensures value == if text == "" then None else FirstTagged(Lines(text), tag)
    ensures tag != "" ==> value == FirstTagged(Lines(text), tag)
  {
    hide FirstTagged, Lines;
    var lineStart: nat := 0;
    assert text[0..] == text;
    while lineStart < |text|
      invariant lineStart <= |text| + 1
      invariant lineStart <= |text| ==> FirstTagged(Lines(text), tag) == FirstTagged(Lines(text[lineStart..]), tag)
      invariant lineStart == |text| + 1 ==> FirstTagged(Lines(text), tag) == None
      invariant tag == "" ==> lineStart == 0
    {
      var curr := lineStart;
      while curr < |text| && text[curr] != '\n'
        invariant lineStart <= curr <= |text|
        invariant LineEnd(text, lineStart) == LineEnd(text, curr)
      {
        curr := curr + 1;
      }
      LinesFrom(text, lineStart, tag);
      var line := text[lineStart..curr];
      if |line| >= |tag| && line[..|tag|] == tag {
        return Some(text[lineStart + |tag|..curr]);
      }
      lineStart := curr + 1;
    }
    if tag != "" { EmptyHasNoTag(tag); }
    assert lineStart == |text| ==> text[lineStart..] == "";
    return None;
  }

  lemma EmptyHasNoTag(tag: string)
    requires tag != ""
    ensures FirstTagged(Lines(""), tag) == None
  {
    assert Lines("") == [""];
  }

  /** What is found from the start of a line on: in this line, or in the lines after it. */
  lemma LinesFrom(s: string, i: nat, tag: string)
    requires i <= |s|
    ensures tag <= s[i..LineEnd(s, i)] ==> FirstTagged(Lines(s[i..]), tag) == Some(s[i + |tag|..LineEnd(s, i)])
    ensures !(tag <= s[i..LineEnd(s, i)]) && LineEnd(s, i) == |s| ==> FirstTagged(Lines(s[i..]), tag) == None
    ensures !(tag <= s[i..LineEnd(s, i)]) && LineEnd(s, i) < |s|
        ==> FirstTagged(Lines(s[i..]), tag) == FirstTagged(Lines(s[LineEnd(s, i) + 1..]), tag)
  {
    var e, t := LineEnd(s, i), s[i..];
    LineEndShift(s, i, 0);
    assert LineEnd(t, 0) == e - i;
    assert t[..e - i] == s[i..e];
    if e == |s| {
      assert t == s[i..e];
      assert Lines(t) == [t];
    } else {
      assert t[e - i + 1..] == s[e + 1..];
      assert Lines(t) == [s[i..e]] + Lines(s[e + 1..]);
    }
    if tag <= s[i..e] { assert s[i..e][|tag|..] == s[i + |tag|..e]; }
  }

  lemma {:induction false} LineEndShift(s: string, i: nat, k: nat)
    requires i + k <= |s|
    ensures LineEnd(s[i..], k) == LineEnd(s, i + k) - i
    decreases |s| - k
  {
    if i + k < |s| && s[i + k] != '\n' {
      LineEndShift(s, i, k + 1);
    }
  }

  // ---------- Hexadecimal ----------

  function HexNibble(c: char): (v: Option<nat>)
    ensures v.Some? ==> v.value < 16
  {
    if '0' <= c <= '9' then Some((c - '0') as nat)
    else if 'a' <= c <= 'f' then Some((c - 'a') as nat + 10)
    else if 'A' <= c <= 'F' then Some((c - 'A') as nat + 10)
    else None
  }

  /** The digits are these characters and no others, in this order. */
  lemma HexNibbleMeans(c: char)
    ensures HexNibble(c).Some? <==> c in "0123456789" || c in "abcdef" || c in "ABCDEF"
  {
    Characters(c);
  }

  lemma Characters(c: char)
    ensures c in "0123456789" <==> '0' <= c <= '9'
    ensures c in "abcdef" <==> 'a' <= c <= 'f'
    ensures c in "ABCDEF" <==> 'A' <= c <= 'F'
  {
    if '0' <= c <= '9' { assert c == "0123456789"[(c - '0') as int]; }
    if 'a' <= c <= 'f' { assert c == "abcdef"[(c - 'a') as int]; }
    if 'A' <= c <= 'F' { assert c == "ABCDEF"[(c - 'A') as int]; }
  }

  /** Each has its place as its value, letters from ten on and in either case. */
  lemma HexNibbleValues(v: nat)
    ensures v < 10 ==> HexNibble("0123456789"[v]) == Some(v)
    ensures v < 6 ==> HexNibble("abcdef"[v]) == Some(10 + v) == HexNibble("ABCDEF"[v])
  {
  }

  function Digit(v: nat, upper: bool): char
    requires v < 16
  {
    if v < 10 then '0' + v as char else if upper then 'A' + (v - 10) as char else 'a' + (v - 10) as char
  }

  lemma NibbleOfDigit(v: nat, upper: bool)
    requires v < 16
    ensures HexNibble(Digit(v, upper)) == Some(v) && Digit(v, upper) != ':'
  {
  }

  function Pow16(n: nat): nat { if n == 0 then 1 else 16 * Pow16(n - 1) }

  /** The value of a string of hex digits, most significant first. */
  function HexValue(s: string): (v: Option<nat>)
    ensures v.Some? ==> v.value < Pow16(|s|)
  {
    if s == "" then Some(0)
    else
      var hi, lo := HexValue(s[..|s| - 1]), HexNibble(s[|s| - 1]);
      if hi.Some? && lo.Some? then Some(16 * hi.value + lo.value) else None
  }

  /** A string has a value exactly if all its characters are digits. */
  lemma {:induction false} HexValueIffDigits(s: string)
    ensures HexValue(s).Some? <==> forall i :: 0 <= i < |s| ==> HexNibble(s[i]).Some?
    decreases |s|
  {
    if s != "" {
      var front := s[..|s| - 1];
      HexValueIffDigits(front);
      assert forall i :: 0 <= i < |front| ==> front[i] == s[i];
    }
  }

  /** `n` hex digits of `v`. */
  function PrintHex(v: nat, n: nat, upper: bool): (s: string)
    ensures |s| == n
  {
    if n == 0 then "" else PrintHex(v / 16, n - 1, upper) + [Digit(v % 16, upper)]
  }

  lemma {:induction false} HexValueOfPrint(v: nat, n: nat, upper: bool)
    requires v < Pow16(n)
    ensures HexValue(PrintHex(v, n, upper)) == Some(v)
  {
    if n > 0 {
      var s := PrintHex(v, n, upper);
      HexValueOfPrint(v / 16, n - 1, upper);
      NibbleOfDigit(v % 16, upper);
      assert s[..|s| - 1] == PrintHex(v / 16, n - 1, upper);
    }
  }

  /** `parse_hex8`: the first eight characters, all hex digits; anything may follow. */
  method ParseHex8(s: string) returns (v: Option<u32>)
    ensures |s| < 8 ==> v == None
    ensures |s| >= 8 ==> v == HexValue(s[..8])
  {
    if |s| < 8 { return None; }
    assert Pow16(8) == TWO_TO_THE_32 by { assert Pow16(4) == 0x1_0000; }
    var acc := 0;
    var i := 0;
    while i < 8
      invariant 0 <= i <= 8 && HexValue(s[..i]) == Some(acc)
    {
      var lo := HexNibble(s[i]);
      assert s[..i + 1][..i] == s[..i];
      if lo.None? {
        NoValue(s[..8], i);
        return None;
      }
      acc := 16 * acc + lo.value;
      i := i + 1;
    }
    assert s[..8] == s[..i];
    v := Some(acc);
  }

  lemma {:induction false} NoValue(s: string, i: nat)
    requires i < |s| && HexNibble(s[i]).None?
    ensures HexValue(s) == None
    decreases |s|
  {
    if i < |s| - 1 { NoValue(s[..|s| - 1], i); }
  }

  /** Eight-digit printing is undone for every 32-bit value, in either case, whatever follows. */
  lemma Hex8RoundTrip(v: u32, upper: bool, rest: string)
    ensures HexValue((PrintHex(v, 8, upper) + rest)[..8]) == Some(v)
  {
    assert Pow16(8) == TWO_TO_THE_32 by { assert Pow16(4) == 0x1_0000; }
    assert (PrintHex(v, 8, upper) + rest)[..8] == PrintHex(v, 8, upper);
    HexValueOfPrint(v, 8, upper);
  }

  // ---------- MAC addresses ----------

  /** Two characters as one byte. */
  function ByteAt(s: string, i: nat): Option<byte>
    requires i + 2 <= |s|
  {
    var hi, lo := HexNibble(s[i]), HexNibble(s[i + 1]);
    if hi.Some? && lo.Some? then Some(16 * hi.value + lo.value) else None
  }

  /** Where the next pair starts: past a colon, if there is one and another pair is due. */
  function SkipColon(s: string, i: nat, more: bool): nat {
    if more && i < |s| && s[i] == ':' then i + 1 else i
  }

  /** The `left` bytes that the parser still reads from `i` on. */
  function MacFrom(s: string, i: nat, left: nat): (m: Option<seq<byte>>)
    ensures m.Some? ==> |m.value| == left
    decreases left
  {
    if left == 0 then Some([])
    else if i + 2 > |s| || ByteAt(s, i).None? then None
    else
      var rest := MacFrom(s, SkipColon(s, i + 2, left > 1), left - 1);
      if rest.Some? then Some([ByteAt(s, i).value] + rest.value) else None
  }

  function Prepend(out: seq<byte>, rest: Option<seq<byte>>): Option<seq<byte>> {
    if rest.Some? then Some(out + rest.value) else None
  }

  lemma MacStep(s: string, i: nat, left: nat, out: seq<byte>)
    requires left > 0 && i + 2 <= |s| && ByteAt(s, i).Some?
    ensures Prepend(out, MacFrom(s, i, left))
         == Prepend(out + [ByteAt(s, i).value], MacFrom(s, SkipColon(s, i + 2, left > 1), left - 1))
  {
    var rest := MacFrom(s, SkipColon(s, i + 2, left > 1), left - 1);
    if rest.Some? {
      assert out + ([ByteAt(s, i).value] + rest.value) == (out + [ByteAt(s, i).value]) + rest.value;
    }
  }

  lemma MacEnds(s: string, i: nat, out: seq<byte>)
    ensures Prepend([], MacFrom(s, i, 6)) == MacFrom(s, i, 6)
    ensures Prepend(out, MacFrom(s, i, 0)) == Some(out)
    ensures forall left: nat :: left > 0 && (i + 2 > |s| || ByteAt(s, i).None?) ==> MacFrom(s, i, left) == None
  {
    var all := MacFrom(s, i, 6);
    assert all.Some? ==> [] + all.value == all.value;
    assert out + [] == out;
  }

  /** `parse_mac_addr` reads six bytes from the start of `s`, whatever follows them. */
  method ParseMacAddr(s: string) returns (mac: Option<seq<byte>>)
    ensures mac == MacFrom(s, 0, 6)
  {
    hide MacFrom, HexNibble;
    var out: seq<byte> := [];
    var i: nat, byteIdx: nat := 0, 0;
    MacEnds(s, 0, []);
    while byteIdx < 6 && i + 2 <= |s|
      invariant |out| == byteIdx <= 6
      invariant MacFrom(s, 0, 6) == Prepend(out, MacFrom(s, i, 6 - byteIdx))
    {
      MacEnds(s, i, out);
      var hi := HexNibble(s[i]);
      if hi.None? { return None; }
      var lo := HexNibble(s[i + 1]);
      if lo.None? { return None; }
      MacStep(s, i, 6 - byteIdx, out);
      out := out + [16 * hi.value + lo.value];
      byteIdx := byteIdx + 1;
      i := i + 2;
      if byteIdx < 6 && i < |s| && s[i] == ':' {
        i := i + 1;
      }
    }
    MacEnds(s, i, out);
    if byteIdx == 6 {
      mac := Some(out);
    } else {
      mac := None;
    }
  }

  /** `t` spells the bytes of `mac`: two hex digits each, with or without a colon between any two. */
  predicate Spells(t: string, mac: seq<byte>) {
    if mac == [] then t == ""
    else
      && |t| >= 2 && ByteAt(t, 0) == Some(mac[0])
      && (if |mac| == 1 then t[2..] == ""
          else Spells(t[2..], mac[1..]) || (|t| > 2 && t[2] == ':' && Spells(t[3..], mac[1..])))
  }

  /** The parser accepts exactly the texts that begin with a spelling, and returns what is spelled. */
  lemma ParsesIffSpelled(s: string, mac: seq<byte>)
    requires |mac| == 6
    ensures MacFrom(s, 0, 6) == Some(mac) <==> exists n: nat :: n <= |s| && Spells(s[..n], mac)
  {
    if MacFrom(s, 0, 6) == Some(mac) {
      var n := SpellingEnd(s, 0, mac);
      assert s[0..n] == s[..n];
    }
    if n: nat :| n <= |s| && Spells(s[..n], mac) {
      assert s[0..n] == s[..n];
      SpellingParses(s, 0, n, mac);
    }
  }

  lemma {:induction false} SpellingEnd(s: string, i: nat, mac: seq<byte>) returns (n: nat)
    requires i <= |s| && MacFrom(s, i, |mac|) == Some(mac)
    ensures i <= n <= |s| && Spells(s[i..n], mac)
    decreases |mac|
  {
    n := i;
    if mac != [] {
      var j := SkipColon(s, i + 2, |mac| > 1);
      var rest := MacFrom(s, j, |mac| - 1);
      assert mac[1..] == rest.value && mac[0] == ByteAt(s, i).value;
      n := SpellingEnd(s, j, mac[1..]);
      var t := s[i..n];
      assert t[0] == s[i] && t[1] == s[i + 1];
      if |mac| == 1 {
        assert mac[1..] == [];
        assert s[j..n] == "";
      } else if j == i + 2 {
        assert t[2..] == s[j..n];
      } else {
        assert t[2] == ':' && t[3..] == s[j..n];
      }
    }
  }

  lemma {:induction false} SpellingParses(s: string, i: nat, n: nat, mac: seq<byte>)
    requires i <= n <= |s| && Spells(s[i..n], mac)
    ensures MacFrom(s, i, |mac|) == Some(mac)
    decreases |mac|
  {
    if mac != [] {
      var t := s[i..n];
      assert t[0] == s[i] && t[1] == s[i + 1];
      assert mac == [mac[0]] + mac[1..];
      if |mac| == 1 {
        assert mac[1..] == [];
        assert MacFrom(s, i + 2, 0) == Some([]);
      } else if Spells(t[2..], mac[1..]) {
        SpellingStarts(t[2..], mac[1..]);
        assert t[2] == s[i + 2];
        assert t[2..] == s[i + 2..n];
        SpellingParses(s, i + 2, n, mac[1..]);
      } else {
        assert t[2] == s[i + 2];
        assert t[3..] == s[i + 3..n];
        SpellingParses(s, i + 3, n, mac[1..]);
      }
    }
  }

  lemma SpellingStarts(t: string, mac: seq<byte>)
    requires mac != [] && Spells(t, mac)
    ensures |t| >= 2 && t[0] != ':'
  {
  }

  /** The printed form of an address. */
  function PrintMac(mac: seq<byte>, upper: bool, colons: bool): string {
    if mac == [] then ""
    else PrintHex(mac[0], 2, upper) + (if colons && |mac| > 1 then ":" else "") + PrintMac(mac[1..], upper, colons)
  }

  lemma {:induction false} PrintedIsSpelling(mac: seq<byte>, upper: bool, colons: bool)
    ensures Spells(PrintMac(mac, upper, colons), mac)
    decreases |mac|
  {
    if mac != [] {
      var t := PrintMac(mac, upper, colons);
      var d := PrintHex(mac[0], 2, upper);
      PrintedByte(mac[0], upper);
      assert t[0] == d[0] && t[1] == d[1];
      PrintedIsSpelling(mac[1..], upper, colons);
      if colons && |mac| > 1 {
        assert t[3..] == PrintMac(mac[1..], upper, colons);
      } else {
        assert t[2..] == PrintMac(mac[1..], upper, colons);
      }
    }
  }

  lemma PrintedByte(b: byte, upper: bool)
    ensures PrintHex(b, 2, upper) == [Digit(b / 16, upper), Digit(b % 16, upper)]
    ensures ByteAt(PrintHex(b, 2, upper), 0) == Some(b)
  {
    assert PrintHex(b / 16, 1, upper) == PrintHex(b / 16 / 16, 0, upper) + [Digit(b / 16 % 16, upper)];
    NibbleOfDigit(b / 16, upper);
    NibbleOfDigit(b % 16, upper);
  }

  // ---------- The configuration file ----------

  class RwnxConfFile {
    var macAddr: seq<byte>

    constructor ()
      ensures macAddr == [0, 0, 0, 0, 0, 0]
    {
      macAddr := [0, 0, 0, 0, 0, 0];
    }
  }

  /** The address a configuration text stands for: the first MAC_ADDR line, or the default. */
  function ConfiguredMac(text: string): seq<byte> {
    var value := FirstTagged(Lines(text), MAC_TAG);
    if value.Some? && MacFrom(value.value, 0, 6).Some? then MacFrom(value.value, 0, 6).value else DEFAULT_MAC
  }

  method ParseConfigfile(text: string, config: RwnxConfFile) returns (r: Result<()>)
    modifies config
    ensures r == Ok(()) && config.macAddr == ConfiguredMac(text)
  {
    var value := FindTag(text, MAC_TAG);
    if value.Some? {
      var mac := ParseMacAddr(value.value);
      if mac.Some? {
        config.macAddr := mac.value;
        return Ok(());
      }
    }
    config.macAddr := DEFAULT_MAC;
    return Ok(());
  }

  /** The default stands exactly for a text without such a line, or whose first one begins with no spelling. */
  lemma ConfiguredMeans(text: string, mac: seq<byte>)
    requires |mac| == 6
    ensures var value := FirstTagged(Lines(text), MAC_TAG);
            && (value.Some? && (exists n: nat :: n <= |value.value| && Spells(value.value[..n], mac)) ==>
                  ConfiguredMac(text) == mac)
            && (ConfiguredMac(text) == mac ==>
                  mac == [0, 111, 111, 111, 111, 0]
                  || (value.Some? && exists n: nat :: n <= |value.value| && Spells(value.value[..n], mac)))
            && (value.None? ==> ConfiguredMac(text) == [0, 111, 111, 111, 111, 0])
  {
    var value := FirstTagged(Lines(text), MAC_TAG);
    if value.Some? { ParsesIffSpelled(value.value, mac); }
    hide FirstTagged, Lines, MacFrom, Spells;
  }

  /**
   For every address and every text whose first MAC_ADDR line carries its printed form, in either
   case, with or without colons and whatever follows on the line, the file yields that address.
   */
  lemma MacRoundTrip(text: string, mac: seq<byte>, upper: bool, colons: bool, rest: string)
    requires |mac| == 6
    requires FirstTagged(Lines(text), "MAC_ADDR=") == Some(PrintMac(mac, upper, colons) + rest)
    ensures ConfiguredMac(text) == mac
  {
    var p := PrintMac(mac, upper, colons);
    PrintedIsSpelling(mac, upper, colons);
    assert (p + rest)[..|p|] == p;
    ParsesIffSpelled(p + rest, mac);
  }
}
