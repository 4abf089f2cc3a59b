/**
 The text of an address as the server's Trojan parser writes it (Protocol/trojan/TrojanReq.cpp) for
 the resolver to read: four decimal numbers between dots, or eight groups of four hexadecimal digits
 between colons. The readers below say what such a text denotes; the parser does not use them.
 */
module AddressText {
  import opened Bytes

  const DOT: byte := 0x2E

  function Dotted(ip: Ip4): seq<byte> {
    Decimal(ip[0]) + [DOT] + Decimal(ip[1]) + [DOT] + Decimal(ip[2]) + [DOT] + Decimal(ip[3])
  }

  function HexDigit(n: nat): byte
    requires n < 16
  {
    if n < 10 then 0x30 + n else 0x57 + n
  }

  /** Two hexadecimal digits a byte, a colon after every second byte but the last. */
  function HexGroups(ip: seq<byte>): seq<byte>
    decreases |ip|
  {
    if |ip| < 2 then []
    else
      [HexDigit(ip[0] / 16), HexDigit(ip[0] % 16), HexDigit(ip[1] / 16), HexDigit(ip[1] % 16)]
      + (if |ip| > 2 then [COLON] + HexGroups(ip[2..]) else [])
  }

  /** The parts of a text between its dots, in order. */
  function Parts(text: seq<byte>): (parts: seq<seq<byte>>)
    ensures |parts| >= 1
  {
    if text == [] then [[]]
    else
      var rest := Parts(text[1..]);
      if text[0] == DOT then [[]] + rest else [[text[0]] + rest[0]] + rest[1..]
  }

  /** A decimal number of one byte, without needless zeros in front. */
  predicate IsOctet(part: seq<byte>) {
    && part != [] && (forall i :: 0 <= i < |part| ==> 0x30 <= part[i] <= 0x39)
    && (part[0] == 0x30 ==> |part| == 1)
    && 0 <= DecimalValue(part) < 0x100
  }

  function ReadDotted(text: seq<byte>): Option<Ip4> {
    var parts := Parts(text);
    if |parts| != 4 then None else Octets(parts[0], parts[1], parts[2], parts[3])
  }

  function Octets(a: seq<byte>, b: seq<byte>, c: seq<byte>, d: seq<byte>): Option<Ip4> {
    if IsOctet(a) && IsOctet(b) && IsOctet(c) && IsOctet(d) then
      Some([DecimalValue(a), DecimalValue(b), DecimalValue(c), DecimalValue(d)])
    else None
  }

  /** The value of a hexadecimal digit in lower case; 16 for anything else. */
  function HexValue(c: byte): nat {
    if 0x30 <= c <= 0x39 then c - 0x30 else if 0x61 <= c <= 0x66 then c - 0x57 else 16
  }

  /** The two bytes that the four digits in front denote. */
  function ReadGroup(text: seq<byte>): Option<(byte, byte)>
    requires |text| >= 4
  {
    if forall i :: 0 <= i < 4 ==> HexValue(text[i]) < 16 then
      Some((16 * HexValue(text[0]) + HexValue(text[1]), 16 * HexValue(text[2]) + HexValue(text[3])))
    else None
  }

  function ReadGroups(text: seq<byte>): Option<seq<byte>> {
    if |text| < 4 || ReadGroup(text).None? then None
    else
      var (high, low) := ReadGroup(text).value;
      if |text| == 4 then Some([high, low])
      else if text[4] != COLON || ReadGroups(text[5..]).None? then None
      else Some([high, low] + ReadGroups(text[5..]).value)
  }

  predicate NoDot(part: seq<byte>) {
    forall i :: 0 <= i < |part| ==> part[i] != DOT
  }

  lemma {:induction false} LastPart(part: seq<byte>)
    requires NoDot(part)
    ensures Parts(part) == [part]
  {
    if part != [] {
      LastPart(part[1..]);
      assert [part[0]] + part[1..] == part;
    }
  }

  /** A part without a dot is split off whole. */
  lemma {:induction false} SplitOff(part: seq<byte>, tail: seq<byte>)
    requires NoDot(part)
    ensures Parts(part + ([DOT] + tail)) == [part] + Parts(tail)
  {
    var text := part + ([DOT] + tail);
    if part == [] {
      assert text[1..] == tail;
    } else {
      SplitOff(part[1..], tail);
      assert text[1..] == part[1..] + ([DOT] + tail);
      assert [part[0]] + part[1..] == part;
    }
  }

  lemma Nested(a: seq<byte>, b: seq<byte>, c: seq<byte>, d: seq<byte>, dot: seq<byte>)
    ensures a + dot + b + dot + c + dot + d == a + (dot + (b + (dot + (c + (dot + d)))))
  {
  }

  lemma FourParts(a: seq<byte>, b: seq<byte>, c: seq<byte>, d: seq<byte>)
    requires NoDot(a) && NoDot(b) && NoDot(c) && NoDot(d)
    ensures Parts(a + ([DOT] + (b + ([DOT] + (c + ([DOT] + d)))))) == [a] + ([b] + ([c] + [d]))
  {
    SplitOff(a, b + ([DOT] + (c + ([DOT] + d))));
    SplitOff(b, c + ([DOT] + d));
    SplitOff(c, d);
    LastPart(d);
  }

  lemma OctetText(n: byte)
    ensures IsOctet(Decimal(n)) && NoDot(Decimal(n))
  {
  }

  /** The dotted text denotes the four bytes in their order. */
  lemma DottedDenotes(ip: Ip4)
    ensures ReadDotted(Dotted(ip)) == Some(ip)
  {
    OctetText(ip[0]);
    OctetText(ip[1]);
    OctetText(ip[2]);
    OctetText(ip[3]);
    var a, b, c, d := Decimal(ip[0]), Decimal(ip[1]), Decimal(ip[2]), Decimal(ip[3]);
    Nested(a, b, c, d, [DOT]);
    FourParts(a, b, c, d);
    assert Octets(a, b, c, d) == Some([ip[0], ip[1], ip[2], ip[3]]);
    assert ip == [ip[0], ip[1], ip[2], ip[3]];
  }

  lemma DigitDenotes(n: nat)
    requires n < 16
    ensures HexValue(HexDigit(n)) == n
  {
  }

  lemma GroupDenotes(high: byte, low: byte, tail: seq<byte>)
    ensures var text := [HexDigit(high / 16), HexDigit(high % 16), HexDigit(low / 16), HexDigit(low % 16)] + tail;
            ReadGroup(text) == Some((high, low))
  {
    DigitDenotes(high / 16);
    DigitDenotes(high % 16);
    DigitDenotes(low / 16);
    DigitDenotes(low % 16);
  }

  lemma OneGroupMore(text: seq<byte>, high: byte, low: byte, bytes: seq<byte>)
    requires |text| > 4 && ReadGroup(text) == Some((high, low)) && text[4] == COLON
    requires ReadGroups(text[5..]) == Some(bytes)
    ensures ReadGroups(text) == Some([high, low] + bytes)
  {
  }

  /** The groups denote the bytes in their order. */
  lemma {:induction false} GroupsDenote(ip: seq<byte>)
    requires |ip| >= 2 && |ip| % 2 == 0
    ensures ReadGroups(HexGroups(ip)) == Some(ip)
    decreases |ip|
  {
    var text := HexGroups(ip);
    if |ip| == 2 {
      GroupDenotes(ip[0], ip[1], []);
      assert ip == [ip[0], ip[1]];
    } else {
      var tail := [COLON] + HexGroups(ip[2..]);
      GroupDenotes(ip[0], ip[1], tail);
      GroupsDenote(ip[2..]);
      assert text[5..] == HexGroups(ip[2..]);
      OneGroupMore(text, ip[0], ip[1], ip[2..]);
      assert ip == [ip[0], ip[1]] + ip[2..];
    }
  }
}
