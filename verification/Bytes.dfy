/**
 Bytes, fixed-width integers in network order, and the decimal text of a number:
 the vocabulary shared by every wire format of the proxy.

 The source's `std::string` and `char` buffers are sequences of bytes. A shift-and-or of
 bytes is written as the sum it denotes.
 */
module Bytes {

  type byte = b: int | 0 <= b < 0x100

  type u16 = x: int | 0 <= x < 0x1_0000

  datatype Option<+T> = None | Some(value: T)

  type Ip4 = a: seq<byte> | |a| == 4 witness [0, 0, 0, 0]

  type Ip6 = a: seq<byte> | |a| == 16 witness [0, 0, 0, 0, 0, 0, 0, 0, 0, 0, 0, 0, 0, 0, 0, 0]

  /** A UDP endpoint: an address of either family and a port. */
  datatype Endpoint = V4(ip4: Ip4, port: u16) | V6(ip6: Ip6, port: u16)
  {
    /** The raw bytes of the address. */
    function Raw(): seq<byte> {
      match this
      case V4(ip, _) => ip
      case V6(ip, _) => ip
    }
  }

  const CR: byte := 0x0D
  const LF: byte := 0x0A
  const COLON: byte := 0x3A

  /** The two bytes of `v`, most significant first. */
  function PutU16(v: u16): (s: seq<byte>)
    ensures |s| == 2
    ensures GetU16(s, 0) == v
  {
    [v / 0x100, v % 0x100]
  }

  /** The number stored most significant byte first at `s[at..at + 2]`. */
  function GetU16(s: seq<byte>, at: nat): (v: u16)
    requires at + 2 <= |s|
  {
    0x100 * (s[at] as int) + s[at + 1]
  }

  /** Reading two bytes and writing them back changes nothing. */
  lemma PutGetU16(s: seq<byte>, at: nat)
    requires at + 2 <= |s|
    ensures PutU16(GetU16(s, at)) == s[at..at + 2]
  {
    assert s[at..at + 2] == [s[at], s[at + 1]];
  }

  /** An address of known size, a port, and what follows them: the tail of every header here. */
  datatype Addressed = Addressed(addr: seq<byte>, port: u16, rest: seq<byte>)

  function Join(a: Addressed): seq<byte> {
    a.addr + PutU16(a.port) + a.rest
  }

  function Split(body: seq<byte>, n: nat): Option<Addressed> {
    if |body| < n + 2 then None
    else Some(Addressed(body[..n], GetU16(body, n), body[n + 2..]))
  }

  /** Splitting what was joined gives the parts back. */
  lemma SplitJoin(a: Addressed)
    ensures Split(Join(a), |a.addr|) == Some(a)
  {
    var body := Join(a);
    assert body[..|a.addr|] == a.addr;
    assert body[|a.addr|] == PutU16(a.port)[0] && body[|a.addr| + 1] == PutU16(a.port)[1];
    assert body[|a.addr| + 2..] == a.rest;
  }

  /** Joining what was split gives the bytes back. */
  lemma JoinSplit(body: seq<byte>, n: nat)
    requires n + 2 <= |body|
    ensures Join(Split(body, n).value) == body
  {
    PutGetU16(body, n);
  }

  /** The same split, read through a pointer `p` into a longer string that ends at `end`. */
  lemma SplitAt(data: seq<byte>, p: nat, end: nat, n: nat)
    requires p + n + 2 <= end <= |data|
    ensures Split(data[p..end], n) == Some(Addressed(data[p..p + n], GetU16(data, p + n), data[p + n + 2..end]))
  {
    assert data[p..end][..n] == data[p..p + n];
    assert data[p..end][n + 2..] == data[p + n + 2..end];
  }

  /** The decimal text of a number, as `std::to_string` writes it. */
  function Decimal(n: nat): (s: seq<byte>)
    ensures |s| >= 1
    ensures forall i :: 0 <= i < |s| ==> 0x30 <= s[i] <= 0x39
    ensures DecimalValue(s) == n
    ensures s[0] == 0x30 ==> n == 0
    ensures n < 10 ==> |s| == 1
  {
    if n < 10 then [0x30 + n] else
      var front := Decimal(n / 10);
      var digit: byte := 0x30 + n % 10;
      assert (front + [digit])[..|front|] == front;
      front + [digit]
  }

  /** The number a decimal text denotes. */
  function DecimalValue(s: seq<byte>): int
  {
    if s == [] then 0 else 10 * DecimalValue(s[..|s| - 1]) + (s[|s| - 1] as int - 0x30)
  }

  /** The text `host:port` under which a destination is remembered. */
  function HostPort(host: seq<byte>, port: u16): seq<byte>
  {
    host + [COLON] + Decimal(port)
  }

  /**
   The text `host:port` determines both parts, even when the host itself contains colons
   (raw address bytes, IPv6 text): digits never contain a colon, so the last one separates.
   */
  lemma HostPortInjective(host1: seq<byte>, port1: u16, host2: seq<byte>, port2: u16)
    requires HostPort(host1, port1) == HostPort(host2, port2)
    ensures host1 == host2 && port1 == port2
  {
    var key1, key2 := HostPort(host1, port1), HostPort(host2, port2);
    OnlyDigitsAfterHost(host1, port1);
    OnlyDigitsAfterHost(host2, port2);
    assert key1[|host1|] == COLON && key2[|host2|] == COLON;
    assert |host1| == |host2|;
    assert host1 == key1[..|host1|] && host2 == key2[..|host1|];
    assert Decimal(port1) == key1[|host1| + 1..] && Decimal(port2) == key2[|host1| + 1..];
    assert DecimalValue(Decimal(port1)) == port1 && DecimalValue(Decimal(port2)) == port2;
  }

  /** After the separator only digits follow. */
  lemma OnlyDigitsAfterHost(host: seq<byte>, port: u16)
    ensures forall at :: |host| < at < |HostPort(host, port)| ==> HostPort(host, port)[at] != COLON
  {
    forall at | |host| < at < |HostPort(host, port)|
      ensures HostPort(host, port)[at] != COLON
    {
      assert HostPort(host, port)[at] == Decimal(port)[at - |host| - 1];
    }
  }
}
