/**
 The SOCKS5 UDP request header of section 7 of RFC 1928, as Protocol/socks5/UdpRequest.cpp
 reads and writes it: RSV RSV FRAG ATYP DST.ADDR DST.PORT DATA.
 */
module UdpRequest {
  import opened Bytes

  const ATYP_IPV4: byte := 0x01
  const ATYP_DOMAIN: byte := 0x03
  const ATYP_IPV6: byte := 0x04

  /** The address type and what follows it; the reserved and fragment bytes before it are zero. */
  datatype Request = Request(addrType: byte, dst: Addressed)

  /** The address has the size its type announces. */
  predicate WellFormed(r: Request) {
    || (r.addrType == ATYP_IPV4 && |r.dst.addr| == 4)
    || (r.addrType == ATYP_DOMAIN && |r.dst.addr| <= 255)
    || (r.addrType == ATYP_IPV6 && |r.dst.addr| == 16)
  }

  /** An address type other than the three of RFC 1928 writes no address at all. */
  function Serialize(r: Request): seq<byte> {
    [0, 0, 0, r.addrType] +
    (if r.addrType == ATYP_DOMAIN then [|r.dst.addr| % 0x100] + Join(r.dst)
     else if r.addrType == ATYP_IPV4 || r.addrType == ATYP_IPV6 then Join(r.dst)
     else PutU16(r.dst.port) + r.dst.rest)
  }

  function Fields(addrType: byte, body: seq<byte>, n: nat): Option<Request> {
    match Split(body, n)
    case None => None
    case Some(dst) => Some(Request(addrType, dst))
  }

  /** The request a datagram carries, if it carries one. */
  function Read(data: seq<byte>): Option<Request> {
    if |data| < 4 || data[..3] != [0, 0, 0] then None
    else
      var addrType, body := data[3], data[4..];
      if addrType == ATYP_IPV4 then Fields(addrType, body, 4)
      else if addrType == ATYP_IPV6 then Fields(addrType, body, 16)
      else if addrType == ATYP_DOMAIN && |body| >= 1 then Fields(addrType, body[1..], body[0])
      else None
  }

  /** The parser walks a pointer `p` over the datagram, with `remain` bytes left. */
  method Parse(data: seq<byte>) returns (r: Option<Request>)
    ensures r == Read(data)
  {
    if |data| < 4 { return None; }
    if data[0] != 0 || data[1] != 0 || data[2] != 0 { return None; }
    assert data[..3] == [0, 0, 0];
    var addrType := data[3];
    var p, remain := 4, |data| - 4;
    assert data[p..|data|] == data[4..];
    if addrType == ATYP_IPV4 {
      if remain < 6 { return None; }
      SplitAt(data, p, |data|, 4);
      r := Some(Request(addrType, Addressed(data[p..p + 4], GetU16(data, p + 4), data[p + 6..])));
    } else if addrType == ATYP_DOMAIN {
      if remain < 1 { return None; }
      var dlen := data[p] as int;
      assert data[4..][1..] == data[p + 1..|data|];
      if remain < dlen + 2 + 1 { return None; }
      SplitAt(data, p + 1, |data|, dlen);
      r := Some(Request(addrType,
          Addressed(data[p + 1..p + 1 + dlen], GetU16(data, p + 1 + dlen), data[p + 1 + dlen + 2..])));
    } else if addrType == ATYP_IPV6 {
      if remain < 18 { return None; }
      SplitAt(data, p, |data|, 16);
      r := Some(Request(addrType, Addressed(data[p..p + 16], GetU16(data, p + 16), data[p + 18..])));
    } else {
      r := None;
    }
  }

  lemma HeaderParts(addrType: byte, body: seq<byte>)
    ensures var data := [0, 0, 0, addrType] + body; data[..3] == [0, 0, 0] && data[3] == addrType && data[4..] == body
  {
  }

  lemma ReadNamed(len: byte, body: seq<byte>)
    ensures Read([0, 0, 0, ATYP_DOMAIN] + ([len] + body)) == Fields(ATYP_DOMAIN, body, len)
  {
    HeaderParts(ATYP_DOMAIN, [len] + body);
    assert ([len] + body)[1..] == body;
  }

  /**
   The layout of section 7 of RFC 1928: two reserved bytes and the fragment number, all zero, the address
   type (1, 3 or 4), the length of a name, then address, port and data in this order.
   */
  lemma Layout(r: Request)
    requires WellFormed(r)
    ensures var s, at := Serialize(r), if r.addrType == 3 then 5 else 4;
            var port := at + |r.dst.addr|;
            && |s| == port + 2 + |r.dst.rest|
            && s[..3] == [0, 0, 0] && s[3] == r.addrType && r.addrType in [1, 3, 4]
            && (r.addrType == 3 ==> s[4] == |r.dst.addr|)
            && s[at..port] == r.dst.addr && GetU16(s, port) == r.dst.port && s[port + 2..] == r.dst.rest
  {
    var s, at := Serialize(r), if r.addrType == 3 then 5 else 4;
    SplitJoin(r.dst);
    assert s[at..] == Join(r.dst);
    SplitAt(s, at, |s|, |r.dst.addr|);
  }

  /** A type that RFC 1928 does not know is written with no address at all: the port and the data follow it. */
  lemma LayoutOfOthers(r: Request)
    requires r.addrType !in [1, 3, 4]
    ensures var s := Serialize(r);
            && |s| == 6 + |r.dst.rest| && s[..4] == [0, 0, 0, r.addrType]
            && GetU16(s, 4) == r.dst.port && s[6..] == r.dst.rest
  {
    var s := Serialize(r);
    assert s[4] == PutU16(r.dst.port)[0] && s[5] == PutU16(r.dst.port)[1];
  }

  /** Serialising then parsing is the identity on exactly the well-formed requests. */
  lemma SerializeThenRead(r: Request)
    ensures Read(Serialize(r)) == Some(r) <==> WellFormed(r)
  {
    if r.addrType == ATYP_DOMAIN {
      NameThenRead(r);
    } else if r.addrType == ATYP_IPV4 || r.addrType == ATYP_IPV6 {
      LiteralThenRead(r);
    } else {
      HeaderParts(r.addrType, PutU16(r.dst.port) + r.dst.rest);
    }
  }

  lemma NameThenRead(r: Request)
    requires r.addrType == ATYP_DOMAIN
    ensures Read(Serialize(r)) == Some(r) <==> WellFormed(r)
  {
    ReadNamed(|r.dst.addr| % 0x100, Join(r.dst));
    if |r.dst.addr| <= 255 {
      SplitJoin(r.dst);
    } else {
      SplitLength(Join(r.dst), |r.dst.addr| % 0x100);
    }
  }

  lemma SplitLength(body: seq<byte>, n: nat)
    ensures Split(body, n).Some? ==> |Split(body, n).value.addr| == n
  {
  }

  lemma LiteralThenRead(r: Request)
    requires r.addrType == ATYP_IPV4 || r.addrType == ATYP_IPV6
    ensures Read(Serialize(r)) == Some(r) <==> WellFormed(r)
  {
    HeaderParts(r.addrType, Join(r.dst));
    SplitJoin(r.dst);
  }

  /** Parsing then serialising gives back the datagram, byte for byte, whenever it was accepted. */
  lemma ReadThenSerialize(data: seq<byte>)
    requires Read(data).Some?
    ensures WellFormed(Read(data).value)
    ensures Serialize(Read(data).value) == data
  {
    HeaderOf(data);
    if data[3] == ATYP_DOMAIN {
      NameRead(data[4..], Read(data).value);
    } else {
      JoinSplit(data[4..], |Read(data).value.dst.addr|);
    }
  }

  lemma NameRead(body: seq<byte>, r: Request)
    requires |body| >= 1 && Fields(ATYP_DOMAIN, body[1..], body[0]) == Some(r)
    ensures WellFormed(r) && [|r.dst.addr| % 0x100] + Join(r.dst) == body
  {
    SplitLength(body[1..], body[0]);
    JoinSplit(body[1..], |r.dst.addr|);
    assert body == [body[0]] + body[1..];
  }

  lemma HeaderOf(data: seq<byte>)
    requires |data| >= 4 && data[..3] == [0, 0, 0]
    ensures data == [0, 0, 0, data[3]] + data[4..]
  {
    assert data == data[..3] + [data[3]] + data[4..];
  }

  /** The endpoint a request with a literal address names. */
  function DestEndpoint(r: Request): (ep: Endpoint)
    requires WellFormed(r) && r.addrType != ATYP_DOMAIN
    ensures ep.Raw() == r.dst.addr && ep.port == r.dst.port
  {
    if r.addrType == ATYP_IPV4 then V4(r.dst.addr, r.dst.port) else V6(r.dst.addr, r.dst.port)
  }
}
