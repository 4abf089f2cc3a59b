/**
 The frame that carries one UDP datagram inside the DTLS tunnel (Protocol/UdpFrame.cpp):
 magic 0x0D0A, total length, address type, address, port, payload.

 `Read` follows the code, whose domain arm skips the length byte and then counts it once
 more. What that does to domain frames is proved here, and everything else is proved to
 round-trip.
 */
module UdpFrame {
  import opened Bytes

  const ADDR_IPV4: byte := 0x01
  const ADDR_DOMAIN: byte := 0x03
  const ADDR_IPV6: byte := 0x06
  const HEADER_SIZE := 4
  const SIZE_T := 0x1_0000_0000_0000_0000
  const MAX_STRING := 0x7FFF_FFFF_FFFF_FFFF

  datatype Frame = Frame(addrType: byte, dst: Addressed)

  /** `LengthError` is the exception of `std::string::assign` when the byte count wrapped below zero. */
  datatype Outcome = Rejected | Parsed(frame: Frame, frameLen: nat) | LengthError

  /** Where a datagram goes: a literal endpoint, or a name still to be resolved. */
  datatype Destination = Literal(ep: Endpoint) | Domain(name: seq<byte>, port: u16)
  {
    predicate Valid() {
      Domain? ==> |name| <= 255
    }

    function AddrType(): byte {
      if Domain? then ADDR_DOMAIN else if ep.V4? then ADDR_IPV4 else ADDR_IPV6
    }

    function With(payload: seq<byte>): Addressed {
      if Domain? then Addressed(name, port, payload) else Addressed(ep.Raw(), ep.port, payload)
    }
  }

  /** Everything behind the address type. */
  function Body(d: Destination, payload: seq<byte>): seq<byte>
    requires d.Valid()
  {
    if d.Domain? then [|d.name|] + Join(d.With(payload)) else Join(d.With(payload))
  }

  /** The length a 16-bit field holds. */
  function Length(n: nat): (len: u16)
    ensures n <= 0xFFFF ==> len == n
  {
    n % 0x1_0000
  }

  /** A frame: the total length is stored modulo 2^16. */
  function Framed(addrType: byte, body: seq<byte>): (frame: seq<byte>)
    ensures |frame| == HEADER_SIZE + 1 + |body|
  {
    [CR, LF] + PutU16(Length(HEADER_SIZE + 1 + |body|)) + [addrType] + body
  }

  /** Both generators. */
  function Generate(d: Destination, payload: seq<byte>): (frame: seq<byte>)
    requires d.Valid()
    ensures |frame| == HEADER_SIZE + 1 + (if d.Domain? then 1 else 0) + |d.With(payload).addr| + 2 + |payload|
    ensures frame[1] == LF
  {
    Framed(d.AddrType(), Body(d, payload))
  }

  function Fields(addrType: byte, body: seq<byte>, n: nat, total: nat): Outcome {
    match Split(body, n)
    case None => Rejected
    case Some(dst) => Parsed(Frame(addrType, dst), total)
  }

  /** The domain arm: one byte too many is taken off the payload, or off nothing at all. */
  function DomainFields(body: seq<byte>, total: nat): Outcome {
    if |body| < 1 then Rejected else
    match Split(body[1..], body[0])
    case None => Rejected
    case Some(dst) =>
      if dst.rest == [] then LengthError
      else Parsed(Frame(ADDR_DOMAIN, dst.(rest := dst.rest[1..])), total)
  }

  /** A frame of one of the three address types, with an address of that type's size. */
  predicate ValidFrame(f: Frame) {
    || (f.addrType == ADDR_IPV4 && |f.dst.addr| == 4)
    || (f.addrType == ADDR_IPV6 && |f.dst.addr| == 16)
    || f.addrType == ADDR_DOMAIN
  }

  /** What `parse` makes of the bytes of one record. */
  function Read(data: seq<byte>): (r: Outcome)
    ensures r.Parsed? ==> ValidFrame(r.frame)
  {
    if |data| < HEADER_SIZE || data[..2] != [CR, LF] then Rejected
    else
      var total := GetU16(data, 2);
      if total <= HEADER_SIZE || |data| < total then Rejected
      else ReadBody(data[HEADER_SIZE], data[HEADER_SIZE + 1..total], total)
  }

  function ReadBody(addrType: byte, body: seq<byte>, total: nat): (r: Outcome)
    ensures r.Parsed? ==> ValidFrame(r.frame) && r.frame.addrType == addrType && r.frameLen == total
  {
    if addrType == ADDR_IPV4 then Fields(ADDR_IPV4, body, 4, total)
    else if addrType == ADDR_IPV6 then Fields(ADDR_IPV6, body, 16, total)
    else if addrType == ADDR_DOMAIN then DomainFields(body, total)
    else Rejected
  }

  /** Subtraction of `size_t` values wraps around below zero. */
  function SizeMinus(a: nat, b: nat): nat
    requires b <= SIZE_T
  {
    if b <= a then a - b else SIZE_T + a - b
  }

  /** The parser advances `p` and lowers `remaining`, an unsigned 64-bit count. */
  method Parse(data: seq<byte>) returns (r: Outcome)
    requires |data| <= MAX_STRING
    ensures r == Read(data)
  {
    if |data| < HEADER_SIZE { return Rejected; }
    if GetU16(data, 0) != 0x0D0A { return Rejected; }
    assert data[..2] == [CR, LF];
    var total: int := GetU16(data, 2);
    if total < HEADER_SIZE || |data| < total { return Rejected; }
    if total - HEADER_SIZE < 1 { return Rejected; }
    r := ParseBody(data, HEADER_SIZE + 1, total);
  }

  /** The rest of the parser, from the byte behind the address type on. */
  method ParseBody(data: seq<byte>, at: nat, total: nat) returns (r: Outcome)
    requires 1 <= at <= total <= |data| <= MAX_STRING
    ensures r == ReadBody(data[at - 1], data[at..total], total)
  {
    var addrType, p, remaining := data[at - 1], at, total - at;
    if addrType == ADDR_IPV4 {
      if remaining < 4 + 2 { return Rejected; }
      SplitAt(data, p, total, 4);
      r := TakeFields(addrType, data, p, total, 4, 4 + 2);
    } else if addrType == ADDR_DOMAIN {
      if remaining < 1 { return Rejected; }
      var dlen := data[p] as int;
      p, remaining := p + 1, remaining - 1;
      BehindLength(data, at, total);
      if remaining < dlen + 2 { return Rejected; }
      SplitAt(data, p, total, dlen);
      r := TakeFields(addrType, data, p, total, dlen, 1 + dlen + 2);
    } else if addrType == ADDR_IPV6 {
      if remaining < 16 + 2 { return Rejected; }
      SplitAt(data, p, total, 16);
      r := TakeFields(addrType, data, p, total, 16, 16 + 2);
    } else {
      return Rejected;
    }
  }

  /** Address and port are taken where `p` points; the payload begins `addrLen` bytes further on. */
  method TakeFields(addrType: byte, data: seq<byte>, p: nat, total: nat, n: nat, addrLen: nat) returns (r: Outcome)
    requires p + n + 2 <= total <= |data| <= MAX_STRING && (addrLen == n + 2 || addrLen == n + 3)
    ensures var dst := Addressed(data[p..p + n], GetU16(data, p + n), data[p + n + 2..total]);
            r == if addrLen == n + 2 then Parsed(Frame(addrType, dst), total)
                 else if dst.rest == [] then LengthError
                 else Parsed(Frame(addrType, dst.(rest := dst.rest[1..])), total)
  {
    var address, port, remaining := data[p..p + n], GetU16(data, p + n), SizeMinus(total - p, addrLen);
    if remaining > MAX_STRING { return LengthError; }
    var payload := if remaining == 0 then [] else data[p + addrLen..p + addrLen + remaining];
    return Parsed(Frame(addrType, Addressed(address, port, payload)), total);
  }

  lemma BehindLength(data: seq<byte>, at: nat, total: nat)
    requires at < total <= |data|
    ensures data[at..total][0] == data[at] && data[at..total][1..] == data[at + 1..total]
  {
  }

  lemma FramedParts(len: seq<byte>, addrType: byte, body: seq<byte>)
    requires |len| == 2
    ensures var data := [CR, LF] + len + [addrType] + body;
            && data[..2] == [CR, LF] && data[2] == len[0] && data[3] == len[1]
            && data[HEADER_SIZE] == addrType && data[HEADER_SIZE + 1..|data|] == body
  {
  }

  lemma ReadHeader(len: seq<byte>, addrType: byte, body: seq<byte>)
    requires |len| == 2 && GetU16(len, 0) == HEADER_SIZE + 1 + |body|
    ensures Read([CR, LF] + len + [addrType] + body) == ReadBody(addrType, body, HEADER_SIZE + 1 + |body|)
  {
    FramedParts(len, addrType, body);
  }

  /** The header of a whole frame is read back, whatever its body. */
  lemma ReadFramed(addrType: byte, body: seq<byte>)
    requires HEADER_SIZE + 1 + |body| <= 0xFFFF
    ensures Read(Framed(addrType, body)) == ReadBody(addrType, body, HEADER_SIZE + 1 + |body|)
  {
    ReadHeader(PutU16(Length(HEADER_SIZE + 1 + |body|)), addrType, body);
  }

  /**
   The layout of a frame: CR LF, the whole length modulo 2^16, the address type (1, 3 or 6), the length
   of a name, then address, port and payload in this order; numbers in network order.
   */
  lemma Layout(d: Destination, payload: seq<byte>)
    requires d.Valid()
    ensures var s, dst := Generate(d, payload), d.With(payload);
            var at := if d.Domain? then 6 else 5;
            var port := at + |dst.addr|;
            && s[..2] == [0x0D, 0x0A] && GetU16(s, 2) == |s| % 0x1_0000
            && s[4] == (if d.Domain? then 3 else if d.ep.V4? then 1 else 6) && (d.Domain? ==> s[5] == |d.name|)
            && s[at..port] == dst.addr && GetU16(s, port) == dst.port && s[port + 2..] == payload
  {
    var s, body := Generate(d, payload), Body(d, payload);
    var at := if d.Domain? then 6 else 5;
    SplitJoin(d.With(payload));
    assert GetU16(s, 2) == GetU16(PutU16(Length(|s|)), 0);
    assert s[5..] == body;
    assert s[at..] == Join(d.With(payload));
    SplitAt(s, at, |s|, |d.With(payload).addr|);
  }

  /** What a generated frame parses to, as long as its length fits the 16-bit field. */
  lemma ReadGenerated(d: Destination, payload: seq<byte>)
    requires d.Valid() && |Generate(d, payload)| <= 0xFFFF
    ensures d.Literal? ==>
              Read(Generate(d, payload)) == Parsed(Frame(d.AddrType(), d.With(payload)), |Generate(d, payload)|)
    ensures d.Domain? && payload == [] ==> Read(Generate(d, payload)) == LengthError
    ensures d.Domain? && payload != [] ==>
              Read(Generate(d, payload)) == Parsed(Frame(ADDR_DOMAIN, d.With(payload[1..])), |Generate(d, payload)|)
  {
    var body := Body(d, payload);
    ReadFramed(d.AddrType(), body);
    SplitJoin(d.With(payload));
    if d.Domain? {
      assert body[1..] == Join(d.With(payload));
    }
  }

  /** A length that does not fit the field: the stored one is smaller, so the payload cannot survive. */
  lemma ReadOverlong(d: Destination, payload: seq<byte>)
    requires d.Literal? && |Generate(d, payload)| > 0xFFFF
    ensures var r := Read(Generate(d, payload));
            r.Rejected? || (r.Parsed? && |r.frame.dst.rest| <= |payload| - 0x1_0000)
  {
    var data := Generate(d, payload);
    var stored := |data| % 0x1_0000;
    assert data[2..4] == PutU16(stored) && GetU16(data, 2) == stored;
    assert stored <= |data| - 0x1_0000;
    assert data[HEADER_SIZE] == d.AddrType();
  }

  /** `parse` inverts `generate` on exactly the literal addresses whose frame fits 16 bits of length. */
  lemma RoundTripIff(d: Destination, payload: seq<byte>)
    requires d.Valid()
    ensures Read(Generate(d, payload)) == Parsed(Frame(d.AddrType(), d.With(payload)), |Generate(d, payload)|)
            <==> d.Literal? && |Generate(d, payload)| <= 0xFFFF
  {
    if |Generate(d, payload)| <= 0xFFFF {
      ReadGenerated(d, payload);
      if d.Domain? && payload != [] {
        assert |d.With(payload[1..]).rest| != |d.With(payload).rest|;
      }
    } else if d.Literal? {
      ReadOverlong(d, payload);
    } else {
      assert Read(Generate(d, payload)).Parsed? ==> Read(Generate(d, payload)).frameLen <= 0xFFFF;
    }
  }

  /** Every accepted literal frame is one that `generate` writes: the parser accepts nothing else. */
  lemma ReadThenGenerate(data: seq<byte>)
    requires Read(data).Parsed? && Read(data).frame.addrType != ADDR_DOMAIN
    ensures var f := Read(data).frame;
            Read(data).frameLen <= |data| &&
            data[..Read(data).frameLen] == Generate(Literal(FrameEndpoint(f)), f.dst.rest)
  {
    var f, total := Read(data).frame, Read(data).frameLen;
    var body := data[HEADER_SIZE + 1..total];
    JoinSplit(body, |f.dst.addr|);
    WholeFrame(data);
    assert Body(Literal(FrameEndpoint(f)), f.dst.rest) == body;
  }

  /** An accepted frame to a name is one that `generate` writes for it and a payload with one more byte in front. */
  lemma NamedThenGenerate(data: seq<byte>)
    requires Read(data).Parsed? && Read(data).frame.addrType == ADDR_DOMAIN
    ensures var f := Read(data).frame;
            && Read(data).frameLen <= |data| && |f.dst.addr| <= 255
            && exists lost: byte ::
                 data[..Read(data).frameLen] == Generate(Domain(f.dst.addr, f.dst.port), [lost] + f.dst.rest)
  {
    var f, total := Read(data).frame, Read(data).frameLen;
    var body := data[HEADER_SIZE + 1..total];
    WholeFrame(data);
    var dst := Split(body[1..], body[0]).value;
    JoinSplit(body[1..], body[0]);
    assert dst.rest == [dst.rest[0]] + f.dst.rest;
    assert Domain(f.dst.addr, f.dst.port).With([dst.rest[0]] + f.dst.rest) == dst;
    assert body == [body[0]] + body[1..];
    assert data[..total] == Generate(Domain(f.dst.addr, f.dst.port), [dst.rest[0]] + f.dst.rest);
  }

  /** Whatever follows a frame in its record is ignored. */
  lemma RestIgnored(data: seq<byte>, more: seq<byte>)
    requires !Read(data).Rejected?
    ensures Read(data + more) == Read(data)
  {
    var total := GetU16(data, 2);
    assert (data + more)[..2] == data[..2];
    assert (data + more)[HEADER_SIZE + 1..total] == data[HEADER_SIZE + 1..total];
  }

  /** The bytes of an accepted frame are its header and its body. */
  lemma WholeFrame(data: seq<byte>)
    requires Read(data).Parsed?
    ensures var total := Read(data).frameLen;
            HEADER_SIZE < total <= |data|
              && data[..total] == Framed(Read(data).frame.addrType, data[HEADER_SIZE + 1..total])
  {
    var total := Read(data).frameLen;
    PutGetU16(data, 2);
    assert data[..total] == data[..2] + data[2..4] + [data[4]] + data[HEADER_SIZE + 1..total];
  }

  /** The endpoint a literal frame names. */
  function FrameEndpoint(f: Frame): (ep: Endpoint)
    requires ValidFrame(f) && f.addrType != ADDR_DOMAIN
    ensures ep.Raw() == f.dst.addr && ep.port == f.dst.port
  {
    if f.addrType == ADDR_IPV4 then V4(f.dst.addr, f.dst.port) else V6(f.dst.addr, f.dst.port)
  }
}
