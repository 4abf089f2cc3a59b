/**
 The Trojan wire formats (Protocol/trojan/TrojanReq.cpp, Protocol/trojan/UDPPacket.cpp): the
 SOCKS5 address, the UDP packet carried on the stream, and the request that opens it.
 */
module TrojanCodec {
  import opened AddressText
  import opened Bytes

  const IPV4: byte := 1
  const DOMAINNAME: byte := 3
  const IPV6: byte := 4
  const CRLF: seq<byte> := [CR, LF]

  /** A parsed address: its type, the text of the host, and the port. */
  datatype Address = Address(kind: byte, host: seq<byte>, port: u16)

  /** What is sent: a name, or an endpoint. */
  datatype Dest = Name(name: seq<byte>, port: u16) | Ip(ep: Endpoint)

  predicate ValidDest(d: Dest) {
    d.Name? ==> 1 <= |d.name| <= 255
  }

  predicate Unspecified(ep: Endpoint) {
    forall i :: 0 <= i < |ep.Raw()| ==> ep.Raw()[i] == 0
  }

  /** SOCKS5Address::generate for an endpoint, and the address part of a packet to a name. */
  function PutAddress(d: Dest): (s: seq<byte>)
    requires ValidDest(d)
    ensures 1 <= |s| <= 259
  {
    if d.Name? then [DOMAINNAME, |d.name|] + d.name + PutU16(d.port)
    else if Unspecified(d.ep) then [IPV4, 0, 0, 0, 0, 0, 0]
    else [if d.ep.V4? then IPV4 else IPV6] + d.ep.Raw() + PutU16(d.ep.port)
  }

  /** The address the receiver will see: an unspecified endpoint loses family and port. */
  function Seen(d: Dest): Address
    requires ValidDest(d)
  {
    if d.Name? then Address(DOMAINNAME, d.name, d.port)
    else if Unspecified(d.ep) then Address(IPV4, Dotted([0, 0, 0, 0]), 0)
    else if d.ep.V4? then Address(IPV4, Dotted(d.ep.ip4), d.ep.port)
    else Address(IPV6, HexGroups(d.ep.ip6), d.ep.port)
  }

  /** SOCKS5Address::parse: the address at the front of `data` and its encoded size. */
  function ReadAddress(data: seq<byte>): (r: Option<(Address, nat)>)
    ensures r.Some? ==> 1 <= r.value.1 <= |data|
  {
    if |data| == 0 then None
    else if data[0] == IPV4 && |data| > 6 then
      Some((Address(IPV4, Dotted(data[1..5]), GetU16(data, 5)), 7))
    else if data[0] == IPV6 && |data| > 18 then
      Some((Address(IPV6, HexGroups(data[1..17]), GetU16(data, 17)), 19))
    else if data[0] == DOMAINNAME && |data| > 1 && data[1] != 0 && |data| > 1 + data[1] as int + 2 then
      var n := data[1] as int;
      Some((Address(DOMAINNAME, data[2..2 + n], GetU16(data, n + 2)), n + 4))
    else None
  }

  /** What was recognised once stays recognised when more bytes arrive. */
  lemma ReadAddressStable(data: seq<byte>, more: seq<byte>)
    requires ReadAddress(data).Some?
    ensures ReadAddress(data + more) == ReadAddress(data)
  {
    var all := data + more;
    assert all[0] == data[0];
    if data[0] == IPV4 {
      assert all[1..5] == data[1..5];
    } else if data[0] == IPV6 {
      assert all[1..17] == data[1..17];
    } else {
      var n := data[1] as int;
      assert all[1] == data[1] && all[2..2 + n] == data[2..2 + n];
    }
  }

  lemma ReadPutAddress(d: Dest)
    requires ValidDest(d)
    ensures ReadAddress(PutAddress(d)) == Some((Seen(d), |PutAddress(d)|))
  {
    var s := PutAddress(d);
    if d.Name? {
      assert s[2..2 + |d.name|] == d.name;
    } else if Unspecified(d.ep) {
      assert s[1..5] == [0, 0, 0, 0];
    } else {
      var n := |d.ep.Raw()|;
      assert s[1..1 + n] == d.ep.Raw();
      assert s[1 + n] == PutU16(d.ep.port)[0] && s[2 + n] == PutU16(d.ep.port)[1];
    }
  }

  /** The endpoint that the text and the port of a literal address denote. */
  function Denoted(a: Address): Option<Endpoint> {
    if a.kind == IPV4 && ReadDotted(a.host).Some? then Some(V4(ReadDotted(a.host).value, a.port))
    else if a.kind == IPV6 && ReadGroups(a.host).Some? && |ReadGroups(a.host).value| == 16 then
      Some(V6(ReadGroups(a.host).value, a.port))
    else None
  }

  /** Every literal address that is read denotes the endpoint with those bytes and that port. */
  lemma LiteralDenotes(data: seq<byte>)
    requires ReadAddress(data).Some? && data[0] != DOMAINNAME
    ensures Denoted(ReadAddress(data).value.0)
            == Some(if data[0] == IPV4 then V4(data[1..5], GetU16(data, 5)) else V6(data[1..17], GetU16(data, 17)))
  {
    if data[0] == IPV4 {
      DottedDenotes(data[1..5]);
    } else {
      GroupsDenote(data[1..17]);
    }
  }

  lemma SeenDenotes(ep: Endpoint)
    ensures Denoted(Seen(Ip(ep))) == Some(if ep.Raw() == seq(|ep.Raw()|, _ => 0) then V4([0, 0, 0, 0], 0) else ep)
  {
    assert Unspecified(ep) <==> ep.Raw() == seq(|ep.Raw()|, _ => 0);
    DottedDenotes([0, 0, 0, 0]);
    if ep.V4? {
      DottedDenotes(ep.ip4);
    } else {
      GroupsDenote(ep.ip6);
    }
  }

  /** A written endpoint is read back as itself; an unspecified one as 0.0.0.0 with port 0. */
  lemma EndpointReadBack(ep: Endpoint)
    ensures ReadAddress(PutAddress(Ip(ep))).Some?
    ensures Denoted(ReadAddress(PutAddress(Ip(ep))).value.0)
            == Some(if ep.Raw() == seq(|ep.Raw()|, _ => 0) then V4([0, 0, 0, 0], 0) else ep)
  {
    ReadPutAddress(Ip(ep));
    SeenDenotes(ep);
    SameDenotes(ReadAddress(PutAddress(Ip(ep))), Seen(Ip(ep)), |PutAddress(Ip(ep))|);
  }

  lemma SameDenotes(r: Option<(Address, nat)>, a: Address, n: nat)
    requires r == Some((a, n))
    ensures Denoted(r.value.0) == Denoted(a)
  {
  }

  /** The bytes of an address as the protocol lays them out: 1, 3 or 4, the address, the port in network order. */
  function Laid(a: Address): seq<byte> {
    if a.kind == 3 then [3, |a.host| % 0x100] + a.host + PutU16(a.port)
    else match Denoted(a)
      case None => []
      case Some(ep) => [if ep.V4? then 1 else 4] + ep.Raw() + PutU16(ep.port)
  }

  /** Only an address laid out like that is read, and it is read to its end. */
  lemma AddressIsLaid(data: seq<byte>)
    requires ReadAddress(data).Some?
    ensures var (a, len) := ReadAddress(data).value; data[..len] == Laid(a)
    ensures data[0] == 3 ==> 1 <= |ReadAddress(data).value.0.host| <= 255
  {
    if data[0] == DOMAINNAME {
      NameIsLaid(data);
    } else {
      LiteralIsLaid(data);
    }
  }

  lemma Ends(s: seq<byte>, len: nat)
    requires 3 <= len <= |s|
    ensures s[..len] == [s[0]] + s[1..len - 2] + s[len - 2..len] && s[len - 2..len] == PutU16(GetU16(s, len - 2))
  {
    PutGetU16(s, len - 2);
  }

  lemma NameIsLaid(data: seq<byte>)
    requires ReadAddress(data).Some? && data[0] == DOMAINNAME
    ensures var (a, len) := ReadAddress(data).value; data[..len] == Laid(a) && 1 <= |a.host| <= 255
  {
    var (a, len) := ReadAddress(data).value;
    Ends(data, len);
    assert data[1..len - 2] == [data[1]] + a.host;
  }

  lemma LiteralIsLaid(data: seq<byte>)
    requires ReadAddress(data).Some? && data[0] != DOMAINNAME
    ensures var (a, len) := ReadAddress(data).value; data[..len] == Laid(a)
  {
    LiteralDenotes(data);
    Ends(data, ReadAddress(data).value.1);
  }

  datatype Packet = Packet(address: Address, payload: seq<byte>)

  /** UDPPacket::parse: the packet at the front of `data` and its encoded size. */
  function ReadPacket(data: seq<byte>): (r: Option<(Packet, nat)>)
    ensures r.Some? ==> 1 <= r.value.1 <= |data|
  {
    match ReadAddress(data)
    case None => None
    case Some((address, at)) => ReadPayload(data, address, at)
  }

  /** The part behind the address: a length, a line break, and as many bytes. */
  function ReadPayload(data: seq<byte>, address: Address, at: nat): (r: Option<(Packet, nat)>)
    ensures r.Some? ==> at < r.value.1 <= |data|
  {
    if |data| < at + 2 then None
    else
      var length := GetU16(data, at);
      if |data| < at + 4 + length || data[at + 2..at + 4] != CRLF then None
      else Some((Packet(address, data[at + 4..at + 4 + length]), at + 4 + length))
  }

  /**
   Only a packet laid out as the protocol says is recognised: the address, the length of the payload, a
   line break, the payload, and nothing else up to the length that is reported.
   */
  lemma PacketIsLaid(data: seq<byte>)
    requires ReadPacket(data).Some?
    ensures var (p, len) := ReadPacket(data).value;
            |p.payload| <= 0xFFFF && data[..len] == Laid(p.address) + PutU16(|p.payload|) + [0x0D, 0x0A] + p.payload
  {
    var (address, at) := ReadAddress(data).value;
    var len := ReadPacket(data).value.1;
    AddressIsLaid(data);
    PayloadIsLaid(data, address, at);
    assert data[..len] == data[..at] + data[at..len];
  }

  lemma PayloadIsLaid(data: seq<byte>, address: Address, at: nat)
    requires ReadPayload(data, address, at).Some?
    ensures var (p, len) := ReadPayload(data, address, at).value;
            |p.payload| <= 0xFFFF && data[at..len] == PutU16(|p.payload|) + [0x0D, 0x0A] + p.payload
  {
    PutGetU16(data, at);
    var len := ReadPayload(data, address, at).value.1;
    assert data[at..len] == data[at..at + 2] + data[at + 2..at + 4] + data[at + 4..len];
  }

  lemma ReadPayloadStable(data: seq<byte>, more: seq<byte>, address: Address, at: nat)
    requires ReadPayload(data, address, at).Some?
    ensures ReadPayload(data + more, address, at) == ReadPayload(data, address, at)
  {
    var all, length := data + more, GetU16(data, at);
    assert all[at + 2..at + 4] == data[at + 2..at + 4];
    assert all[at + 4..at + 4 + length] == data[at + 4..at + 4 + length];
  }

  lemma ReadPacketStable(data: seq<byte>, more: seq<byte>)
    requires ReadPacket(data).Some?
    ensures ReadPacket(data + more) == ReadPacket(data)
  {
    var (address, at) := ReadAddress(data).value;
    ReadAddressStable(data, more);
    ReadPayloadStable(data, more, address, at);
  }

  /** A packet to be sent. */
  datatype Sent = Sent(dest: Dest, payload: seq<byte>)

  predicate ValidSent(p: Sent) {
    ValidDest(p.dest) && |p.payload| <= 0xFFFF
  }

  /** Both UDPPacket::generate functions. */
  function PutPacket(p: Sent): (s: seq<byte>)
    requires ValidSent(p)
    ensures |s| == |PutAddress(p.dest)| + 4 + |p.payload|
  {
    PutAddress(p.dest) + (PutU16(|p.payload|) + CRLF + p.payload)
  }

  function SeenPacket(p: Sent): Packet
    requires ValidSent(p)
  {
    Packet(Seen(p.dest), p.payload)
  }

  lemma ReadPutPayload(head: seq<byte>, address: Address, payload: seq<byte>)
    requires |payload| <= 0xFFFF
    ensures var s := head + (PutU16(|payload|) + CRLF + payload);
            ReadPayload(s, address, |head|) == Some((Packet(address, payload), |s|))
  {
    var s, at := head + (PutU16(|payload|) + CRLF + payload), |head|;
    assert s[at] == PutU16(|payload|)[0] && s[at + 1] == PutU16(|payload|)[1];
    assert s[at + 2..at + 4] == CRLF;
    assert s[at + 4..at + 4 + |payload|] == payload;
  }

  lemma ReadPutPacket(p: Sent)
    requires ValidSent(p)
    ensures ReadPacket(PutPacket(p)) == Some((SeenPacket(p), |PutPacket(p)|))
  {
    ReadPutAddress(p.dest);
    ReadWholePacket(PutAddress(p.dest), Seen(p.dest), p.payload);
  }

  lemma ReadWholePacket(head: seq<byte>, address: Address, payload: seq<byte>)
    requires |payload| <= 0xFFFF && ReadAddress(head) == Some((address, |head|))
    ensures var s := head + (PutU16(|payload|) + CRLF + payload);
            ReadPacket(s) == Some((Packet(address, payload), |s|))
  {
    ReadAddressStable(head, PutU16(|payload|) + CRLF + payload);
    ReadPutPayload(head, address, payload);
  }

  datatype Command = Connect | UdpAssociate
  datatype Request = Request(password: seq<byte>, command: Command, address: Address, payload: seq<byte>)

  /** The first position of CR LF at or after `from`, or the length of the data (std::string::find). */
  method FindCrlf(data: seq<byte>) returns (at: nat)
    ensures at == CrlfAt(data)
  {
    at := 0;
    while at + 1 < |data| && !(data[at] == CR && data[at + 1] == LF)
      invariant at <= |data|
      invariant forall i :: 0 <= i < at && i + 1 < |data| ==> !(data[i] == CR && data[i + 1] == LF)
    {
      at := at + 1;
    }
    if at + 1 >= |data| { at := |data|; }
    CrlfAtUnique(data, at);
  }

  /** Position of the first CR LF, or the length of the data. */
  function CrlfAt(data: seq<byte>): (at: nat)
    ensures at <= |data|
    ensures at < |data| ==> at + 1 < |data| && data[at] == CR && data[at + 1] == LF
  {
    if |data| < 2 then |data|
    else if data[0] == CR && data[1] == LF then 0
    else 1 + CrlfAt(data[1..])
  }

  lemma {:induction false} NoneBefore(data: seq<byte>)
    ensures forall i :: 0 <= i < CrlfAt(data) && i + 1 < |data| ==> !(data[i] == CR && data[i + 1] == LF)
  {
    if |data| >= 2 && !(data[0] == CR && data[1] == LF) {
      NoneBefore(data[1..]);
      assert forall i :: 1 <= i < |data| ==> data[i] == data[1..][i - 1];
    }
  }

  lemma CrlfAtUnique(data: seq<byte>, at: nat)
    requires at <= |data|
    requires at < |data| ==> at + 1 < |data| && data[at] == CR && data[at + 1] == LF
    requires forall i :: 0 <= i < at && i + 1 < |data| ==> !(data[i] == CR && data[i + 1] == LF)
    ensures at == CrlfAt(data)
  {
    NoneBefore(data);
  }

  /** TrojanReq::parse. */
  function ReadRequest(data: seq<byte>): Option<Request> {
    var first := CrlfAt(data);
    if first == |data| then None
    else ReadCommand(data[..first], data[first + 2..])
  }

  /** The part behind the password line: a command, an address, a line break, the payload. */
  function ReadCommand(password: seq<byte>, body: seq<byte>): Option<Request> {
    if |body| == 0 || (body[0] != 1 && body[0] != 3) then None else
      match ReadAddress(body[1..])
      case None => None
      case Some((address, at)) =>
        if |body| < at + 3 || body[at + 1..at + 3] != CRLF then None
        else Some(Request(password, if body[0] == 1 then Connect else UdpAssociate, address, body[at + 3..]))
  }

  /** The parser reassigns `payload` as it takes the parts off its front. */
  method ParseRequest(data: seq<byte>) returns (r: Option<Request>)
    ensures r == ReadRequest(data)
  {
    var first := FindCrlf(data);
    if first == |data| { return None; }
    var password, payload := data[..first], data[first + 2..];
    if |payload| == 0 || (payload[0] != 1 && payload[0] != 3) { return None; }
    var command := if payload[0] == 1 then Connect else UdpAssociate;
    var address := ReadAddress(payload[1..]);
    if address.None? { return None; }
    var len := address.value.1;
    if |payload| < len + 3 || payload[len + 1..len + 3] != CRLF { return None; }
    payload := payload[len + 3..];
    return Some(Request(password, command, address.value.0, payload));
  }

  function Code(command: Command): byte {
    if command.Connect? then 1 else 3
  }

  /** The address part of a request, for a name of any length: the length byte holds it modulo 256. */
  function PutName(name: seq<byte>, port: u16): seq<byte> {
    [DOMAINNAME, |name| % 0x100] + name + PutU16(port)
  }

  /** TrojanReq::generate, followed by the first payload. */
  function PutRequest(password: seq<byte>, name: seq<byte>, port: u16, command: Command, payload: seq<byte>): seq<byte>
  {
    password + CRLF + PutBody(PutName(name, port), command, payload)
  }

  function PutBody(addr: seq<byte>, command: Command, payload: seq<byte>): seq<byte> {
    [Code(command)] + addr + CRLF + payload
  }

  lemma BodyParts(addr: seq<byte>, command: Command, payload: seq<byte>)
    ensures var body := PutBody(addr, command, payload);
            && |body| == |addr| + |payload| + 3 && body[0] == Code(command) && body[1..] == addr + (CRLF + payload)
            && body[|addr| + 1..|addr| + 3] == CRLF && body[|addr| + 3..] == payload
  {
  }

  lemma ReadPutCommand(password: seq<byte>, addr: seq<byte>, address: Address, command: Command, payload: seq<byte>)
    requires ReadAddress(addr) == Some((address, |addr|))
    ensures ReadCommand(password, PutBody(addr, command, payload)) == Some(Request(password, command, address, payload))
  {
    BodyParts(addr, command, payload);
    ReadAddressStable(addr, CRLF + payload);
  }

  /** A name is read back with the length its length byte says, which is never zero. */
  lemma NameLength(data: seq<byte>)
    requires |data| >= 2 && data[0] == DOMAINNAME && ReadAddress(data).Some?
    ensures |ReadAddress(data).value.0.host| == data[1] as int >= 1
  {
  }

  /** A name of no byte or of more than 255 is not read back. */
  lemma BadNameLost(password: seq<byte>, name: seq<byte>, port: u16, command: Command, payload: seq<byte>)
    requires !(1 <= |name| <= 255)
    ensures var r := ReadCommand(password, PutBody(PutName(name, port), command, payload));
            r.Some? ==> r.value.address.host != name
  {
    var addr := PutName(name, port);
    BodyParts(addr, command, payload);
    var rest := addr + (CRLF + payload);
    assert rest[0] == DOMAINNAME && rest[1] == |name| % 0x100;
    if ReadAddress(rest).Some? {
      NameLength(rest);
    }
  }

  /** The first line break of `password CR LF ...` is the added one, unless the password has its own. */
  lemma PasswordLine(password: seq<byte>, body: seq<byte>)
    ensures CrlfAt(password + CRLF + body) == |password| <==> CrlfAt(password) == |password|
    ensures CrlfAt(password) < |password| ==> CrlfAt(password + CRLF + body) < |password|
  {
    var data := password + CRLF + body;
    NoneBefore(password);
    NoneBefore(data);
    assert forall i :: 0 <= i < |password| ==> data[i] == password[i];
    assert data[|password|] == CR && data[|password| + 1] == LF;
    if CrlfAt(password) == |password| {
      CrlfAtUnique(data, |password|);
    } else {
      var first := CrlfAt(password);
      assert data[first] == CR && data[first + 1] == LF;
    }
  }

  /** The password line is split off whole, or the password comes out shorter. */
  lemma SplitPassword(password: seq<byte>, body: seq<byte>)
    ensures CrlfAt(password) == |password| ==> ReadRequest(password + CRLF + body) == ReadCommand(password, body)
    ensures var r := ReadRequest(password + CRLF + body);
            CrlfAt(password) < |password| && r.Some? ==> |r.value.password| < |password|
  {
    var data := password + CRLF + body;
    PasswordLine(password, body);
    assert data[..|password|] == password && data[|password| + 2..] == body;
  }

  /**
   The request is recovered exactly when the password contains no line break of its own and the name
   has between 1 and 255 bytes.
   */
  lemma ReadPutRequest(password: seq<byte>, name: seq<byte>, port: u16, command: Command, payload: seq<byte>)
    ensures ReadRequest(PutRequest(password, name, port, command, payload))
            == Some(Request(password, command, Address(DOMAINNAME, name, port), payload))
            <==> CrlfAt(password) == |password| && 1 <= |name| <= 255
  {
    RecoveredIff(password, PutBody(PutName(name, port), command, payload),
                 Request(password, command, Address(DOMAINNAME, name, port), payload));
    NameRecoveredIff(password, name, port, command, payload);
  }

  lemma RecoveredIff(password: seq<byte>, body: seq<byte>, request: Request)
    requires request.password == password
    ensures ReadRequest(password + CRLF + body) == Some(request)
            <==> CrlfAt(password) == |password| && ReadCommand(password, body) == Some(request)
  {
    SplitPassword(password, body);
  }

  lemma NameRecoveredIff(password: seq<byte>, name: seq<byte>, port: u16, command: Command, payload: seq<byte>)
    ensures ReadCommand(password, PutBody(PutName(name, port), command, payload))
            == Some(Request(password, command, Address(DOMAINNAME, name, port), payload))
            <==> 1 <= |name| <= 255
  {
    if 1 <= |name| <= 255 {
      ReadPutAddress(Name(name, port));
      ReadPutCommand(password, PutName(name, port), Address(DOMAINNAME, name, port), command, payload);
    } else {
      BadNameLost(password, name, port, command, payload);
    }
  }

  /**
   Only a request laid out as the protocol says is recognised: a password without a line break, a line
   break, command 1 or 3, an address, a line break, and the payload is all the rest.
   */
  lemma RequestIsLaid(data: seq<byte>)
    requires ReadRequest(data).Some?
    ensures var r := ReadRequest(data).value;
            && CrlfAt(r.password) == |r.password|
            && data == r.password + [0x0D, 0x0A] + ([if r.command.Connect? then 1 else 3] + Laid(r.address)
                                                    + [0x0D, 0x0A] + r.payload)
  {
    var first, r := CrlfAt(data), ReadRequest(data).value;
    BeforeLineBreak(data, first);
    BodyIsLaid(data[..first], data[first + 2..]);
  }

  lemma BeforeLineBreak(data: seq<byte>, first: nat)
    requires first == CrlfAt(data) < |data|
    ensures CrlfAt(data[..first]) == first && data == data[..first] + [0x0D, 0x0A] + data[first + 2..]
  {
    NoneBefore(data);
    CrlfAtUnique(data[..first], first);
  }

  lemma BodyIsLaid(password: seq<byte>, body: seq<byte>)
    requires ReadCommand(password, body).Some?
    ensures var r := ReadCommand(password, body).value;
            && r.password == password
            && body == [if r.command.Connect? then 1 else 3] + Laid(r.address) + [0x0D, 0x0A] + r.payload
  {
    AddressIsLaid(body[1..]);
    BodyPieces(body, ReadAddress(body[1..]).value.1);
  }

  lemma BodyPieces(body: seq<byte>, at: nat)
    requires at + 3 <= |body|
    ensures body == [body[0]] + body[1..][..at] + body[at + 1..at + 3] + body[at + 3..]
  {
  }

  /** A chunk without a line break is no request. */
  lemma NoCrlfNoRequest(data: seq<byte>)
    requires forall i :: 0 <= i < |data| - 1 ==> !(data[i] == CR && data[i + 1] == LF)
    ensures ReadRequest(data) == None
  {
    CrlfAtUnique(data, |data|);
  }
}
