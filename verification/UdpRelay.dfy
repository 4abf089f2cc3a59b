/**
 The client's UDP relay (Client/UdpRelay.cpp): SOCKS5 datagrams from the application become
 tunnel frames, and tunnel frames become SOCKS5 datagrams for the application that asked.
 */
module UdpRelays {
  import opened Bytes
  import R = UdpRequest
  import F = UdpFrame

  /** What fits the receive buffer. */
  type Datagram = d: seq<byte> | |d| <= 0xFFFF

  /** The destination a request names, for the frame generator. */
  function DestinationOf(r: R.Request): (d: F.Destination)
    requires R.WellFormed(r)
    ensures d.Valid() && d.With(r.dst.rest) == r.dst
    ensures d.Literal? <==> r.addrType != R.ATYP_DOMAIN
  {
    if r.addrType == R.ATYP_DOMAIN then F.Domain(r.dst.addr, r.dst.port) else F.Literal(R.DestEndpoint(r))
  }

  function FrameFor(r: R.Request): seq<byte>
    requires R.WellFormed(r)
  {
    F.Generate(DestinationOf(r), r.dst.rest)
  }

  /** The frame a datagram from the application becomes, if it is a SOCKS5 UDP request. */
  function FrameOf(datagram: seq<byte>): Option<seq<byte>> {
    match R.Read(datagram)
    case None => None
    case Some(r) =>
      R.ReadThenSerialize(datagram);
      Some(FrameFor(r))
  }

  /** A frame is one byte longer than the datagram it carries, for every address type. */
  lemma FrameOneLonger(datagram: seq<byte>)
    requires R.Read(datagram).Some?
    ensures |FrameOf(datagram).value| == |datagram| + 1
  {
    R.ReadThenSerialize(datagram);
  }

  /** The tunnel's address type for a request's. */
  function FrameType(addrType: byte): byte {
    if addrType == R.ATYP_IPV6 then F.ADDR_IPV6 else addrType
  }

  /**
   What the server makes of a datagram with a literal address that fits the receive buffer of
   65535 bytes: the same address, port and payload, or nothing if the length field wrapped to zero.
   */
  lemma LiteralDatagramCarried(datagram: Datagram)
    requires R.Read(datagram).Some? && R.Read(datagram).value.addrType != R.ATYP_DOMAIN
    ensures var r := R.Read(datagram).value;
            F.Read(FrameOf(datagram).value) ==
            if |datagram| < 0xFFFF then F.Parsed(F.Frame(FrameType(r.addrType), r.dst), |datagram| + 1) else F.Rejected
  {
    var r := R.Read(datagram).value;
    R.ReadThenSerialize(datagram);
    FrameOneLonger(datagram);
    if |datagram| < 0xFFFF {
      F.ReadGenerated(DestinationOf(r), r.dst.rest);
    } else {
      ReadWrapped(DestinationOf(r), r.dst.rest);
    }
  }

  /** And of a datagram to a name: the payload without its first byte, an exception if it is empty. */
  lemma NamedDatagramCarried(datagram: Datagram)
    requires R.Read(datagram).Some? && R.Read(datagram).value.addrType == R.ATYP_DOMAIN
    ensures var r := R.Read(datagram).value;
            F.Read(FrameOf(datagram).value) ==
            if |datagram| == 0xFFFF then F.Rejected
            else if r.dst.rest == [] then F.LengthError
            else F.Parsed(F.Frame(F.ADDR_DOMAIN, r.dst.(rest := r.dst.rest[1..])), |datagram| + 1)
  {
    var r := R.Read(datagram).value;
    R.ReadThenSerialize(datagram);
    FrameOneLonger(datagram);
    if |datagram| < 0xFFFF {
      F.ReadGenerated(DestinationOf(r), r.dst.rest);
    } else {
      ReadWrapped(DestinationOf(r), r.dst.rest);
    }
  }

  /** A frame of exactly 65536 bytes announces a length of zero. */
  lemma ReadWrapped(d: F.Destination, payload: seq<byte>)
    requires d.Valid() && |F.Generate(d, payload)| == 0x1_0000
    ensures F.Read(F.Generate(d, payload)) == F.Rejected
  {
    var data := F.Generate(d, payload);
    assert data[2..4] == PutU16(0);
  }

  /** The datagram the application gets for a frame from the server. */
  function ReplyFor(f: F.Frame): seq<byte> {
    R.Serialize(R.Request(f.addrType, f.dst))
  }

  /** The SOCKS5 type of an endpoint's address. */
  function SocksType(ep: Endpoint): byte {
    if ep.V4? then R.ATYP_IPV4 else R.ATYP_IPV6
  }

  /**
   The application can read the reply of a target back exactly if the target has an IPv4 address:
   the tunnel's IPv6 type is not that of SOCKS5, so no SOCKS5 parser accepts such a reply.
   */
  lemma ReplyReadableIff(from: Endpoint, data: seq<byte>)
    requires F.Read(F.Generate(F.Literal(from), data)).Parsed?
    ensures R.Read(ReplyFor(F.Read(F.Generate(F.Literal(from), data)).frame))
            == Some(R.Request(SocksType(from), Addressed(from.Raw(), from.port, data)))
            <==> from.V4? && |F.Generate(F.Literal(from), data)| <= 0xFFFF
    ensures from.V6? ==> R.Read(ReplyFor(F.Read(F.Generate(F.Literal(from), data)).frame)) == None
  {
    var d := F.Literal(from);
    var f := F.Read(F.Generate(d, data)).frame;
    if |F.Generate(d, data)| <= 0xFFFF {
      F.ReadGenerated(d, data);
      R.SerializeThenRead(R.Request(f.addrType, f.dst));
    } else {
      F.ReadOverlong(d, data);
      assert |f.dst.rest| < |data|;
      R.SerializeThenRead(R.Request(f.addrType, f.dst));
      assert F.ValidFrame(f);
    }
  }

  /** Which application endpoint last asked for which target, and who spoke last at all. */
  datatype Desk = Desk(senders: map<seq<byte>, Endpoint>, lastSender: Endpoint)

  /** The unspecified endpoint that `sender_ep_` starts as. */
  const NOBODY := V4([0, 0, 0, 0], 0)

  /** What the relay saw: a datagram from the application side, or a frame from the server. */
  datatype Seen = Asked(from: Endpoint, datagram: Datagram) | Answered(frame: seq<byte>)

  function TargetKey(a: Addressed): seq<byte> {
    HostPort(a.addr, a.port)
  }

  /** do_receive_local: every arrival overwrites `sender_ep_`, requests are remembered under their target. */
  function Ask(desk: Desk, from: Endpoint, datagram: seq<byte>): Desk {
    var d := desk.(lastSender := from);
    match R.Read(datagram)
    case None => d
    case Some(r) => d.(senders := d.senders[TargetKey(r.dst) := from])
  }

  /** on_dtls_data: the remembered endpoint is used once. */
  function Answer(desk: Desk, f: F.Frame): Desk {
    desk.(senders := desk.senders - {TargetKey(f.dst)})
  }

  function AppEndpoint(desk: Desk, a: Addressed): Endpoint {
    if TargetKey(a) in desk.senders then desk.senders[TargetKey(a)] else desk.lastSender
  }

  function See(desk: Desk, seen: Seen): Desk {
    match seen
    case Asked(from, datagram) => Ask(desk, from, datagram)
    case Answered(frame) => if F.Read(frame).Parsed? then Answer(desk, F.Read(frame).frame) else desk
  }

  /** The desk after a history. */
  function DeskAfter(h: seq<Seen>): Desk {
    if h == [] then Desk(map[], NOBODY) else See(DeskAfter(h[..|h| - 1]), h[|h| - 1])
  }

  /** A request, or a frame from the server, that carries these address bytes and this port. */
  predicate Carries(seen: Seen, addr: seq<byte>, port: u16) {
    match seen
    case Asked(_, datagram) =>
      var r := R.Read(datagram);
      r.Some? && r.value.dst.addr == addr && r.value.dst.port == port
    case Answered(frame) =>
      var f := F.Read(frame);
      f.Parsed? && f.frame.dst.addr == addr && f.frame.dst.port == port
  }

  /** Who asked last under these address bytes and this port, unless that was answered already. */
  function Asker(h: seq<Seen>, addr: seq<byte>, port: u16): Option<Endpoint> {
    if h == [] then None
    else
      var before, last := h[..|h| - 1], h[|h| - 1];
      if !Carries(last, addr, port) then Asker(before, addr, port)
      else if last.Asked? then Some(last.from)
      else None
  }

  /** Two targets share a key exactly if they have the same address bytes and port. */
  lemma SameKey(a: Addressed, addr: seq<byte>, port: u16)
    ensures TargetKey(a) == HostPort(addr, port) <==> a.addr == addr && a.port == port
  {
    if TargetKey(a) == HostPort(addr, port) {
      HostPortInjective(a.addr, a.port, addr, port);
    }
  }

  /** The table remembers exactly the askers the history names, by address bytes and port. */
  lemma {:induction false} DeskRemembers(h: seq<Seen>, addr: seq<byte>, port: u16)
    ensures var key, m := HostPort(addr, port), DeskAfter(h).senders;
            Asker(h, addr, port) == if key in m then Some(m[key]) else None
  {
    if h != [] {
      var before, seen := h[..|h| - 1], h[|h| - 1];
      DeskRemembers(before, addr, port);
      match seen
      case Asked(from, datagram) =>
        if R.Read(datagram).Some? {
          SameKey(R.Read(datagram).value.dst, addr, port);
        }
      case Answered(frame) =>
        if F.Read(frame).Parsed? {
          SameKey(F.Read(frame).frame.dst, addr, port);
        }
    }
  }

  /** Who sent the latest datagram from the application side. */
  function LastSpeaker(h: seq<Seen>): Endpoint {
    if h == [] then NOBODY
    else if h[|h| - 1].Asked? then h[|h| - 1].from
    else LastSpeaker(h[..|h| - 1])
  }

  lemma {:induction false} DeskKnowsLastSpeaker(h: seq<Seen>)
    ensures DeskAfter(h).lastSender == LastSpeaker(h)
  {
    if h != [] {
      DeskKnowsLastSpeaker(h[..|h| - 1]);
    }
  }

  /** The request names a host, and does not give an address. */
  predicate ByName(seen: Seen) {
    seen.Asked? && R.Read(seen.datagram).Some? && R.Read(seen.datagram).value.addrType == R.ATYP_DOMAIN
  }

  /** Who asked last for this very endpoint, unless that was answered already. */
  function LiteralAsker(h: seq<Seen>, ep: Endpoint): Option<Endpoint> {
    if h == [] then None
    else
      var before, last := h[..|h| - 1], h[|h| - 1];
      if !Carries(last, ep.Raw(), ep.port) || ByName(last) then LiteralAsker(before, ep)
      else if last.Asked? then Some(last.from)
      else None
  }

  /** Who asked, after that, for the host whose name is spelled with the bytes of this address, at its port. */
  function Shadow(h: seq<Seen>, ep: Endpoint): Option<Endpoint> {
    if h == [] then None
    else
      var before, last := h[..|h| - 1], h[|h| - 1];
      if !Carries(last, ep.Raw(), ep.port) then Shadow(before, ep)
      else if ByName(last) then Some(last.from)
      else None
  }

  /** The key does not say whether it is an address or a name, so the later request counts. */
  lemma {:induction false} ShadowFirst(h: seq<Seen>, ep: Endpoint)
    ensures Asker(h, ep.Raw(), ep.port) == if Shadow(h, ep).Some? then Shadow(h, ep) else LiteralAsker(h, ep)
  {
    if h != [] {
      ShadowFirst(h[..|h| - 1], ep);
    }
  }

  /** Where an answer goes in every run: to whoever asked last under its key, or else to whoever spoke last. */
  lemma AnswerGoesTo(h: seq<Seen>, a: Addressed)
    ensures var asker := Asker(h, a.addr, a.port);
            AppEndpoint(DeskAfter(h), a) == if asker.Some? then asker.value else LastSpeaker(h)
  {
    DeskRemembers(h, a.addr, a.port);
    DeskKnowsLastSpeaker(h);
  }

  /**
   An answer from an endpoint that was asked for goes to the one who asked for it last, if and only if
   nobody else asked later for a host whose name has the bytes of that address. An answer from
   an endpoint nobody asked for, by address or by such a name, goes to whoever spoke last.
   */
  lemma AnswerGoesToAsker(h: seq<Seen>, ep: Endpoint, data: seq<byte>)
    ensures var to := AppEndpoint(DeskAfter(h), Addressed(ep.Raw(), ep.port, data));
            && (LiteralAsker(h, ep).Some? ==>
                  (to == LiteralAsker(h, ep).value <==> Shadow(h, ep).None? || Shadow(h, ep) == LiteralAsker(h, ep)))
            && (LiteralAsker(h, ep).None? && Shadow(h, ep).None? ==> to == LastSpeaker(h))
  {
    AnswerGoesTo(h, Addressed(ep.Raw(), ep.port, data));
    ShadowFirst(h, ep);
  }

  /** Two applications ask, one for an address and then one for the name spelled with its four bytes. */
  lemma NameTakesAnswer(first: Endpoint, second: Endpoint, ip: Ip4, port: u16, payload: seq<byte>, data: seq<byte>)
    requires first != second && |payload| <= 0xFF00
    ensures var h := [Asked(first, R.Serialize(R.Request(R.ATYP_IPV4, Addressed(ip, port, payload)))),
                      Asked(second, R.Serialize(R.Request(R.ATYP_DOMAIN, Addressed(ip, port, payload))))];
            && LiteralAsker(h, V4(ip, port)) == Some(first)
            && AppEndpoint(DeskAfter(h), Addressed(ip, port, data)) == second
  {
    var dst := Addressed(ip, port, payload);
    var one, two := R.Request(R.ATYP_IPV4, dst), R.Request(R.ATYP_DOMAIN, dst);
    R.SerializeThenRead(one);
    R.SerializeThenRead(two);
    var h := [Asked(first, R.Serialize(one)), Asked(second, R.Serialize(two))];
    assert h[..1] == [h[0]] && [h[0]][..0] == [];
    AnswerGoesToAsker(h, V4(ip, port), data);
    AnswerGoesTo(h, Addressed(ip, port, data));
  }
}
