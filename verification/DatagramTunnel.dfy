/**
 The UDP tunnel end to end: the client's relays and channel (`ClientUdp`), a network that may
 lose, reorder and repeat records, and the server's session (`DtlsServer`).

 A record the server reads is one the client submitted, and a record the client reads is one the
 server sent: that is what DTLS guarantees, and all that is assumed of the network.
 */
module DatagramTunnel {
  import opened Bytes
  import opened UdpRelays
  import C = ClientUdp
  import S = DtlsServer
  import R = UdpRequest
  import F = UdpFrame

  /** What a target sent to the server, and how many datagrams the server had sent to targets by then. */
  datatype Word = Word(from: Endpoint, data: seq<byte>, sent: nat)

  datatype Tunnel = Tunnel(client: C.Client, server: S.Server, heard: seq<Word>)

  datatype Setup = Setup(password: seq<byte>, usable: bool, gate: S.Gate)

  datatype Event = AtClient(c: C.Event) | AtServer(s: S.Event)

  function Initial(setup: Setup): Tunnel {
    Tunnel(C.Initial(setup.usable), S.INITIAL, [])
  }

  predicate Enabled(t: Tunnel, ev: Event) {
    match ev
    case AtClient(e) => C.Enabled(t.client, e) && (e.Receives? ==> e.record in t.server.replies)
    case AtServer(e) =>
      && (e.Datagram? && e.read.Record? ==> e.read.data in t.client.channel.submitted)
      && (e.FromTarget? ==> |e.data| <= 0xFFFF)
  }

  function Step(setup: Setup, t: Tunnel, ev: Event): Tunnel
    requires Enabled(t, ev)
  {
    match ev
    case AtClient(e) => t.(client := C.Step(setup.password, t.client, e))
    case AtServer(e) => t.(server := S.Step(setup.gate, t.server, e), heard := Heard(t, e))
  }

  function Heard(t: Tunnel, e: S.Event): seq<Word> {
    if e.FromTarget? then t.heard + [Word(e.from, e.data, |t.server.sends|)] else t.heard
  }

  /**
   An application gave the relay a datagram that this send carries: to the same literal endpoint
   with the same payload, or to the same name and port and then without the first byte of its payload.
   */
  predicate Names(seen: Seen, send: S.Send) {
    && seen.Asked? && R.Read(seen.datagram).Some?
    && var r := R.Read(seen.datagram).value;
       && R.WellFormed(r)
       && match send.name
          case None => r.addrType != R.ATYP_DOMAIN && R.DestEndpoint(r) == send.ep && r.dst.rest == send.payload
          case Some(name) =>
            && r.addrType == R.ATYP_DOMAIN && r.dst.addr == name.host && r.dst.port == name.port
            && r.dst.rest != [] && r.dst.rest[1..] == send.payload
  }

  /** ... and the relay is the one with the session id of the send. */
  ghost predicate Asked(c: C.Client, send: S.Send) {
    exists i, k :: 0 <= i < |c.sessions| && 0 <= k < |c.sessions[i].relay.seen| && AskedAt(c, send, i, k)
  }

  ghost predicate AskedAt(c: C.Client, send: S.Send, i: nat, k: nat)
    requires i < |c.sessions| && k < |c.sessions[i].relay.seen|
  {
    c.sessions[i].sid == send.sid && Names(c.sessions[i].relay.seen[k], send)
  }

  /** Every send of the server was asked for, and so was every send that waits for the resolver. */
  ghost predicate SendsAsked(t: Tunnel) {
    && (forall m :: 0 <= m < |t.server.sends| ==> Asked(t.client, t.server.sends[m]))
    && (forall r :: r in t.server.resolving ==> Asked(t.client, OnceResolved(r, NOBODY)))
  }

  /** The send that a resolved name leads to. */
  function OnceResolved(r: S.Resolving, ep: Endpoint): S.Send {
    S.Send(ep, r.payload, r.sid, Some(S.Name(r.domain, r.port)))
  }

  lemma AskedStays(c: C.Client, d: C.Client, send: S.Send)
    requires Asked(c, send) && C.Extends(c, d)
    ensures Asked(d, send)
  {
    var i, k :| 0 <= i < |c.sessions| && 0 <= k < |c.sessions[i].relay.seen| && AskedAt(c, send, i, k);
    assert d.sessions[i].relay.seen[k] == c.sessions[i].relay.seen[k];
    assert AskedAt(d, send, i, k);
  }

  /** A frame in the projection of a session came from a datagram that session saw. */
  lemma {:induction false} FrameWasSeen(seen: seq<Seen>, frame: seq<byte>)
    requires frame in C.FramesOf(seen)
    ensures exists k :: 0 <= k < |seen| && seen[k].Asked? && FrameOf(seen[k].datagram) == Some(frame)
  {
    var n := |seen| - 1;
    if seen[n].Asked? && FrameOf(seen[n].datagram) == Some(frame) {
    } else {
      FrameWasSeen(seen[..n], frame);
      var k :| 0 <= k < n && seen[..n][k].Asked? && FrameOf(seen[..n][k].datagram) == Some(frame);
      assert seen[k].Asked? && FrameOf(seen[k].datagram) == Some(frame);
    }
  }

  lemma {:induction false} RecordIsProjected(records: seq<seq<byte>>, owners: seq<nat>, k: nat)
    requires |owners| == |records| && k < |records| && |records[k]| >= 2
    ensures records[k][2..] in C.Project(records, owners, owners[k])
    decreases |records|
  {
    var n := |records| - 1;
    if k < n {
      RecordIsProjected(records[..n], owners[..n], k);
    }
  }

  /** Every record after the password line is a session's id and the frame of a datagram that session saw. */
  lemma RecordWasAsked(password: seq<byte>, c: C.Client, at: nat)
    requires C.Inv(password, c) && 0 < at < |c.channel.submitted|
    ensures exists i, k :: 0 <= i < |c.sessions| && 0 <= k < |c.sessions[i].relay.seen|
                           && MadeAt(c, c.channel.submitted[at], i, k)
  {
    var records, record := C.FrameRecords(c.channel), c.channel.submitted[at];
    assert records[at - 1] == record;
    var i := c.owners[at - 1];
    assert C.OwnedBy(c, record, i);
    RecordIsProjected(records, c.owners, at - 1);
    assert C.RelayOk(c.sessions[i], C.Sent(c, i));
    assert record[2..] in C.FramesOf(c.sessions[i].relay.seen);
    FrameWasSeen(c.sessions[i].relay.seen, record[2..]);
    var k :| 0 <= k < |c.sessions[i].relay.seen| && c.sessions[i].relay.seen[k].Asked?
              && FrameOf(c.sessions[i].relay.seen[k].datagram) == Some(record[2..]);
    assert MadeAt(c, record, i, k);
  }

  ghost predicate MadeAt(c: C.Client, record: seq<byte>, i: nat, k: nat)
    requires i < |c.sessions| && k < |c.sessions[i].relay.seen|
  {
    var seen := c.sessions[i].relay.seen[k];
    |record| >= 2 && GetU16(record, 0) == c.sessions[i].sid && seen.Asked?
      && FrameOf(seen.datagram) == Some(record[2..])
  }

  /** The password line, should it be read after authentication, is not taken for a frame. */
  predicate Harmless(password: seq<byte>) {
    |password| >= 1 ==> !F.Read((password + [LF])[2..]).Parsed?
  }

  /** Any password without a newline is harmless: a frame has one in its fourth byte. */
  lemma NoNewlineIsHarmless(password: seq<byte>)
    requires LF !in password
    ensures Harmless(password)
  {
    var line := password + [LF];
    if |line| >= 6 {
      assert line[2..][..2][1] == line[3] == password[3];
    }
  }

  /** The name in a frame, if it has one. */
  function NameIn(f: F.Frame): Option<S.Name> {
    if f.addrType == F.ADDR_DOMAIN then Some(S.Name(f.dst.addr, f.dst.port)) else None
  }

  /** The send that the frame in a record asks for; a name is sent to whatever it resolves to. */
  predicate AskedByRecord(record: seq<byte>, send: S.Send) {
    && |record| >= 2 && F.Read(record[2..]).Parsed?
    && var f := F.Read(record[2..]).frame;
       && send.sid == GetU16(record, 0) && send.payload == f.dst.rest
       && send.name == NameIn(f) && (send.name.None? ==> send.ep == F.FrameEndpoint(f))
  }

  /** A new send is the work of one record or of one finished resolution. */
  lemma NewSendFrom(gate: S.Gate, s: S.Server, ev: S.Event)
    requires S.Step(gate, s, ev).sends != s.sends && |S.Step(gate, s, ev).sends| == |s.sends| + 1
    ensures var send := S.Step(gate, s, ev).sends[|s.sends|];
            || (ev.Datagram? && ev.read.Record? && AskedByRecord(ev.read.data, send))
            || (exists r :: r in s.resolving && send == OnceResolved(r, send.ep))
  {
    if ev.Resolved? {
      assert s.resolving[ev.which] in s.resolving;
    }
  }

  /** A new resolution is the work of one record. */
  lemma NewResolvingFrom(gate: S.Gate, s: S.Server, ev: S.Event, r: S.Resolving)
    requires r in S.Step(gate, s, ev).resolving && r !in s.resolving
    ensures ev.Datagram? && ev.read.Record? && AskedByRecord(ev.read.data, OnceResolved(r, NOBODY))
  {
  }

  /** The send that a datagram's frame leads to carries the datagram. */
  lemma FrameSendNames(seen: Seen, record: seq<byte>, send: S.Send)
    requires AskedByRecord(record, send) && seen.Asked? && FrameOf(seen.datagram) == Some(record[2..])
    ensures Names(seen, send)
  {
    var r := R.Read(seen.datagram).value;
    R.ReadThenSerialize(seen.datagram);
    if r.addrType == R.ATYP_DOMAIN {
      NamedDatagramCarried(seen.datagram);
    } else {
      LiteralDatagramCarried(seen.datagram);
    }
  }

  /** A send that a submitted record asks for was asked for by an application. */
  lemma RecordSendAsked(password: seq<byte>, c: C.Client, record: seq<byte>, send: S.Send)
    requires C.Inv(password, c) && Harmless(password)
    requires record in c.channel.submitted && AskedByRecord(record, send)
    ensures Asked(c, send)
  {
    assert record != password + [LF];
    var at :| 0 <= at < |c.channel.submitted| && c.channel.submitted[at] == record;
    RecordWasAsked(password, c, at);
    var i, k :| 0 <= i < |c.sessions| && 0 <= k < |c.sessions[i].relay.seen| && MadeAt(c, record, i, k);
    FrameSendNames(c.sessions[i].relay.seen[k], record, send);
    assert AskedAt(c, send, i, k);
  }

  lemma AnyEndpoint(c: C.Client, r: S.Resolving, ep: Endpoint)
    requires Asked(c, OnceResolved(r, NOBODY))
    ensures Asked(c, OnceResolved(r, ep))
  {
    var i, k :| 0 <= i < |c.sessions| && 0 <= k < |c.sessions[i].relay.seen|
      && AskedAt(c, OnceResolved(r, NOBODY), i, k);
    assert AskedAt(c, OnceResolved(r, ep), i, k);
  }

  lemma NewSendAsked(setup: Setup, t: Tunnel, e: S.Event)
    requires C.Inv(setup.password, t.client) && Harmless(setup.password)
    requires Enabled(t, AtServer(e)) && SendsAsked(t)
    requires var u := S.Step(setup.gate, t.server, e); u.sends != t.server.sends && |u.sends| == |t.server.sends| + 1
    ensures Asked(t.client, S.Step(setup.gate, t.server, e).sends[|t.server.sends|])
  {
    var send := S.Step(setup.gate, t.server, e).sends[|t.server.sends|];
    NewSendFrom(setup.gate, t.server, e);
    if e.Datagram? && e.read.Record? && AskedByRecord(e.read.data, send) {
      RecordSendAsked(setup.password, t.client, e.read.data, send);
    } else {
      var r :| r in t.server.resolving && send == OnceResolved(r, send.ep);
      AnyEndpoint(t.client, r, send.ep);
    }
  }

  lemma ServerSendsAsked(setup: Setup, t: Tunnel, e: S.Event)
    requires C.Inv(setup.password, t.client) && Harmless(setup.password)
    requires Enabled(t, AtServer(e)) && SendsAsked(t)
    ensures SendsAsked(Step(setup, t, AtServer(e)))
  {
    var s, u := t.server, S.Step(setup.gate, t.server, e);
    if u.sends != s.sends {
      S.SendIsSendTo(setup.gate, s, e);
      NewSendAsked(setup, t, e);
      assert u.sends == s.sends + [u.sends[|s.sends|]];
    }
    forall r | r in u.resolving
      ensures Asked(t.client, OnceResolved(r, NOBODY))
    {
      if r !in s.resolving {
        NewResolvingFrom(setup.gate, s, e, r);
        RecordSendAsked(setup.password, t.client, e.read.data, OnceResolved(r, NOBODY));
      }
    }
  }

  /** A record of the server frames what a target sent, for the session that had last sent to it by then. */
  ghost predicate ReplyFrom(sends: seq<S.Send>, record: seq<byte>, w: Word) {
    w.sent <= |sends| && |w.data| <= 0xFFFF
      && record == S.ReplyRecord(S.LatestSid(sends[..w.sent], w.from), w.from, w.data)
  }

  ghost predicate RepliesOk(s: S.Server, heard: seq<Word>) {
    forall m :: 0 <= m < |s.replies| ==> ReplyOk(s.sends, heard, s.replies[m])
  }

  ghost predicate ReplyOk(sends: seq<S.Send>, heard: seq<Word>, record: seq<byte>) {
    exists h :: 0 <= h < |heard| && ReplyFrom(sends, record, heard[h])
  }

  lemma ReplyStays(sends: seq<S.Send>, more: seq<S.Send>, heard: seq<Word>, later: seq<Word>, record: seq<byte>)
    requires ReplyOk(sends, heard, record) && sends <= more && heard <= later
    ensures ReplyOk(more, later, record)
  {
    var h :| 0 <= h < |heard| && ReplyFrom(sends, record, heard[h]);
    assert more[..heard[h].sent] == sends[..heard[h].sent];
    assert ReplyFrom(more, record, later[h]);
  }

  /** Replies come from targets and from nowhere else. */
  lemma NewReply(gate: S.Gate, s: S.Server, e: S.Event)
    requires S.Step(gate, s, e).replies != s.replies
    ensures e.FromTarget? && S.Step(gate, s, e).sends == s.sends
    ensures S.Step(gate, s, e).replies == s.replies + [S.ReplyRecord(S.Tag(s.routes, e.from), e.from, e.data)]
  {
  }

  lemma SendsGrow(gate: S.Gate, s: S.Server, e: S.Event)
    ensures s.sends <= S.Step(gate, s, e).sends
  {
    if S.Step(gate, s, e).sends != s.sends {
      S.SendIsSendTo(gate, s, e);
    }
  }

  lemma ServerRepliesOk(setup: Setup, t: Tunnel, e: S.Event)
    requires Enabled(t, AtServer(e)) && S.RoutesLatest(t.server) && RepliesOk(t.server, t.heard)
    ensures RepliesOk(S.Step(setup.gate, t.server, e), Heard(t, e))
  {
    var s, u := t.server, S.Step(setup.gate, t.server, e);
    SendsGrow(setup.gate, s, e);
    if u.replies != s.replies {
      NewReply(setup.gate, s, e);
      assert s.sends[..|s.sends|] == s.sends;
      assert S.Tag(s.routes, e.from) == S.LatestSid(s.sends, e.from);
      assert ReplyFrom(u.sends, u.replies[|s.replies|], Heard(t, e)[|t.heard|]);
    }
    forall m | 0 <= m < |s.replies|
      ensures ReplyOk(u.sends, Heard(t, e), s.replies[m])
    {
      ReplyStays(s.sends, u.sends, t.heard, Heard(t, e), s.replies[m]);
    }
  }

  /** The datagram an application gets for what target `from` sent. */
  function AnswerFrom(from: Endpoint, data: seq<byte>): seq<byte> {
    ReplyFor(F.Frame(F.Literal(from).AddrType(), F.Literal(from).With(data)))
  }

  /** Session `sid` delivered what a target sent when `sid` had been the last to send there. */
  ghost predicate DeliveredFrom(sends: seq<S.Send>, sid: u16, packet: seq<byte>, w: Word) {
    w.sent <= |sends| && S.LatestSid(sends[..w.sent], w.from) == sid && packet == AnswerFrom(w.from, w.data)
  }

  ghost predicate DeliveryOk(sends: seq<S.Send>, heard: seq<Word>, sid: u16, packet: seq<byte>) {
    exists h :: 0 <= h < |heard| && DeliveredFrom(sends, sid, packet, heard[h])
  }

  ghost predicate DeliveriesOk(t: Tunnel) {
    forall i, m :: 0 <= i < |t.client.sessions| && 0 <= m < |t.client.sessions[i].relay.toApp| ==>
      DeliveryOk(t.server.sends, t.heard, t.client.sessions[i].sid, t.client.sessions[i].relay.toApp[m].1)
  }

  lemma DeliveryStays(sends: seq<S.Send>, more: seq<S.Send>, heard: seq<Word>, later: seq<Word>, sid: u16,
                      packet: seq<byte>)
    requires DeliveryOk(sends, heard, sid, packet) && sends <= more && heard <= later
    ensures DeliveryOk(more, later, sid, packet)
  {
    var h :| 0 <= h < |heard| && DeliveredFrom(sends, sid, packet, heard[h]);
    assert more[..heard[h].sent] == sends[..heard[h].sent];
    assert DeliveredFrom(more, sid, packet, later[h]);
  }

  /** What the relay parses from a reply record is what the target sent, or nothing. */
  lemma ReplyParses(from: Endpoint, data: seq<byte>)
    requires |data| <= 0xFFFF && F.Read(F.Generate(F.Literal(from), data)).Parsed?
    ensures F.Read(F.Generate(F.Literal(from), data)).frame
            == F.Frame(F.Literal(from).AddrType(), F.Literal(from).With(data))
  {
    if |F.Generate(F.Literal(from), data)| <= 0xFFFF {
      F.ReadGenerated(F.Literal(from), data);
    } else {
      F.ReadOverlong(F.Literal(from), data);
    }
  }

  lemma RecordDelivers(sends: seq<S.Send>, heard: seq<Word>, record: seq<byte>)
    requires ReplyOk(sends, heard, record) && |record| >= 2 && F.Read(record[2..]).Parsed?
    ensures DeliveryOk(sends, heard, GetU16(record, 0), ReplyFor(F.Read(record[2..]).frame))
  {
    var h :| 0 <= h < |heard| && ReplyFrom(sends, record, heard[h]);
    var w := heard[h];
    var sid := S.LatestSid(sends[..w.sent], w.from);
    assert record[2..] == F.Generate(F.Literal(w.from), w.data);
    assert GetU16(record, 0) == GetU16(PutU16(sid), 0) == sid;
    ReplyParses(w.from, w.data);
    assert DeliveredFrom(sends, sid, ReplyFor(F.Read(record[2..]).frame), heard[h]);
  }

  lemma ReceiveDeliveries(t: Tunnel, record: seq<byte>)
    requires C.RegistryOk(t.client) && DeliveriesOk(t) && ReplyOk(t.server.sends, t.heard, record)
    ensures DeliveriesOk(t.(client := C.OnRecord(t.client, record)))
  {
    var c, d := t.client, C.OnRecord(t.client, record);
    if d.sessions != c.sessions {
      RecordDelivers(t.server.sends, t.heard, record);
      var i := c.relays[GetU16(record, 0)];
      assert C.Owns(c, i, GetU16(record, 0));
      var before, after := c.sessions[i].relay.toApp, d.sessions[i].relay.toApp;
      assert after[..|before|] == before && after[|before|].1 == ReplyFor(F.Read(record[2..]).frame);
      assert d.sessions[i].sid == GetU16(record, 0);
      forall j, m | 0 <= j < |d.sessions| && 0 <= m < |d.sessions[j].relay.toApp|
        ensures DeliveryOk(t.server.sends, t.heard, d.sessions[j].sid, d.sessions[j].relay.toApp[m].1)
      {
        if j == i && m == |before| {
        } else {
          assert d.sessions[j].sid == c.sessions[j].sid;
          assert m < |c.sessions[j].relay.toApp| && d.sessions[j].relay.toApp[m] == c.sessions[j].relay.toApp[m];
        }
      }
    }
  }

  /** What holds of both ends together, whatever the password. */
  ghost predicate Inv(setup: Setup, t: Tunnel) {
    && C.Inv(setup.password, t.client)
    && S.RoutesLatest(t.server) && RepliesOk(t.server, t.heard) && DeliveriesOk(t)
  }

  lemma ServerStepKeeps(setup: Setup, t: Tunnel, e: S.Event)
    requires Inv(setup, t) && Enabled(t, AtServer(e))
    ensures Inv(setup, Step(setup, t, AtServer(e)))
  {
    ServerRepliesOk(setup, t, e);
    S.StepRoutes(setup.gate, t.server, e);
    SendsGrow(setup.gate, t.server, e);
    var sends, heard := S.Step(setup.gate, t.server, e).sends, Heard(t, e);
    forall i, m | 0 <= i < |t.client.sessions| && 0 <= m < |t.client.sessions[i].relay.toApp|
      ensures DeliveryOk(sends, heard, t.client.sessions[i].sid, t.client.sessions[i].relay.toApp[m].1)
    {
      DeliveryStays(t.server.sends, sends, t.heard, heard, t.client.sessions[i].sid,
                    t.client.sessions[i].relay.toApp[m].1);
    }
  }

  lemma ClientStepKeeps(setup: Setup, t: Tunnel, e: C.Event)
    requires Inv(setup, t) && Enabled(t, AtClient(e))
    ensures Inv(setup, Step(setup, t, AtClient(e)))
  {
    var c, d := t.client, C.Step(setup.password, t.client, e);
    C.StepKeeps(setup.password, c, e);
    C.StepExtends(setup.password, c, e);
    if e.Receives? && !c.threw {
      var m :| 0 <= m < |t.server.replies| && t.server.replies[m] == e.record;
      ReceiveDeliveries(t, e.record);
    } else {
      assert C.SameDeliveries(c, d);
    }
  }

  lemma ClientSendsAsked(setup: Setup, t: Tunnel, e: C.Event)
    requires SendsAsked(t) && Enabled(t, AtClient(e))
    ensures SendsAsked(Step(setup, t, AtClient(e)))
  {
    var c, d := t.client, C.Step(setup.password, t.client, e);
    C.StepExtends(setup.password, c, e);
    forall m | 0 <= m < |t.server.sends|
      ensures Asked(d, t.server.sends[m])
    {
      AskedStays(c, d, t.server.sends[m]);
    }
    forall r | r in t.server.resolving
      ensures Asked(d, OnceResolved(r, NOBODY))
    {
      AskedStays(c, d, OnceResolved(r, NOBODY));
    }
  }

  ghost predicate Legal(setup: Setup, evs: seq<Event>)
    decreases |evs|, 0
  {
    evs == [] || (Legal(setup, evs[..|evs| - 1]) && Enabled(After(setup, evs[..|evs| - 1]), evs[|evs| - 1]))
  }

  ghost function After(setup: Setup, evs: seq<Event>): Tunnel
    requires Legal(setup, evs)
    decreases |evs|, 1
  {
    if evs == [] then Initial(setup) else Step(setup, After(setup, evs[..|evs| - 1]), evs[|evs| - 1])
  }

  lemma {:induction false} EveryRunKeepsInv(setup: Setup, evs: seq<Event>)
    requires Legal(setup, evs)
    ensures Inv(setup, After(setup, evs))
  {
    if evs != [] {
      var t := After(setup, evs[..|evs| - 1]);
      EveryRunKeepsInv(setup, evs[..|evs| - 1]);
      match evs[|evs| - 1]
      case AtClient(e) => ClientStepKeeps(setup, t, e);
      case AtServer(e) => ServerStepKeeps(setup, t, e);
    }
  }

  lemma {:induction false} EveryRunIsSound(setup: Setup, evs: seq<Event>)
    requires Legal(setup, evs) && Harmless(setup.password)
    ensures SendsAsked(After(setup, evs))
  {
    if evs != [] {
      var front := evs[..|evs| - 1];
      var t := After(setup, front);
      EveryRunIsSound(setup, front);
      match evs[|evs| - 1]
      case AtClient(e) => ClientSendsAsked(setup, t, e);
      case AtServer(e) =>
        EveryRunKeepsInv(setup, front);
        ServerSendsAsked(setup, t, e);
    }
  }

  /**
   Over a network that loses, reorders and repeats: every datagram the server sends carries one that
   an application gave to a relay with that session id. A literal address, its port and its payload
   are the same; a datagram to a name goes to what that name, with its port, resolved to, without the
   first byte of its payload.
   */
  lemma SendsAreSound(setup: Setup, evs: seq<Event>, m: nat)
    requires Legal(setup, evs) && Harmless(setup.password)
    requires m < |After(setup, evs).server.sends|
    ensures Asked(After(setup, evs).client, After(setup, evs).server.sends[m])
  {
    EveryRunIsSound(setup, evs);
  }

  lemma RunNext(setup: Setup, evs: seq<Event>, ev: Event)
    requires Legal(setup, evs) && Enabled(After(setup, evs), ev)
    ensures Legal(setup, evs + [ev]) && After(setup, evs + [ev]) == Step(setup, After(setup, evs), ev)
  {
    var longer := evs + [ev];
    assert longer[..|longer| - 1] == evs;
  }

  ghost predicate SoundAfter(setup: Setup, evs: seq<Event>) {
    Legal(setup, evs) ==>
      forall m :: 0 <= m < |After(setup, evs).server.sends| ==>
        Asked(After(setup, evs).client, After(setup, evs).server.sends[m])
  }

  /** The server reads no record twice. */
  predicate ReadOnce(evs: seq<Event>) {
    forall j, k :: 0 <= j < k < |evs| && Reads(evs[j]) && Reads(evs[k]) ==> evs[j].s.read.data != evs[k].s.read.data
  }

  predicate Reads(ev: Event) {
    ev.AtServer? && ev.s.Datagram? && ev.s.read.Record?
  }

  const READY := AtClient(C.Handshakes(C.Completed, []))

  /** The client's handshake, and then `n` sessions. */
  function Opens(n: nat): (evs: seq<Event>)
    ensures forall k :: 0 <= k < |evs| ==> evs[k].AtClient?
  {
    if n == 0 then [READY] else Opens(n - 1) + [AtClient(C.Associates)]
  }

  /** `n` new sessions, and no more than the password line submitted. */
  ghost predicate Opened(password: seq<byte>, c: C.Client, n: nat) {
    && !c.threw && c.channel == C.Channel(true, true, true, [password + [LF]], [true])
    && |c.sessions| == n && C.IdsOk(c) && forall i :: 0 <= i < n ==> FreshAt(c, i)
  }

  ghost predicate FreshAt(c: C.Client, i: nat)
    requires i < |c.sessions|
  {
    c.sessions[i].alive && c.sessions[i].relay == C.FRESH
  }

  lemma OpensMore(password: seq<byte>, c: C.Client, n: nat)
    requires Opened(password, c, n)
    ensures Opened(password, C.Associate(c), n + 1)
  {
    var d := C.Associate(c);
    assert forall i :: 0 <= i < n ==> d.sessions[i] == c.sessions[i] && FreshAt(c, i);
  }

  ghost predicate JustOpened(setup: Setup, t: Tunnel, n: nat) {
    Opened(setup.password, t.client, n) && t.server == S.INITIAL && t.heard == []
  }

  lemma OpensFirst(setup: Setup)
    requires setup.usable
    ensures Legal(setup, Opens(0)) && JustOpened(setup, After(setup, Opens(0)), 0)
  {
    assert Legal(setup, []);
    RunNext(setup, [], READY);
    assert [] + [READY] == Opens(0);
  }

  lemma OpensNext(setup: Setup, evs: seq<Event>, n: nat)
    requires Legal(setup, evs) && JustOpened(setup, After(setup, evs), n)
    ensures Legal(setup, evs + [AtClient(C.Associates)])
    ensures JustOpened(setup, After(setup, evs + [AtClient(C.Associates)]), n + 1)
  {
    RunNext(setup, evs, AtClient(C.Associates));
    OpensMore(setup.password, After(setup, evs).client, n);
  }

  lemma {:induction false} OpensReaches(setup: Setup, n: nat)
    requires setup.usable
    ensures Legal(setup, Opens(n)) && JustOpened(setup, After(setup, Opens(n)), n)
  {
    if n == 0 {
      OpensFirst(setup);
    } else {
      OpensReaches(setup, n - 1);
      OpensNext(setup, Opens(n - 1), n - 1);
    }
  }

  /** Two texts that begin alike up to a newline have the same first line. */
  lemma SameFirstLine(a: seq<byte>, b: seq<byte>)
    requires |a| >= 4 && |b| >= 4 && a[..4] == b[..4] && a[3] == LF
    ensures S.NewlineAt(a) == S.NewlineAt(b) <= 3 && a[..S.NewlineAt(a)] == b[..S.NewlineAt(b)]
  {
    assert forall k :: 0 <= k < 4 ==> a[k] == a[..4][k] == b[..4][k] == b[k];
  }

  /** A datagram to a literal address if `kind` is the type of a name, and to a name otherwise. */
  function Decoy(kind: byte): (d: Datagram)
    ensures FrameOf(d).Some? && R.Read(d).Some? && R.Read(d).value.dst.rest != []
    ensures R.Read(d).value.addrType == R.ATYP_DOMAIN <==> kind != F.ADDR_DOMAIN
    ensures var f := FrameOf(d).value;
            |f| >= 5 && f[..2] == [CR, LF] && (f[4] == F.ADDR_DOMAIN <==> kind != F.ADDR_DOMAIN)
  {
    if kind == F.ADDR_DOMAIN then [0, 0, 0, R.ATYP_IPV4, 9, 9, 9, 9, 0, 53, 0x21]
    else [0, 0, 0, R.ATYP_DOMAIN, 1, 0x61, 0, 53, 0x21]
  }

  /** What the frame parser does not reject begins with the magic number and an address type. */
  lemma NotRejected(data: seq<byte>)
    requires !F.Read(data).Rejected?
    ensures |data| >= 5 && data[..2] == [CR, LF]
    ensures F.Read(data).Parsed? ==> F.Read(data).frame.addrType == data[4]
    ensures F.Read(data).LengthError? ==> data[4] == F.ADDR_DOMAIN
  {
  }

  /** How many sessions it takes until one has this id. */
  function Needed(sid: u16): (n: nat)
    ensures n > 0 && n % 0x1_0000 == sid
  {
    if sid == 0 then 0x1_0000 else sid
  }

  /** The session submits the frame; it is the only one that saw anything, and it saw one datagram. */
  lemma OneSubmitted(password: seq<byte>, c: C.Client, n: nat, app: Endpoint, datagram: Datagram)
    requires Opened(password, c, n) && n > 0 && FrameOf(datagram).Some?
    ensures var d := C.Step(password, c, C.Local(n - 1, app, datagram));
            && d.channel.submitted == [password + [LF], C.Tagged(n % 0x1_0000, FrameOf(datagram).value)]
            && |d.sessions| == n && forall i :: 0 <= i < n ==> OnlySaw(d, i, app, datagram)
  {
    assert FreshAt(c, n - 1);
    var relay := C.Remember(C.FRESH, app, datagram);
    assert relay.seen == [Seen.Asked(app, datagram)];
    OneHandled(password, c, n, app, datagram, relay, FrameOf(datagram).value);
  }

  lemma OneHandled(password: seq<byte>, c: C.Client, n: nat, app: Endpoint, datagram: Datagram, relay: C.Relay,
                   frame: seq<byte>)
    requires Opened(password, c, n) && n > 0 && relay.seen == [Seen.Asked(app, datagram)]
    ensures var d := C.Handle(c, n - 1, relay, Some(frame));
            && d.channel.submitted == [password + [LF], C.Tagged(n % 0x1_0000, frame)]
            && |d.sessions| == n && forall i :: 0 <= i < n ==> OnlySaw(d, i, app, datagram)
  {
    var d := C.Handle(c, n - 1, relay, Some(frame));
    assert d.channel.submitted == c.channel.submitted + [C.Tagged(n % 0x1_0000, frame)];
    forall i | 0 <= i < n
      ensures OnlySaw(d, i, app, datagram)
    {
      assert FreshAt(c, i);
    }
  }

  ghost predicate OnlySaw(c: C.Client, i: nat, app: Endpoint, datagram: Datagram)
    requires i < |c.sessions|
  {
    forall k :: 0 <= k < |c.sessions[i].relay.seen| ==> c.sessions[i].relay.seen[k] == Seen.Asked(app, datagram)
  }

  /** A record whose first line passes the gate opens the session. */
  lemma FrameAccepted(gate: S.Gate, record: seq<byte>)
    requires S.NewlineAt(record) < |record| && gate(record[..S.NewlineAt(record)])
    ensures var s := S.Step(gate, S.INITIAL, S.Datagram(S.Accepted, S.Record(record), None));
            s == S.INITIAL.(phase := S.Proxy, authBuf := record)
  {
  }

  /** The last of `n` sessions gets one datagram; the server reads the record `first` and then the record `second`. */
  function Asking(n: nat, app: Endpoint, datagram: Datagram, first: seq<byte>, second: seq<byte>, resolved: Endpoint)
    : seq<Event>
    requires n > 0
  {
    Opens(n) + [AtClient(C.Local(n - 1, app, datagram))]
    + [AtServer(S.Datagram(S.Accepted, S.Record(first), None))]
    + [AtServer(S.Datagram(S.AcceptWantsRead, S.Record(second), Some(resolved)))]
  }

  /** The last of `n` sessions submits one frame, and the server has read nothing yet. */
  lemma AskedRun(setup: Setup, n: nat, app: Endpoint, datagram: Datagram, record: seq<byte>)
    requires setup.usable && n > 0
    requires FrameOf(datagram) != None && record == C.Tagged(n % 0x1_0000, FrameOf(datagram).value)
    ensures var evs := Opens(n) + [AtClient(C.Local(n - 1, app, datagram))];
            && Legal(setup, evs)
            && var t := After(setup, evs);
               && t.server == S.INITIAL && t.client.channel.submitted == [setup.password + [LF], record]
               && |t.client.sessions| == n && forall i :: 0 <= i < n ==> OnlySaw(t.client, i, app, datagram)
  {
    OpensReaches(setup, n);
    OneSubmitted(setup.password, After(setup, Opens(n)).client, n, app, datagram);
    RunNext(setup, Opens(n), AtClient(C.Local(n - 1, app, datagram)));
  }

  /** The server, new to this client, reads a record that passes the gate and then another one. */
  lemma TwoReads(setup: Setup, evs: seq<Event>, first: seq<byte>, second: seq<byte>, resolved: Endpoint)
    requires Legal(setup, evs) && After(setup, evs).server == S.INITIAL
    requires first in After(setup, evs).client.channel.submitted && second in After(setup, evs).client.channel.submitted
    requires S.NewlineAt(first) < |first| && setup.gate(first[..S.NewlineAt(first)])
    ensures var both := evs + [AtServer(S.Datagram(S.Accepted, S.Record(first), None))]
                         + [AtServer(S.Datagram(S.AcceptWantsRead, S.Record(second), Some(resolved)))];
            && Legal(setup, both)
            && After(setup, both).client == After(setup, evs).client
            && After(setup, both).server
               == S.OnProxyRecord(S.INITIAL.(phase := S.Proxy, authBuf := first), second, Some(resolved))
  {
    var one := AtServer(S.Datagram(S.Accepted, S.Record(first), None));
    FrameAccepted(setup.gate, first);
    RunNext(setup, evs, one);
    RunNext(setup, evs + [one], AtServer(S.Datagram(S.AcceptWantsRead, S.Record(second), Some(resolved))));
  }

  lemma AskingRun(setup: Setup, n: nat, app: Endpoint, datagram: Datagram, record: seq<byte>,
                  first: seq<byte>, second: seq<byte>, resolved: Endpoint)
    requires setup.usable && n > 0
    requires FrameOf(datagram) != None && record == C.Tagged(n % 0x1_0000, FrameOf(datagram).value)
    requires first in [setup.password + [LF], record] && second in [setup.password + [LF], record]
    requires S.NewlineAt(first) < |first| && setup.gate(first[..S.NewlineAt(first)])
    ensures Legal(setup, Asking(n, app, datagram, first, second, resolved))
    ensures var t := After(setup, Asking(n, app, datagram, first, second, resolved));
            && |t.client.sessions| == n && (forall i :: 0 <= i < n ==> OnlySaw(t.client, i, app, datagram))
            && t.server == S.OnProxyRecord(S.INITIAL.(phase := S.Proxy, authBuf := first), second, Some(resolved))
  {
    AskedRun(setup, n, app, datagram, record);
    TwoReads(setup, Opens(n) + [AtClient(C.Local(n - 1, app, datagram))], first, second, resolved);
  }

  lemma AskingReadOnce(n: nat, app: Endpoint, datagram: Datagram, first: seq<byte>, second: seq<byte>,
                       resolved: Endpoint)
    requires n > 0 && first != second
    ensures ReadOnce(Asking(n, app, datagram, first, second, resolved))
  {
    assert forall k :: 0 <= k < |Opens(n)| ==> Asking(n, app, datagram, first, second, resolved)[k] == Opens(n)[k];
  }

  /** The record of the decoy that has the line's first two bytes. */
  function DecoyRecord(line: seq<byte>): seq<byte>
    requires |line| >= 7
  {
    C.Tagged(GetU16(line, 0), FrameOf(Decoy(line[6])).value)
  }

  /** What the line and the record that overtakes it have in common, and what not. */
  lemma LineAndDecoy(line: seq<byte>)
    requires |line| >= 7 && line[2..4] == [CR, LF]
    ensures var record := DecoyRecord(line);
            && S.NewlineAt(record) < |record| && S.NewlineAt(line) < |line|
            && record[..S.NewlineAt(record)] == line[..S.NewlineAt(line)]
            && record != line
  {
    var record, carried := DecoyRecord(line), FrameOf(Decoy(line[6])).value;
    PutGetU16(line, 0);
    assert line[..4] == line[..2] + line[2..4];
    assert record[..4] == PutU16(GetU16(line, 0)) + carried[..2];
    assert line[3] == line[2..4][1];
    SameFirstLine(line, record);
    assert record[6] == carried[4];
  }

  /** The run in which the decoy overtakes the line, and then the line is read as a frame. */
  function Overtaken(line: seq<byte>, app: Endpoint, resolved: Endpoint): seq<Event>
    requires |line| >= 7
  {
    Asking(Needed(GetU16(line, 0)), app, Decoy(line[6]), DecoyRecord(line), line, resolved)
  }

  lemma OvertakenRun(setup: Setup, app: Endpoint, resolved: Endpoint)
    requires setup.usable
    requires var line := setup.password + [LF]; setup.gate(line[..S.NewlineAt(line)])
    requires |setup.password| >= 1 && !F.Read((setup.password + [LF])[2..]).Rejected?
    ensures var line := setup.password + [LF];
            && |line| >= 7 && Legal(setup, Overtaken(line, app, resolved)) && ReadOnce(Overtaken(line, app, resolved))
            && var t := After(setup, Overtaken(line, app, resolved));
               && (forall i :: 0 <= i < |t.client.sessions| ==> OnlySaw(t.client, i, app, Decoy(line[6])))
               && exists s: S.Server :: s.sends == [] && !s.threw
                    && t.server == S.OnFrame(s, GetU16(line, 0), F.Read(line[2..]), Some(resolved))
  {
    var line := setup.password + [LF];
    NotRejected(line[2..]);
    assert line[2..4] == line[2..][..2];
    LineAndDecoy(line);
    var n, record := Needed(GetU16(line, 0)), DecoyRecord(line);
    AskingRun(setup, n, app, Decoy(line[6]), record, record, line, resolved);
    AskingReadOnce(n, app, Decoy(line[6]), record, line, resolved);
    var s := S.INITIAL.(phase := S.Proxy, authBuf := record);
    assert s.sends == [] && !s.threw;
  }

  /**
   A password line that parses as a frame makes the server send what nobody asked for, although every
   record is read once: a frame that overtakes the line is taken for it, and then the line for a frame.
   */
  lemma LineTakenForFrame(setup: Setup, app: Endpoint, resolved: Endpoint)
    requires setup.usable && !Harmless(setup.password)
    requires var line := setup.password + [LF]; setup.gate(line[..S.NewlineAt(line)])
    ensures var line := setup.password + [LF];
            && |line| >= 7 && Legal(setup, Overtaken(line, app, resolved)) && ReadOnce(Overtaken(line, app, resolved))
            && !SoundAfter(setup, Overtaken(line, app, resolved))
  {
    var line := setup.password + [LF];
    OvertakenRun(setup, app, resolved);
    NotRejected(line[2..]);
    assert line[6] == line[2..][4];
    var evs := Overtaken(line, app, resolved);
    var t := After(setup, evs);
    assert |t.server.sends| == 1 && t.server.sends[0].name == NameIn(F.Read(line[2..]).frame);
    NotAsked(t.client, app, Decoy(line[6]), t.server.sends[0]);
    assert !SoundAfter(setup, evs);
  }

  lemma NotAsked(c: C.Client, app: Endpoint, datagram: Datagram, send: S.Send)
    requires forall i :: 0 <= i < |c.sessions| ==> OnlySaw(c, i, app, datagram)
    requires R.Read(datagram).Some? && (send.name.None? <==> R.Read(datagram).value.addrType == R.ATYP_DOMAIN)
    ensures !Asked(c, send)
  {
    forall i, k | 0 <= i < |c.sessions| && 0 <= k < |c.sessions[i].relay.seen|
      ensures !AskedAt(c, send, i, k)
    {
      assert OnlySaw(c, i, app, datagram);
    }
  }

  /**
   For a password that the server accepts, soundness in every run holds exactly if the password line
   does not parse as a frame; and it makes no difference if no record is ever read twice.
   */
  lemma SoundIffHarmless(setup: Setup)
    requires setup.usable
    requires var line := setup.password + [LF]; setup.gate(line[..S.NewlineAt(line)])
    ensures (forall evs :: SoundAfter(setup, evs)) <==> Harmless(setup.password)
    ensures (forall evs :: ReadOnce(evs) ==> SoundAfter(setup, evs)) <==> Harmless(setup.password)
  {
    if Harmless(setup.password) {
      forall evs
        ensures SoundAfter(setup, evs)
      {
        if Legal(setup, evs) {
          EveryRunIsSound(setup, evs);
        }
      }
    } else {
      LineTakenForFrame(setup, NOBODY, NOBODY);
    }
  }

  lemma {:induction false} LatestWasSent(sends: seq<S.Send>, ep: Endpoint)
    requires S.LatestSid(sends, ep) != 0
    ensures exists k :: 0 <= k < |sends| && sends[k].ep == ep && sends[k].sid == S.LatestSid(sends, ep)
  {
    var n := |sends| - 1;
    if sends[n].ep == ep && sends[n].sid != 0 {
    } else {
      LatestWasSent(sends[..n], ep);
      var k :| 0 <= k < n && sends[..n][k].ep == ep && sends[..n][k].sid == S.LatestSid(sends[..n], ep);
      assert sends[k].ep == ep;
    }
  }

  /** What the tunnel heard is what targets sent in this run, each when that many sends had been made. */
  lemma {:induction false} HeardHappened(setup: Setup, evs: seq<Event>, h: nat)
    requires Legal(setup, evs) && h < |After(setup, evs).heard|
    ensures exists j :: 0 <= j < |evs| && HeardAt(setup, evs, j, After(setup, evs).heard[h])
  {
    var n := |evs| - 1;
    var front, w := evs[..n], After(setup, evs).heard[h];
    if h < |After(setup, front).heard| {
      HeardHappened(setup, front, h);
      var j :| 0 <= j < n && HeardAt(setup, front, j, w);
      assert front[..j] == evs[..j];
      assert HeardAt(setup, evs, j, w);
    } else {
      assert HeardAt(setup, evs, n, w);
    }
  }

  ghost predicate HeardAt(setup: Setup, evs: seq<Event>, j: nat, w: Word)
    requires j < |evs|
  {
    && evs[j] == AtServer(S.FromTarget(w.from, w.data))
    && Legal(setup, evs[..j]) && |After(setup, evs[..j]).server.sends| == w.sent
  }

  /** The packet is what the target sent, and before that the server had sent to this target under `sid`. */
  ghost predicate Solicited(sends: seq<S.Send>, sid: u16, packet: seq<byte>, w: Word) {
    && packet == AnswerFrom(w.from, w.data)
    && exists k :: 0 <= k < w.sent && k < |sends| && sends[k].sid == sid && sends[k].ep == w.from
  }

  /** The `m`-th datagram that session `i` handed to an application is what a target sent, and was asked for. */
  ghost predicate AnswerAt(setup: Setup, evs: seq<Event>, i: nat, m: nat)
    requires Legal(setup, evs)
    requires i < |After(setup, evs).client.sessions| && m < |After(setup, evs).client.sessions[i].relay.toApp|
  {
    var t := After(setup, evs);
    exists j, w :: 0 <= j < |evs| && HeardAt(setup, evs, j, w)
      && Solicited(t.server.sends, t.client.sessions[i].sid, t.client.sessions[i].relay.toApp[m].1, w)
  }

  /**
   Every datagram a relay hands to an application is an answer: it carries what a target sent in this
   run, and before that the server had sent to that target under this relay's own session id. The
   relay whose id wrapped to zero is excepted.
   */
  lemma AnswersAreSolicited(setup: Setup, evs: seq<Event>, i: nat, m: nat)
    requires Legal(setup, evs)
    requires i < |After(setup, evs).client.sessions| && m < |After(setup, evs).client.sessions[i].relay.toApp|
    requires After(setup, evs).client.sessions[i].sid != 0
    ensures AnswerAt(setup, evs, i, m)
  {
    EveryRunKeepsInv(setup, evs);
    var t := After(setup, evs);
    var sends, sid, packet := t.server.sends, t.client.sessions[i].sid, t.client.sessions[i].relay.toApp[m].1;
    assert DeliveryOk(sends, t.heard, sid, packet);
    var h :| 0 <= h < |t.heard| && DeliveredFrom(sends, sid, packet, t.heard[h]);
    var w := t.heard[h];
    LatestWasSent(sends[..w.sent], w.from);
    var k :| 0 <= k < w.sent && sends[..w.sent][k].ep == w.from && sends[..w.sent][k].sid == sid;
    assert sends[k].sid == sid && sends[k].ep == w.from;
    HeardHappened(setup, evs, h);
    var j :| 0 <= j < |evs| && HeardAt(setup, evs, j, w);
    assert Solicited(sends, sid, packet, w);
  }

  /** In this run, every datagram that session `i` handed to an application was asked for. */
  ghost predicate SolicitedAfter(setup: Setup, evs: seq<Event>, i: nat) {
    Legal(setup, evs) && i < |After(setup, evs).client.sessions| ==>
      forall m :: 0 <= m < |After(setup, evs).client.sessions[i].relay.toApp| ==> AnswerAt(setup, evs, i, m)
  }

  /** A datagram from a target that nobody has sent to, and its way to the client. */
  function Stray(n: nat, line: seq<byte>, from: Endpoint, data: seq<byte>): seq<Event> {
    Opens(n) + [AtServer(S.Datagram(S.Accepted, S.Record(line), None))]
    + [AtServer(S.FromTarget(from, data))] + [AtClient(C.Receives(S.ReplyRecord(0, from, data)))]
  }

  /** The server tags a datagram from an unknown sender with 0, and the latest session may have that id. */
  lemma StrayDelivered(setup: Setup, n: nat, from: Endpoint, data: seq<byte>)
    requires setup.usable && n > 0 && n % 0x1_0000 == 0 && |F.Generate(F.Literal(from), data)| <= 0xFFFF
    requires var line := setup.password + [LF]; setup.gate(line[..S.NewlineAt(line)])
    ensures Legal(setup, Stray(n, setup.password + [LF], from, data))
    ensures var t := After(setup, Stray(n, setup.password + [LF], from, data));
            && |t.client.sessions| == n && |t.client.sessions[n - 1].relay.toApp| == 1
            && t.client.sessions[n - 1].relay.toApp[0].1 == AnswerFrom(from, data) && t.server.sends == []
  {
    var line := setup.password + [LF];
    var first, second := AtServer(S.Datagram(S.Accepted, S.Record(line), None)), AtServer(S.FromTarget(from, data));
    OpensReaches(setup, n);
    LatestRegistered(setup, n);
    var c := After(setup, Opens(n)).client;
    assert line[|line| - 1] == LF;
    FrameAccepted(setup.gate, line);
    RunNext(setup, Opens(n), first);
    RunNext(setup, Opens(n) + [first], second);
    RunNext(setup, Opens(n) + [first] + [second], AtClient(C.Receives(S.ReplyRecord(0, from, data))));
    ZeroDelivers(setup.password, c, n, from, data);
  }

  lemma LatestRegistered(setup: Setup, n: nat)
    requires setup.usable && n > 0 && Legal(setup, Opens(n))
    ensures var c := After(setup, Opens(n)).client; n % 0x1_0000 in c.relays && c.relays[n % 0x1_0000] == n - 1
  {
    OpensReaches(setup, n - 1);
    RunNext(setup, Opens(n - 1), AtClient(C.Associates));
  }

  lemma ZeroDelivers(password: seq<byte>, c: C.Client, n: nat, from: Endpoint, data: seq<byte>)
    requires Opened(password, c, n) && n > 0 && 0 in c.relays && c.relays[0] == n - 1
    requires |F.Generate(F.Literal(from), data)| <= 0xFFFF
    ensures var d := C.Step(password, c, C.Receives(S.ReplyRecord(0, from, data)));
            && |d.sessions| == n && |d.sessions[n - 1].relay.toApp| == 1
            && d.sessions[n - 1].relay.toApp[0].1 == AnswerFrom(from, data)
  {
    var record := S.ReplyRecord(0, from, data);
    F.ReadGenerated(F.Literal(from), data);
    assert GetU16(record, 0) == GetU16(PutU16(0), 0);
    assert record[2..] == F.Generate(F.Literal(from), data);
    assert FreshAt(c, n - 1);
  }

  /**
   For a password that the server accepts: in every run all datagrams that session `i` hands to an
   application were asked for, if and only if the session's id did not wrap to zero.
   */
  lemma SolicitedIff(setup: Setup, i: nat)
    requires setup.usable
    requires var line := setup.password + [LF]; setup.gate(line[..S.NewlineAt(line)])
    ensures (forall evs :: SolicitedAfter(setup, evs, i)) <==> (i + 1) % 0x1_0000 != 0
  {
    if (i + 1) % 0x1_0000 != 0 {
      forall evs
        ensures SolicitedAfter(setup, evs, i)
      {
        if Legal(setup, evs) && i < |After(setup, evs).client.sessions| {
          EveryRunKeepsInv(setup, evs);
          assert After(setup, evs).client.sessions[i].sid == (i + 1) % 0x1_0000;
          forall m | 0 <= m < |After(setup, evs).client.sessions[i].relay.toApp|
            ensures AnswerAt(setup, evs, i, m)
          {
            AnswersAreSolicited(setup, evs, i, m);
          }
        }
      }
    } else {
      var evs := Stray(i + 1, setup.password + [LF], NOBODY, []);
      StrayDelivered(setup, i + 1, NOBODY, []);
      assert !AnswerAt(setup, evs, i, 0);
      assert !SolicitedAfter(setup, evs, i);
    }
  }

  /**
   A delivered record reaches a session with its id, once. There it goes to whoever asked last under
   the address bytes and the port in its frame, or else to whoever spoke last. For a frame from an
   endpoint that was asked for, that is the one who asked for it last if and only if nobody else
   asked later for a host whose name has the bytes of that address.
   */
  lemma AnswerReachesAsker(setup: Setup, evs: seq<Event>, record: seq<byte>, i: nat)
    requires Legal(setup, evs)
    requires var c := After(setup, evs).client;
             i < |c.sessions| && C.OnRecord(c, record).sessions[i] != c.sessions[i]
    ensures var c := After(setup, evs).client;
            DeliversOnce(c.sessions[i], record, C.OnRecord(c, record).sessions[i])
  {
    EveryRunKeepsInv(setup, evs);
    var c := After(setup, evs).client;
    C.OnlyOwnerTouched(c, record, i);
    var s := c.sessions[i];
    assert C.RelayOk(s, C.Sent(c, i));
    var f := F.Read(record[2..]).frame;
    AnswerGoesTo(s.relay.seen, f.dst);
    if f.addrType != F.ADDR_DOMAIN {
      AnswerGoesToAsker(s.relay.seen, F.FrameEndpoint(f), f.dst.rest);
    }
  }

  ghost predicate DeliversOnce(s: C.Session, record: seq<byte>, d: C.Session) {
    && |record| >= 2 && s.sid == GetU16(record, 0) && F.Read(record[2..]).Parsed?
    && |d.relay.toApp| == |s.relay.toApp| + 1 && d.relay.toApp[..|s.relay.toApp|] == s.relay.toApp
    && var f, (app, packet) := F.Read(record[2..]).frame, d.relay.toApp[|s.relay.toApp|];
       && packet == ReplyFor(f) && GoesTo(s.relay.seen, f, app)
  }

  /** The right application endpoint for a frame from the server, after what the relay saw. */
  ghost predicate GoesTo(h: seq<Seen>, f: F.Frame, app: Endpoint)
    requires F.ValidFrame(f)
  {
    && app == (match Asker(h, f.dst.addr, f.dst.port) case Some(asker) => asker case None => LastSpeaker(h))
    && (f.addrType != F.ADDR_DOMAIN ==>
          var ep := F.FrameEndpoint(f);
          && (LiteralAsker(h, ep).Some? ==>
                (app == LiteralAsker(h, ep).value <==> Shadow(h, ep).None? || Shadow(h, ep) == LiteralAsker(h, ep)))
          && (LiteralAsker(h, ep).None? && Shadow(h, ep).None? ==> app == LastSpeaker(h)))
  }

  /** Nothing the server sends makes the client's frame parser throw. */
  lemma ReplyDoesNotThrow(sends: seq<S.Send>, heard: seq<Word>, record: seq<byte>)
    requires ReplyOk(sends, heard, record) && |record| >= 2
    ensures !F.Read(record[2..]).LengthError?
  {
    var h :| 0 <= h < |heard| && ReplyFrom(sends, record, heard[h]);
    var d, data := F.Literal(heard[h].from), heard[h].data;
    assert record[2..] == F.Generate(d, data);
    if |F.Generate(d, data)| <= 0xFFFF {
      F.ReadGenerated(d, data);
    } else {
      F.ReadOverlong(d, data);
    }
  }

  lemma ClientStepSurvives(setup: Setup, t: Tunnel, e: C.Event)
    requires Inv(setup, t) && Enabled(t, AtClient(e)) && !t.client.threw
    ensures !C.Step(setup.password, t.client, e).threw
  {
    if e.Receives? {
      var m :| 0 <= m < |t.server.replies| && t.server.replies[m] == e.record;
      if |e.record| >= 2 {
        ReplyDoesNotThrow(t.server.sends, t.heard, e.record);
      }
      C.RecordThrowsIff(setup.password, t.client, e.record);
    } else {
      C.ThrowsOnlyOnRecord(setup.password, t.client, e);
    }
  }

  /** In every run the client's event loop survives. */
  lemma {:induction false} ClientNeverThrows(setup: Setup, evs: seq<Event>)
    requires Legal(setup, evs)
    ensures !After(setup, evs).client.threw
  {
    if evs != [] {
      var front := evs[..|evs| - 1];
      ClientNeverThrows(setup, front);
      EveryRunKeepsInv(setup, front);
      match evs[|evs| - 1]
      case AtClient(e) => ClientStepSurvives(setup, After(setup, front), e);
      case AtServer(_) =>
    }
  }

  /** A datagram to a name, with no payload. */
  predicate EmptyToName(seen: Seen) {
    ByName(seen) && R.Read(seen.datagram).value.dst.rest == []
  }

  ghost predicate SawEmptyToName(c: C.Client) {
    exists i, k :: 0 <= i < |c.sessions| && 0 <= k < |c.sessions[i].relay.seen|
                   && EmptyToName(c.sessions[i].relay.seen[k])
  }

  /** The password line, should it be read after authentication, does not make the frame parser throw. */
  predicate Calm(password: seq<byte>) {
    |password| >= 1 ==> !F.Read((password + [LF])[2..]).LengthError?
  }

  /** The frame of a datagram makes the server's parser throw exactly if the datagram is an empty one to a name. */
  lemma FrameThrows(seen: Seen)
    requires seen.Asked? && FrameOf(seen.datagram).Some?
    ensures F.Read(FrameOf(seen.datagram).value).LengthError? <==> EmptyToName(seen)
  {
    R.ReadThenSerialize(seen.datagram);
    if ByName(seen) {
      NamedDatagramCarried(seen.datagram);
    } else {
      LiteralDatagramCarried(seen.datagram);
    }
  }

  lemma RecordThrows(password: seq<byte>, c: C.Client, record: seq<byte>)
    requires C.Inv(password, c) && Calm(password) && record in c.channel.submitted
    requires |record| >= 2 && F.Read(record[2..]).LengthError?
    ensures SawEmptyToName(c)
  {
    assert record != password + [LF];
    var at :| 0 <= at < |c.channel.submitted| && c.channel.submitted[at] == record;
    RecordWasAsked(password, c, at);
    var i, k :| 0 <= i < |c.sessions| && 0 <= k < |c.sessions[i].relay.seen| && MadeAt(c, record, i, k);
    FrameThrows(c.sessions[i].relay.seen[k]);
  }

  /** In every run the server's event loop ends only over an empty datagram to a name, unless over the password line. */
  lemma {:induction false} ServerThrowsOnlyOnEmpty(setup: Setup, evs: seq<Event>)
    requires Legal(setup, evs) && Calm(setup.password) && After(setup, evs).server.threw
    ensures SawEmptyToName(After(setup, evs).client)
  {
    var front, ev := evs[..|evs| - 1], evs[|evs| - 1];
    var t, u := After(setup, front), After(setup, evs);
    if t.server.threw {
      ServerThrowsOnlyOnEmpty(setup, front);
      if ev.AtClient? {
        C.StepExtends(setup.password, t.client, ev.c);
        var i, k :| 0 <= i < |t.client.sessions| && 0 <= k < |t.client.sessions[i].relay.seen|
                    && EmptyToName(t.client.sessions[i].relay.seen[k]);
        assert u.client.sessions[i].relay.seen[k] == t.client.sessions[i].relay.seen[k];
      }
    } else {
      EveryRunKeepsInv(setup, front);
      S.ThrowsIff(setup.gate, t.server, ev.s);
      RecordThrows(setup.password, t.client, ev.s.read.data);
    }
  }

  /** Any empty datagram to any name, from any application, ends the server's event loop. */
  lemma EmptyToNameThrows(setup: Setup, app: Endpoint, datagram: Datagram)
    requires setup.usable && EmptyToName(Seen.Asked(app, datagram))
    requires var line := setup.password + [LF]; setup.gate(line[..S.NewlineAt(line)])
    ensures var line, record := setup.password + [LF], C.Tagged(1, FrameOf(datagram).value);
            var evs := Asking(1, app, datagram, line, record, NOBODY);
            Legal(setup, evs) && After(setup, evs).server.threw
  {
    var line, frame := setup.password + [LF], FrameOf(datagram).value;
    var record := C.Tagged(1, frame);
    assert line[|line| - 1] == LF;
    FrameThrows(Seen.Asked(app, datagram));
    assert record[2..] == frame;
    AskingRun(setup, 1, app, datagram, record, line, record, NOBODY);
  }

  /** In this run, the server's event loop ended only if an application sent an empty datagram to a name. */
  ghost predicate CalmAfter(setup: Setup, evs: seq<Event>) {
    Legal(setup, evs) && After(setup, evs).server.threw ==> SawEmptyToName(After(setup, evs).client)
  }

  /** For a password that the server accepts, that is so in every run exactly if the password line is calm. */
  lemma CalmIff(setup: Setup)
    requires setup.usable
    requires var line := setup.password + [LF]; setup.gate(line[..S.NewlineAt(line)])
    ensures (forall evs :: CalmAfter(setup, evs)) <==> Calm(setup.password)
  {
    if Calm(setup.password) {
      forall evs
        ensures CalmAfter(setup, evs)
      {
        if Legal(setup, evs) && After(setup, evs).server.threw {
          ServerThrowsOnlyOnEmpty(setup, evs);
        }
      }
    } else {
      var line := setup.password + [LF];
      OvertakenRun(setup, NOBODY, NOBODY);
      var evs := Overtaken(line, NOBODY, NOBODY);
      var c := After(setup, evs).client;
      forall i, k | 0 <= i < |c.sessions| && 0 <= k < |c.sessions[i].relay.seen|
        ensures !EmptyToName(c.sessions[i].relay.seen[k])
      {
        assert OnlySaw(c, i, NOBODY, Decoy(line[6]));
      }
      assert !CalmAfter(setup, evs);
    }
  }
}
