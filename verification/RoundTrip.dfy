/**
 What an open UDP tunnel does for a live session, in every run: a datagram an application sends is
 sent to its target, and what the target answers comes back to that application. The other theorems
 about the tunnel say what it never does; these say what it does.
 */
module RoundTrips {
  import opened Bytes
  import opened UdpRelays
  import opened DatagramTunnel
  import C = ClientUdp
  import S = DtlsServer
  import R = UdpRequest
  import F = UdpFrame

  /** The server forwards. */
  predicate Open(t: Tunnel) {
    t.server.phase == S.Proxy && !t.server.threw
  }

  /** Session `i` lives, and no other session has its id. */
  predicate Serves(t: Tunnel, i: nat) {
    i < |t.client.sessions| && t.client.sessions[i].alive && C.Alone(t.client, i)
  }

  /** A server that forwards has read a record, so the client's channel is ready. */
  lemma {:induction false} OpenIsReady(setup: Setup, evs: seq<Event>)
    requires Legal(setup, evs) && After(setup, evs).server.phase == S.Proxy
    ensures After(setup, evs).client.channel.done
  {
    var front, ev := evs[..|evs| - 1], evs[|evs| - 1];
    var t := After(setup, front);
    EveryRunKeepsInv(setup, front);
    match ev
    case AtClient(e) =>
      OpenIsReady(setup, front);
      C.ReadyStep(setup.password, t.client, e);
    case AtServer(e) =>
      S.PhaseStep(setup.gate, t.server, e);
      if t.server.phase == S.Proxy {
        OpenIsReady(setup, front);
      }
  }

  /**
   In every run, a record is handed to a session that shares its id with no other exactly if the
   channel is ready, the session is alive, and the record carries its id and a frame that parses.
   Then one datagram goes to the right application, and no other session is touched.
   */
  lemma ReplyDelivered(setup: Setup, evs: seq<Event>, record: seq<byte>, i: nat)
    requires Legal(setup, evs)
    requires var c := After(setup, evs).client; i < |c.sessions| && C.Alone(c, i)
    ensures var c := After(setup, evs).client;
            var d := C.Step(setup.password, c, C.Receives(record));
            && |d.sessions| == |c.sessions| && (d.sessions[i] != c.sessions[i] <==> C.Reaches(c, record, i))
            && (C.Reaches(c, record, i) ==>
                  && DeliversOnce(c.sessions[i], record, d.sessions[i])
                  && forall j :: 0 <= j < |c.sessions| && j != i ==> d.sessions[j] == c.sessions[j])
  {
    ClientNeverThrows(setup, evs);
    EveryRunKeepsInv(setup, evs);
    C.ReachedIff(setup.password, After(setup, evs).client, record, i);
    if C.Reaches(After(setup, evs).client, record, i) {
      AnswerReachesAsker(setup, evs, record, i);
    }
  }

  /** What a step at the client keeps of session `i`, and what it may add to the log of what it saw. */
  ghost predicate SameSession(t: Tunnel, u: Tunnel, i: nat)
    requires i < |t.client.sessions|
  {
    && |u.client.sessions| == |t.client.sessions|
    && var s, d := t.client.sessions[i], u.client.sessions[i];
       d.sid == s.sid && d.alive == s.alive && d.relay.toApp == s.relay.toApp
  }

  /** Session `i` has seen a datagram, and the server has made one send of it; the tunnel is still open. */
  ghost predicate Carried(t: Tunnel, u: Tunnel, i: nat, seen: Seen, send: S.Send)
    requires i < |t.client.sessions|
  {
    && Open(u) && SameSession(t, u, i)
    && u.client.sessions[i].relay.seen == t.client.sessions[i].relay.seen + [seen]
    && u.server.sends == t.server.sends + [send]
  }

  lemma OneByOne(evs: seq<Event>, a: Event, b: Event, c: Event)
    ensures evs + ([a] + [b]) == evs + [a] + [b] && evs + ([a] + [b] + [c]) == evs + [a] + [b] + [c]
  {
  }

  lemma HandledAt(ch: C.Channel, c: C.Client, i: nat, relay: C.Relay, frame: seq<byte>)
    requires i < |c.sessions| && c.channel == ch && ch.usable && ch.done && ch.running
    ensures var d := C.Handle(c, i, relay, Some(frame));
            && d.channel.submitted == ch.submitted + [C.Tagged(c.sessions[i].sid, frame)]
            && d.sessions == c.sessions[i := c.sessions[i].(relay := relay)]
  {
  }

  /** A datagram that arrives at a live session of an open tunnel is submitted at once, as a record with its id. */
  lemma AskSubmits(setup: Setup, evs: seq<Event>, i: nat, app: Endpoint, datagram: Datagram, frame: seq<byte>)
    requires Legal(setup, evs) && Open(After(setup, evs)) && Serves(After(setup, evs), i)
    requires FrameOf(datagram) == Some(frame)
    ensures var longer := evs + [AtClient(C.Local(i, app, datagram))];
            && Legal(setup, longer)
            && var t, u := After(setup, evs), After(setup, longer);
               && SameSession(t, u, i) && u.server == t.server
               && u.client.sessions[i].relay.seen == t.client.sessions[i].relay.seen + [Asked(app, datagram)]
               && u.client.channel.submitted
                  == t.client.channel.submitted + [C.Tagged(t.client.sessions[i].sid, frame)]
  {
    var c := After(setup, evs).client;
    OpenIsReady(setup, evs);
    ClientNeverThrows(setup, evs);
    EveryRunKeepsInv(setup, evs);
    assert C.RelayOk(c.sessions[i], C.Sent(c, i));
    RunNext(setup, evs, AtClient(C.Local(i, app, datagram)));
    HandledAt(c.channel, c, i, C.Remember(c.sessions[i].relay, app, datagram), frame);
  }

  /** The record of a datagram to an address: what the server makes of it. */
  lemma LiteralRecord(sid: u16, datagram: Datagram, frame: seq<byte>)
    requires R.Read(datagram).Some? && R.Read(datagram).value.addrType != R.ATYP_DOMAIN && |datagram| < 0xFFFF
    requires FrameOf(datagram) == Some(frame)
    ensures var r, record := R.Read(datagram).value, C.Tagged(sid, frame);
            && |record| >= 2 && F.Read(record[2..]).Parsed? && R.WellFormed(r)
            && var f := F.Read(record[2..]).frame;
               && f.addrType != F.ADDR_DOMAIN && F.FrameEndpoint(f) == R.DestEndpoint(r)
               && S.SendFor(record, R.DestEndpoint(r)) == S.Send(R.DestEndpoint(r), r.dst.rest, sid, None)
  {
    R.ReadThenSerialize(datagram);
    LiteralDatagramCarried(datagram);
    C.TagOf(sid, frame);
    C.Untagged(sid, frame);
  }

  /** The record of a datagram to a name. */
  lemma NamedRecord(sid: u16, datagram: Datagram, frame: seq<byte>)
    requires R.Read(datagram).Some? && R.Read(datagram).value.addrType == R.ATYP_DOMAIN && |datagram| < 0xFFFF
    requires R.Read(datagram).value.dst.rest != [] && FrameOf(datagram) == Some(frame)
    ensures var r, record := R.Read(datagram).value, C.Tagged(sid, frame);
            && |record| >= 2 && F.Read(record[2..]).Parsed? && F.Read(record[2..]).frame.addrType == F.ADDR_DOMAIN
            && forall ep :: S.SendFor(record, ep)
                            == S.Send(ep, r.dst.rest[1..], sid, Some(S.Name(r.dst.addr, r.dst.port)))
  {
    NamedDatagramCarried(datagram);
    C.TagOf(sid, frame);
    C.Untagged(sid, frame);
  }

  /** The server reads a record; what it already had in its cache is up to the environment. */
  function ReadEvent(record: seq<byte>, cached: Option<Endpoint>): Event {
    AtServer(S.Datagram(S.AcceptWantsRead, S.Record(record), cached))
  }

  lemma ReadNext(setup: Setup, evs: seq<Event>, record: seq<byte>, cached: Option<Endpoint>)
    requires Legal(setup, evs) && record in After(setup, evs).client.channel.submitted
    ensures Legal(setup, evs + [ReadEvent(record, cached)])
    ensures var t, u := After(setup, evs), After(setup, evs + [ReadEvent(record, cached)]);
            u.client == t.client && u.server == S.Step(setup.gate, t.server, ReadEvent(record, cached).s)
  {
    RunNext(setup, evs, ReadEvent(record, cached));
  }

  /** An application sends to an address, and the server reads the record. */
  function AskAddress(i: nat, app: Endpoint, datagram: Datagram, record: seq<byte>): seq<Event> {
    [AtClient(C.Local(i, app, datagram))] + [ReadEvent(record, None)]
  }

  /**
   In every run with an open tunnel: a datagram that a live session gets for an address is sent there
   once, with its payload and the session's id, and nothing else is sent.
   */
  lemma AddressReached(setup: Setup, evs: seq<Event>, i: nat, app: Endpoint, datagram: Datagram)
    requires Legal(setup, evs) && Open(After(setup, evs)) && Serves(After(setup, evs), i)
    requires R.Read(datagram).Some? && R.Read(datagram).value.addrType != R.ATYP_DOMAIN && |datagram| < 0xFFFF
    ensures var t, r := After(setup, evs), R.Read(datagram).value;
            var sid := t.client.sessions[i].sid;
            var longer := evs + AskAddress(i, app, datagram, C.Tagged(sid, FrameOf(datagram).value));
            && R.WellFormed(r) && Legal(setup, longer)
            && var u := After(setup, longer);
               Carried(t, u, i, Asked(app, datagram), S.Send(R.DestEndpoint(r), r.dst.rest, sid, None))
  {
    var t, frame := After(setup, evs), FrameOf(datagram).value;
    var sid := t.client.sessions[i].sid;
    var record, first := C.Tagged(sid, frame), AtClient(C.Local(i, app, datagram));
    AskSubmits(setup, evs, i, app, datagram, frame);
    LiteralRecord(sid, datagram, frame);
    ReadNext(setup, evs + [first], record, None);
    OneByOne(evs, first, ReadEvent(record, None), first);
    S.SentAtOnce(setup.gate, t.server, ReadEvent(record, None).s);
    SendingStaysOpen(setup.gate, t.server, ReadEvent(record, None).s);
  }

  lemma SendingStaysOpen(gate: S.Gate, s: S.Server, ev: S.Event)
    requires S.TakesFrame(s, ev)
    ensures S.Step(gate, s, ev).phase == S.Proxy && !S.Step(gate, s, ev).threw
  {
  }

  /** An application sends to a name that is not cached, the server reads the record, and the name resolves. */
  function AskName(i: nat, app: Endpoint, datagram: Datagram, record: seq<byte>, which: nat, ep: Endpoint): seq<Event> {
    [AtClient(C.Local(i, app, datagram))] + [ReadEvent(record, None)] + [AtServer(S.Resolved(which, Some(ep)))]
  }

  /** A frame to a name that is not cached waits at the end of the list until its name is resolved. */
  lemma ResolvedIsSent(gate: S.Gate, s: S.Server, record: seq<byte>, ep: Endpoint)
    requires S.TakesFrame(s, ReadEvent(record, None).s)
    requires F.Read(record[2..]).frame.addrType == F.ADDR_DOMAIN
    ensures var t := S.Step(gate, s, ReadEvent(record, None).s);
            var u := S.Step(gate, t, S.Resolved(|s.resolving|, Some(ep)));
            && u.phase == S.Proxy && !u.threw
            && u.sends == s.sends + [S.SendFor(record, ep)] && u.resolving == s.resolving
  {
    S.ResolvingStep(gate, s, ReadEvent(record, None).s);
  }

  lemma ReadAndResolve(setup: Setup, evs: seq<Event>, record: seq<byte>, which: nat, ep: Endpoint)
    requires Legal(setup, evs) && Open(After(setup, evs)) && record in After(setup, evs).client.channel.submitted
    requires |record| >= 2 && F.Read(record[2..]).Parsed? && F.Read(record[2..]).frame.addrType == F.ADDR_DOMAIN
    requires which == |After(setup, evs).server.resolving|
    ensures var longer := evs + [ReadEvent(record, None)] + [AtServer(S.Resolved(which, Some(ep)))];
            && Legal(setup, longer)
            && var t, u := After(setup, evs), After(setup, longer);
               u.client == t.client && Open(u) && u.server.sends == t.server.sends + [S.SendFor(record, ep)]
  {
    ReadNext(setup, evs, record, None);
    RunNext(setup, evs + [ReadEvent(record, None)], AtServer(S.Resolved(which, Some(ep))));
    ResolvedIsSent(setup.gate, After(setup, evs).server, record, ep);
  }

  /**
   In every run with an open tunnel: a datagram that a live session gets for a name is sent once to what
   the name resolves to, without the first byte of its payload, with the session's id.
   */
  lemma NameReached(setup: Setup, evs: seq<Event>, i: nat, app: Endpoint, datagram: Datagram, ep: Endpoint)
    requires Legal(setup, evs) && Open(After(setup, evs)) && Serves(After(setup, evs), i)
    requires R.Read(datagram).Some? && R.Read(datagram).value.addrType == R.ATYP_DOMAIN && |datagram| < 0xFFFF
    requires R.Read(datagram).value.dst.rest != []
    ensures var t, r := After(setup, evs), R.Read(datagram).value;
            var sid, which := t.client.sessions[i].sid, |t.server.resolving|;
            var longer := evs + AskName(i, app, datagram, C.Tagged(sid, FrameOf(datagram).value), which, ep);
            && Legal(setup, longer)
            && var u := After(setup, longer);
               Carried(t, u, i, Asked(app, datagram),
                       S.Send(ep, r.dst.rest[1..], sid, Some(S.Name(r.dst.addr, r.dst.port))))
  {
    var t, frame := After(setup, evs), FrameOf(datagram).value;
    var sid := t.client.sessions[i].sid;
    var record, first := C.Tagged(sid, frame), AtClient(C.Local(i, app, datagram));
    var last := AtServer(S.Resolved(|t.server.resolving|, Some(ep)));
    AskSubmits(setup, evs, i, app, datagram, frame);
    NamedRecord(sid, datagram, frame);
    ReadAndResolve(setup, evs + [first], record, |t.server.resolving|, ep);
    OneByOne(evs, first, ReadEvent(record, None), last);
  }

  /** A target answers, and the client reads the record made of it. */
  function AnswerEvents(sid: u16, from: Endpoint, data: seq<byte>): seq<Event> {
    [AtServer(S.FromTarget(from, data))] + [AtClient(C.Receives(S.ReplyRecord(sid, from, data)))]
  }

  lemma ReplyFrame(sid: u16, from: Endpoint, data: seq<byte>)
    requires |F.Generate(F.Literal(from), data)| <= 0xFFFF
    ensures var record := S.ReplyRecord(sid, from, data);
            && |record| >= 2 && GetU16(record, 0) == sid && F.Read(record[2..]).Parsed?
            && ReplyFor(F.Read(record[2..]).frame) == AnswerFrom(from, data)
            && F.Read(record[2..]).frame.dst == Addressed(from.Raw(), from.port, data)
  {
    var record, frame := S.ReplyRecord(sid, from, data), F.Generate(F.Literal(from), data);
    assert record == C.Tagged(sid, frame);
    C.TagOf(sid, frame);
    C.Untagged(sid, frame);
    F.ReadGenerated(F.Literal(from), data);
  }

  /** The target's datagram is framed for the session that was the last to send there. */
  lemma AnswerFramed(setup: Setup, evs: seq<Event>, from: Endpoint, data: seq<byte>)
    requires Legal(setup, evs) && Open(After(setup, evs)) && |data| <= 0xFFFF
    ensures var longer := evs + [AtServer(S.FromTarget(from, data))];
            && Legal(setup, longer)
            && var t, u := After(setup, evs), After(setup, longer);
               && u.client == t.client && u.server.sends == t.server.sends && Open(u)
               && u.server.replies
                  == t.server.replies + [S.ReplyRecord(S.LatestSid(t.server.sends, from), from, data)]
  {
    RunNext(setup, evs, AtServer(S.FromTarget(from, data)));
    EveryRunKeepsInv(setup, evs);
    var s := After(setup, evs).server;
    assert S.Tag(s.routes, from) == S.LatestSid(s.sends, from);
  }

  /**
   In every run with an open tunnel: what a target answers is handed to session `i`, once, if that was
   the last to send there, and it goes to the application that the relay's history says. If another
   session was the last, session `i` gets nothing.
   */
  lemma AnswerComesBack(setup: Setup, evs: seq<Event>, i: nat, from: Endpoint, data: seq<byte>)
    requires Legal(setup, evs) && Open(After(setup, evs)) && Serves(After(setup, evs), i)
    requires |F.Generate(F.Literal(from), data)| <= 0xFFFF
    ensures var t := After(setup, evs);
            var sid := S.LatestSid(t.server.sends, from);
            var longer := evs + AnswerEvents(sid, from, data);
            && Legal(setup, longer)
            && var u, s := After(setup, longer), t.client.sessions[i];
               && |u.client.sessions| == |t.client.sessions| && Open(u) && u.server.sends == t.server.sends
               && if sid == s.sid then
                    u.client.sessions[i].relay.toApp == s.relay.toApp
                      + [(AppEndpoint(DeskAfter(s.relay.seen), Addressed(from.Raw(), from.port, data)),
                          AnswerFrom(from, data))]
                  else u.client.sessions[i] == s
  {
    var t := After(setup, evs);
    var sid := S.LatestSid(t.server.sends, from);
    var record, first := S.ReplyRecord(sid, from, data), AtServer(S.FromTarget(from, data));
    FitsDatagram(from, data);
    AnswerFramed(setup, evs, from, data);
    var mid := evs + [first];
    assert record in After(setup, mid).server.replies;
    RunNext(setup, mid, AtClient(C.Receives(record)));
    OneByOne(evs, first, AtClient(C.Receives(record)), first);
    ReplyFrame(sid, from, data);
    OpenIsReady(setup, evs);
    ClientNeverThrows(setup, mid);
    EveryRunKeepsInv(setup, mid);
    C.ReachedIff(setup.password, t.client, record, i);
    assert C.RelayOk(t.client.sessions[i], C.Sent(t.client, i));
  }

  lemma FitsDatagram(from: Endpoint, data: seq<byte>)
    requires |F.Generate(F.Literal(from), data)| <= 0xFFFF
    ensures |data| <= 0xFFFF
  {
  }

  /** Who has just asked for an endpoint is the one its answer goes to. */
  lemma JustAsked(h: seq<Seen>, app: Endpoint, datagram: Datagram, data: seq<byte>)
    requires R.Read(datagram).Some? && R.Read(datagram).value.addrType != R.ATYP_DOMAIN
    requires R.WellFormed(R.Read(datagram).value)
    ensures var ep := R.DestEndpoint(R.Read(datagram).value);
            AppEndpoint(DeskAfter(h + [Asked(app, datagram)]), Addressed(ep.Raw(), ep.port, data)) == app
  {
    var longer, ep := h + [Asked(app, datagram)], R.DestEndpoint(R.Read(datagram).value);
    assert longer[..|longer| - 1] == h;
    AnswerGoesTo(longer, Addressed(ep.Raw(), ep.port, data));
  }

  /** The last to send to `ep` after one more send there: the sender, unless its id is zero. */
  lemma LatestAfterSend(sends: seq<S.Send>, send: S.Send)
    ensures S.LatestSid(sends + [send], send.ep) == if send.sid != 0 then send.sid else S.LatestSid(sends, send.ep)
  {
    assert (sends + [send])[..|sends|] == sends;
  }

  /**
   The round trip, in every run with an open tunnel: an application sends a datagram to an address, the
   server sends it there, the target answers, and that application gets the answer, once. The only
   exception is a session whose id wrapped to zero, when another session has sent to that target.
   */
  lemma RoundTrip(setup: Setup, evs: seq<Event>, i: nat, app: Endpoint, datagram: Datagram, data: seq<byte>)
    requires Legal(setup, evs) && Open(After(setup, evs)) && Serves(After(setup, evs), i)
    requires R.Read(datagram).Some? && R.Read(datagram).value.addrType != R.ATYP_DOMAIN && |datagram| < 0xFFFF
    requires R.WellFormed(R.Read(datagram).value)
    requires |F.Generate(F.Literal(R.DestEndpoint(R.Read(datagram).value)), data)| <= 0xFFFF
    ensures var t, ep := After(setup, evs), R.DestEndpoint(R.Read(datagram).value);
            var s := t.client.sessions[i];
            var sid := if s.sid != 0 then s.sid else S.LatestSid(t.server.sends, ep);
            var longer := evs + AskAddress(i, app, datagram, C.Tagged(s.sid, FrameOf(datagram).value))
                          + AnswerEvents(sid, ep, data);
            && Legal(setup, longer)
            && var u := After(setup, longer);
               && |u.client.sessions| == |t.client.sessions|
               && |u.server.sends| == |t.server.sends| + 1 && u.server.sends[|t.server.sends|].ep == ep
               && u.client.sessions[i].relay.toApp == s.relay.toApp
                  + (if sid == s.sid then [(app, AnswerFrom(ep, data))] else [])
  {
    var t, r := After(setup, evs), R.Read(datagram).value;
    var s, ep := t.client.sessions[i], R.DestEndpoint(r);
    var asked := evs + AskAddress(i, app, datagram, C.Tagged(s.sid, FrameOf(datagram).value));
    AddressReached(setup, evs, i, app, datagram);
    AnswerComesBack(setup, asked, i, ep, data);
    LatestAfterSend(t.server.sends, S.Send(ep, r.dst.rest, s.sid, None));
    JustAsked(s.relay.seen, app, datagram, data);
  }

  /** Opening the tunnel: `n` sessions, and the server reads the password line. */
  function Opening(n: nat, line: seq<byte>): seq<Event> {
    Opens(n) + [AtServer(S.Datagram(S.Accepted, S.Record(line), None))]
  }

  /** For a password that the server accepts, the tunnel opens, and serves all of up to 65536 sessions. */
  lemma TunnelOpens(setup: Setup, n: nat)
    requires setup.usable && n <= 0x1_0000
    requires var line := setup.password + [LF]; setup.gate(line[..S.NewlineAt(line)])
    ensures var evs := Opening(n, setup.password + [LF]);
            && Legal(setup, evs) && Open(After(setup, evs)) && |After(setup, evs).client.sessions| == n
            && forall i :: 0 <= i < n ==> Serves(After(setup, evs), i)
  {
    var line := setup.password + [LF];
    OpensReaches(setup, n);
    assert line[|line| - 1] == LF;
    FrameAccepted(setup.gate, line);
    var t := After(setup, Opens(n));
    RunNext(setup, Opens(n), AtServer(S.Datagram(S.Accepted, S.Record(line), None)));
    forall i | 0 <= i < n
      ensures Serves(After(setup, Opening(n, line)), i)
    {
      assert FreshAt(t.client, i);
    }
  }
}
