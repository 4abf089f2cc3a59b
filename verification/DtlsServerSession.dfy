/**
 The server's end of one DTLS tunnel (Server/DtlsServerSession.cpp): handshake, one password
 line, then frames to be sent to targets and datagrams from targets to be framed back.

 OpenSSL is an oracle: each datagram event carries what SSL_accept and SSL_read returned. The
 password check is a predicate on the line (its digest is in the configured set). Targets and
 the resolver are environment. `sends` and `replies` log what left the session.
 */
module DtlsServer {
  import opened Bytes
  import F = UdpFrame

  datatype Phase = Handshake | Auth | Proxy | Destroy

  function Rank(p: Phase): nat {
    match p
    case Handshake => 0
    case Auth => 1
    case Proxy => 2
    case Destroy => 3
  }

  /** Whether the digest of a password line is among the allowed ones. */
  type Gate = seq<byte> -> bool

  /** A host name and a port, as a frame gives them. */
  datatype Name = Name(host: seq<byte>, port: u16)

  /** A datagram handed to the target socket, and the name its endpoint came from, unless its frame gave it itself. */
  datatype Send = Send(ep: Endpoint, payload: seq<byte>, sid: u16, name: Option<Name>)

  /** A name being resolved, and what is to be sent there. */
  datatype Resolving = Resolving(domain: seq<byte>, port: u16, payload: seq<byte>, sid: u16)

  datatype Server = Server(
    phase: Phase,
    authBuf: seq<byte>,
    routes: map<Endpoint, u16>,
    resolving: seq<Resolving>,
    threw: bool,                     // an exception has ended the event loop
    sends: seq<Send>,
    replies: seq<seq<byte>>)

  const INITIAL := Server(Handshake, [], map[], [], false, [], [])

  datatype AcceptResult = Accepted | AcceptWantsRead | AcceptFailed
  datatype ReadResult = Record(data: seq<byte>) | ReadWantsRead | ReadClosed | ReadFailed

  datatype Event =
    | Datagram(accept: AcceptResult, read: ReadResult, cached: Option<Endpoint>)
    | Resolved(which: nat, ep: Option<Endpoint>)
    | FromTarget(from: Endpoint, data: seq<byte>)
    | Stop

  /** The position of the first newline, or the length of the text. */
  function NewlineAt(text: seq<byte>): (at: nat)
    ensures at <= |text|
    ensures at < |text| ==> text[at] == LF
    ensures forall i :: 0 <= i < at ==> text[i] != LF
  {
    if text == [] || text[0] == LF then 0 else
      var rest := NewlineAt(text[1..]);
      assert forall i :: 1 <= i < |text| ==> text[i] == text[1..][i - 1];
      1 + rest
  }

  /** do_send_to_target. */
  function SendTo(s: Server, ep: Endpoint, payload: seq<byte>, sid: u16, name: Option<Name>): Server {
    s.(routes := if sid != 0 then s.routes[ep := sid] else s.routes,
       sends := s.sends + [Send(ep, payload, sid, name)])
  }

  /** A record read in AUTH: the buffer is cleared first, so the line must be in this record. */
  function OnAuthRecord(gate: Gate, s: Server, record: seq<byte>): Server {
    var t, nl := s.(authBuf := record), NewlineAt(record);
    if nl == |record| then t
    else if gate(record[..nl]) then t.(phase := Proxy)
    else t.(phase := Destroy)
  }

  /** What is done with the outcome of parsing the frame in a record. */
  function OnFrame(s: Server, sid: u16, outcome: F.Outcome, cached: Option<Endpoint>): Server
    requires outcome.Parsed? ==> F.ValidFrame(outcome.frame)
  {
    match outcome
    case Rejected => s
    case LengthError => s.(threw := true)
    case Parsed(f, _) =>
      if f.addrType == F.ADDR_DOMAIN then
        match cached
        case Some(ep) => SendTo(s, ep, f.dst.rest, sid, Some(Name(f.dst.addr, f.dst.port)))
        case None => s.(resolving := s.resolving + [Resolving(f.dst.addr, f.dst.port, f.dst.rest, sid)])
      else SendTo(s, F.FrameEndpoint(f), f.dst.rest, sid, None)
  }

  /** A record read in PROXY: a session id, then a frame. */
  function OnProxyRecord(s: Server, record: seq<byte>, cached: Option<Endpoint>): Server {
    if |record| < 2 then s else OnFrame(s, GetU16(record, 0), F.Read(record[2..]), cached)
  }

  /** try_read_app_data. */
  function TryRead(gate: Gate, s: Server, read: ReadResult, cached: Option<Endpoint>): Server {
    match read
    case Record(data) => if s.phase == Auth then OnAuthRecord(gate, s, data) else OnProxyRecord(s, data, cached)
    case ReadClosed => s.(phase := Destroy)
    case _ => s
  }

  function OnDatagram(gate: Gate, s: Server, accept: AcceptResult, read: ReadResult, cached: Option<Endpoint>): Server {
    match s.phase
    case Destroy => s
    case Handshake =>
      (match accept
       case Accepted => TryRead(gate, s.(phase := Auth), read, cached)
       case AcceptWantsRead => s
       case AcceptFailed => s.(phase := Destroy))
    case _ => TryRead(gate, s, read, cached)
  }

  function OnResolved(s: Server, which: nat, ep: Option<Endpoint>): Server {
    if which >= |s.resolving| then s
    else
      var r, t := s.resolving[which], s.(resolving := s.resolving[..which] + s.resolving[which + 1..]);
      match ep
      case None => t
      case Some(e) => SendTo(t, e, r.payload, r.sid, Some(Name(r.domain, r.port)))
  }

  /** The session id a datagram from `from` is tagged with. */
  function Tag(routes: map<Endpoint, u16>, from: Endpoint): u16 {
    if from in routes then routes[from] else 0
  }

  function ReplyRecord(sid: u16, from: Endpoint, data: seq<byte>): seq<byte> {
    PutU16(sid) + F.Generate(F.Literal(from), data)
  }

  function OnFromTarget(s: Server, from: Endpoint, data: seq<byte>): Server {
    if s.phase != Proxy then s else s.(replies := s.replies + [ReplyRecord(Tag(s.routes, from), from, data)])
  }

  function Step(gate: Gate, s: Server, ev: Event): Server {
    if s.threw then s else
      match ev
      case Datagram(accept, read, cached) => OnDatagram(gate, s, accept, read, cached)
      case Resolved(which, ep) => OnResolved(s, which, ep)
      case FromTarget(from, data) => OnFromTarget(s, from, data)
      case Stop => s.(phase := Destroy)
  }

  /** The state after a history of events. */
  function After(gate: Gate, evs: seq<Event>): Server {
    if evs == [] then INITIAL else Step(gate, After(gate, evs[..|evs| - 1]), evs[|evs| - 1])
  }

  /** The session never moves back to an earlier phase. */
  lemma {:induction false} PhaseNeverBack(gate: Gate, evs: seq<Event>, n: nat)
    requires n <= |evs|
    ensures Rank(After(gate, evs[..n]).phase) <= Rank(After(gate, evs).phase)
    decreases |evs|
  {
    if n == |evs| {
      assert evs[..n] == evs;
    } else {
      var front := evs[..|evs| - 1];
      assert front[..n] == evs[..n];
      PhaseNeverBack(gate, front, n);
    }
  }

  /** The event is one record, read in AUTH, whose text before its first newline passes the gate. */
  predicate Authenticates(gate: Gate, s: Server, ev: Event) {
    && ev.Datagram? && ev.read.Record?
    && (s.phase == Auth || (s.phase == Handshake && ev.accept.Accepted?))
    && NewlineAt(ev.read.data) < |ev.read.data| && gate(ev.read.data[..NewlineAt(ev.read.data)])
  }

  ghost predicate AuthenticatedBefore(gate: Gate, evs: seq<Event>, n: nat)
    requires n <= |evs|
  {
    exists j :: 0 <= j < n && Authenticates(gate, After(gate, evs[..j]), evs[j])
  }

  /** Whatever sends or may still send is behind the gate. */
  predicate Active(s: Server) {
    s.phase == Proxy || s.resolving != [] || s.sends != [] || s.replies != []
  }

  lemma AuthenticatedStays(gate: Gate, evs: seq<Event>, n: nat)
    requires n <= |evs| && AuthenticatedBefore(gate, evs[..n], n)
    ensures AuthenticatedBefore(gate, evs, n)
  {
    var front := evs[..n];
    var j :| 0 <= j < n && Authenticates(gate, After(gate, front[..j]), front[j]);
    assert front[..j] == evs[..j];
  }

  lemma StepActivates(gate: Gate, s: Server, ev: Event)
    requires !Active(s) && Active(Step(gate, s, ev))
    ensures Authenticates(gate, s, ev)
  {
  }

  lemma {:induction false} ActiveIsAuthenticated(gate: Gate, evs: seq<Event>)
    requires Active(After(gate, evs))
    ensures AuthenticatedBefore(gate, evs, |evs|)
  {
    var n := |evs| - 1;
    var front := evs[..n];
    if Active(After(gate, front)) {
      ActiveIsAuthenticated(gate, front);
      AuthenticatedStays(gate, evs, n);
    } else {
      StepActivates(gate, After(gate, front), evs[n]);
    }
  }

  /** Every datagram to a target comes strictly after a record that passed the gate. */
  lemma SendsOnlyAfterAuth(gate: Gate, evs: seq<Event>)
    requires evs != [] && After(gate, evs).sends != After(gate, evs[..|evs| - 1]).sends
    ensures AuthenticatedBefore(gate, evs, |evs| - 1)
  {
    var n := |evs| - 1;
    var front := evs[..n];
    SendingIsActive(gate, After(gate, front), evs[n]);
    ActiveIsAuthenticated(gate, front);
    AuthenticatedStays(gate, evs, n);
  }

  lemma SendingIsActive(gate: Gate, s: Server, ev: Event)
    requires Step(gate, s, ev).sends != s.sends
    ensures Active(s)
  {
  }

  /** The session id of the latest send to `ep` under a non-zero id, or 0. */
  function LatestSid(sends: seq<Send>, ep: Endpoint): u16 {
    if sends == [] then 0
    else if sends[|sends| - 1].ep == ep && sends[|sends| - 1].sid != 0 then sends[|sends| - 1].sid
    else LatestSid(sends[..|sends| - 1], ep)
  }

  ghost predicate RoutesLatest(s: Server) {
    forall ep :: Tag(s.routes, ep) == LatestSid(s.sends, ep)
  }

  lemma SendToRoutes(s: Server, ep: Endpoint, payload: seq<byte>, sid: u16, name: Option<Name>)
    requires RoutesLatest(s)
    ensures RoutesLatest(SendTo(s, ep, payload, sid, name))
  {
    var t := SendTo(s, ep, payload, sid, name);
    assert t.sends[..|t.sends| - 1] == s.sends;
  }

  lemma StepRoutes(gate: Gate, s: Server, ev: Event)
    requires RoutesLatest(s)
    ensures RoutesLatest(Step(gate, s, ev))
  {
    var t := Step(gate, s, ev);
    if t.sends != s.sends {
      SendIsSendTo(gate, s, ev);
      var send := t.sends[|s.sends|];
      SendToRoutes(s, send.ep, send.payload, send.sid, send.name);
    } else {
      NoSendNoRoute(gate, s, ev);
    }
  }

  /** A step sends at most one datagram, and then the routing table is updated for it alone. */
  lemma SendIsSendTo(gate: Gate, s: Server, ev: Event)
    requires Step(gate, s, ev).sends != s.sends
    ensures var t := Step(gate, s, ev);
            && |t.sends| == |s.sends| + 1
            && var send := t.sends[|s.sends|];
               var u := SendTo(s, send.ep, send.payload, send.sid, send.name);
               t.sends == u.sends && t.routes == u.routes
  {
  }

  lemma NoSendNoRoute(gate: Gate, s: Server, ev: Event)
    requires Step(gate, s, ev).sends == s.sends
    ensures Step(gate, s, ev).routes == s.routes
  {
  }

  /** A handler throws exactly over a frame, in a record read in PROXY, that makes the frame parser throw. */
  lemma ThrowsIff(gate: Gate, s: Server, ev: Event)
    requires !s.threw
    ensures Step(gate, s, ev).threw <==>
            && s.phase == Proxy && ev.Datagram? && ev.read.Record?
            && |ev.read.data| >= 2 && F.Read(ev.read.data[2..]).LengthError?
  {
  }

  /** In every run the routing table says, for each endpoint, who last sent to it. */
  lemma {:induction false} RoutesAreLatest(gate: Gate, evs: seq<Event>)
    ensures RoutesLatest(After(gate, evs))
  {
    if evs != [] {
      RoutesAreLatest(gate, evs[..|evs| - 1]);
      StepRoutes(gate, After(gate, evs[..|evs| - 1]), evs[|evs| - 1]);
    }
  }

  /** A datagram from `from` is framed for the session that last sent to `from`. */
  lemma ReplyGoesToLatestSender(gate: Gate, evs: seq<Event>, from: Endpoint, data: seq<byte>)
    requires After(gate, evs).phase == Proxy && !After(gate, evs).threw
    ensures var s := After(gate, evs);
            Step(gate, s, FromTarget(from, data)).replies == s.replies
              + [ReplyRecord(LatestSid(s.sends, from), from, data)]
  {
    RoutesAreLatest(gate, evs);
    assert Tag(After(gate, evs).routes, from) == LatestSid(After(gate, evs).sends, from);
  }

  /** A line cut in two is not joined: after a record without a newline, the next is read as if it were the first. */
  lemma LinesAreNotJoined(gate: Gate, s: Server, first: seq<byte>, second: seq<byte>)
    requires s.phase == Auth && LF !in first
    ensures var t := OnAuthRecord(gate, s, first);
            t.phase == Auth && OnAuthRecord(gate, t, second) == OnAuthRecord(gate, s, second)
  {
  }

  /**
   A frame that overtakes the password line: it is taken for a password of at most three bytes,
   because the magic number contains a newline. The session never stays in AUTH after it.
   */
  lemma FrameReadInAuth(gate: Gate, s: Server, sid: u16, d: F.Destination, payload: seq<byte>)
    requires s.phase == Auth && d.Valid()
    ensures var record := PutU16(sid) + F.Generate(d, payload);
            var nl := NewlineAt(record);
            nl <= 3 && OnAuthRecord(gate, s, record).phase == (if gate(record[..nl]) then Proxy else Destroy)
  {
    var record := PutU16(sid) + F.Generate(d, payload);
    assert record[3] == F.Generate(d, payload)[1] == LF;
  }

  /** The session reads a line in this record, and its digest is not among the allowed ones. */
  predicate BadLine(gate: Gate, read: ReadResult) {
    read.Record? && NewlineAt(read.data) < |read.data| && !gate(read.data[..NewlineAt(read.data)])
  }

  /** What ends a session: a stop, a failed handshake, a closed connection, a line that fails the gate. */
  predicate Ends(gate: Gate, s: Server, ev: Event) {
    !s.threw && s.phase != Destroy &&
    match ev
    case Stop => true
    case Datagram(accept, read, _) =>
      if s.phase == Handshake && !accept.Accepted? then accept.AcceptFailed?
      else read.ReadClosed? || (s.phase != Proxy && BadLine(gate, read))
    case _ => false
  }

  ghost predicate Ended(gate: Gate, evs: seq<Event>) {
    exists j :: 0 <= j < |evs| && EndsAt(gate, evs, j)
  }

  ghost predicate EndsAt(gate: Gate, evs: seq<Event>, j: nat)
    requires j < |evs|
  {
    Ends(gate, After(gate, evs[..j]), evs[j])
  }

  lemma EndsAtFront(gate: Gate, evs: seq<Event>, n: nat, j: nat)
    requires j < n <= |evs|
    ensures EndsAt(gate, evs[..n], j) == EndsAt(gate, evs, j)
  {
    assert evs[..n][..j] == evs[..j];
  }

  lemma EndedNext(gate: Gate, evs: seq<Event>, n: nat)
    requires |evs| == n + 1
    ensures Ended(gate, evs) <==> Ended(gate, evs[..n]) || EndsAt(gate, evs, n)
  {
    forall j | 0 <= j < n
      ensures EndsAt(gate, evs[..n], j) == EndsAt(gate, evs, j)
    {
      EndsAtFront(gate, evs, n, j);
    }
  }

  lemma AuthenticatedNext(gate: Gate, evs: seq<Event>, n: nat)
    requires |evs| == n + 1
    ensures AuthenticatedBefore(gate, evs, n + 1)
            <==> AuthenticatedBefore(gate, evs[..n], n) || Authenticates(gate, After(gate, evs[..n]), evs[n])
  {
    var front := evs[..n];
    if AuthenticatedBefore(gate, evs, n + 1) {
      var j :| 0 <= j < n + 1 && Authenticates(gate, After(gate, evs[..j]), evs[j]);
      assert j < n ==> front[..j] == evs[..j] && front[j] == evs[j];
    }
    if AuthenticatedBefore(gate, front, n) {
      AuthenticatedStays(gate, evs, n);
    }
  }

  lemma PhaseStep(gate: Gate, s: Server, ev: Event)
    ensures var t := Step(gate, s, ev);
            && (t.phase == Destroy <==> s.phase == Destroy || Ends(gate, s, ev))
            && (t.phase == Proxy <==>
                (s.phase == Proxy && !Ends(gate, s, ev)) || (!s.threw && Authenticates(gate, s, ev)))
    ensures Step(gate, s, ev).threw ==> s.threw || s.phase == Proxy
  {
  }

  /**
   In every run: the session is over exactly if one of the events that end a session has happened,
   and it forwards exactly if a line has passed the gate and none of them has.
   */
  lemma {:induction false} PhaseIff(gate: Gate, evs: seq<Event>)
    ensures After(gate, evs).phase == Destroy <==> Ended(gate, evs)
    ensures After(gate, evs).phase == Proxy <==> AuthenticatedBefore(gate, evs, |evs|) && !Ended(gate, evs)
    ensures After(gate, evs).threw ==> After(gate, evs).phase == Proxy
  {
    if evs != [] {
      var n := |evs| - 1;
      PhaseIff(gate, evs[..n]);
      EndedNext(gate, evs, n);
      AuthenticatedNext(gate, evs, n);
      PhaseStep(gate, After(gate, evs[..n]), evs[n]);
    }
  }

  /** The session reads a frame in this event, and its parser accepts it. */
  predicate TakesFrame(s: Server, ev: Event) {
    && s.phase == Proxy && !s.threw && ev.Datagram? && ev.read.Record?
    && |ev.read.data| >= 2 && F.Read(ev.read.data[2..]).Parsed?
  }

  /** The frame names a host that has to be resolved first. */
  predicate Begins(s: Server, ev: Event) {
    TakesFrame(s, ev) && F.Read(ev.read.data[2..]).frame.addrType == F.ADDR_DOMAIN && ev.cached.None?
  }

  /** What a record asks to be sent, once its target is known to be at `ep`. */
  function SendFor(record: seq<byte>, ep: Endpoint): Send
    requires |record| >= 2 && F.Read(record[2..]).Parsed?
  {
    var f := F.Read(record[2..]).frame;
    Send(ep, f.dst.rest, GetU16(record, 0),
         if f.addrType == F.ADDR_DOMAIN then Some(Name(f.dst.addr, f.dst.port)) else None)
  }

  /** The entry holds what the record asks to be sent. */
  ghost predicate HoldsFor(r: Resolving, record: seq<byte>) {
    && |record| >= 2 && F.Read(record[2..]).Parsed?
    && forall ep :: SendFor(record, ep) == Send(ep, r.payload, r.sid, Some(Name(r.domain, r.port)))
  }

  /** A frame to an address, or to a name with a cached address, is sent at once. */
  lemma SentAtOnce(gate: Gate, s: Server, ev: Event)
    requires TakesFrame(s, ev) && !Begins(s, ev)
    ensures var f, t := F.Read(ev.read.data[2..]).frame, Step(gate, s, ev);
            var ep := if f.addrType == F.ADDR_DOMAIN then ev.cached.value else F.FrameEndpoint(f);
            t.sends == s.sends + [SendFor(ev.read.data, ep)] && t.resolving == s.resolving
  {
  }

  /** The list without its entry `i`, in its order. */
  function Without<T>(list: seq<T>, i: nat): seq<T>
    requires i < |list|
  {
    list[..i] + list[i + 1..]
  }

  /** The events whose records still wait for the resolver, in their order. */
  function Outstanding(gate: Gate, evs: seq<Event>): seq<nat> {
    if evs == [] then []
    else
      var n := |evs| - 1;
      var before, s := Outstanding(gate, evs[..n]), After(gate, evs[..n]);
      if Begins(s, evs[n]) then before + [n]
      else if !s.threw && evs[n].Resolved? && evs[n].which < |before| then Without(before, evs[n].which)
      else before
  }

  /** `list` is what waits for the records of the events `which`, each of them once and in order. */
  ghost predicate WaitsFor(evs: seq<Event>, list: seq<Resolving>, which: seq<nat>) {
    && |list| == |which|
    && (forall k :: 0 <= k < |which| ==> which[k] < |evs| && EntryOf(evs[which[k]], list[k]))
    && (forall j, k :: 0 <= j < k < |which| ==> which[j] < which[k])
  }

  ghost predicate EntryOf(ev: Event, r: Resolving) {
    ev.Datagram? && ev.read.Record? && HoldsFor(r, ev.read.data)
  }

  lemma ResolvingStep(gate: Gate, s: Server, ev: Event)
    ensures var t := Step(gate, s, ev);
            if Begins(s, ev) then
              t.sends == s.sends && |t.resolving| == |s.resolving| + 1 && t.resolving[..|s.resolving|] == s.resolving
              && EntryOf(ev, t.resolving[|s.resolving|])
            else if !s.threw && ev.Resolved? && ev.which < |s.resolving| then
              t.resolving == Without(s.resolving, ev.which)
            else t.resolving == s.resolving
  {
  }

  lemma WaitsLonger(evs: seq<Event>, list: seq<Resolving>, which: seq<nat>)
    requires evs != [] && WaitsFor(evs[..|evs| - 1], list, which)
    ensures WaitsFor(evs, list, which) && forall k :: 0 <= k < |which| ==> which[k] < |evs| - 1
  {
    forall k | 0 <= k < |which|
      ensures which[k] < |evs| - 1 && EntryOf(evs[which[k]], list[k])
    {
      assert EntryOf(evs[..|evs| - 1][which[k]], list[k]);
    }
  }

  lemma OneMoreWaits(evs: seq<Event>, list: seq<Resolving>, which: seq<nat>, longer: seq<Resolving>)
    requires evs != [] && WaitsFor(evs[..|evs| - 1], list, which)
    requires |longer| == |list| + 1 && longer[..|list|] == list && EntryOf(evs[|evs| - 1], longer[|list|])
    ensures WaitsFor(evs, longer, which + [|evs| - 1])
  {
    WaitsLonger(evs, list, which);
    assert forall k :: 0 <= k < |list| ==> longer[k] == longer[..|list|][k];
  }

  lemma OneLessWaits(evs: seq<Event>, list: seq<Resolving>, which: seq<nat>, i: nat)
    requires WaitsFor(evs, list, which) && i < |list|
    ensures WaitsFor(evs, Without(list, i), Without(which, i))
  {
    var l, w := Without(list, i), Without(which, i);
    assert forall k :: 0 <= k < |l| ==> l[k] == list[if k < i then k else k + 1];
    assert forall k :: 0 <= k < |w| ==> w[k] == which[if k < i then k else k + 1];
  }

  /** In every run the resolver's list is what the records of these events asked for, each once. */
  lemma {:induction false} ResolvingIs(gate: Gate, evs: seq<Event>)
    ensures WaitsFor(evs, After(gate, evs).resolving, Outstanding(gate, evs))
  {
    if evs != [] {
      var n := |evs| - 1;
      var s, t, which := After(gate, evs[..n]), After(gate, evs), Outstanding(gate, evs[..n]);
      ResolvingIs(gate, evs[..n]);
      ResolvingStep(gate, s, evs[n]);
      if Begins(s, evs[n]) {
        OneMoreWaits(evs, s.resolving, which, t.resolving);
      } else {
        WaitsLonger(evs, s.resolving, which);
        if !s.threw && evs[n].Resolved? && evs[n].which < |which| {
          OneLessWaits(evs, s.resolving, which, evs[n].which);
        }
      }
    }
  }

  /**
   When a resolution finishes with an endpoint, exactly one datagram goes there: it carries payload,
   id, name and port of the record with which the resolution began. A failed one sends nothing. Either
   way that record waits no longer, and every other one still does.
   */
  lemma ResolvedOnce(gate: Gate, evs: seq<Event>, which: nat, ep: Option<Endpoint>)
    requires !After(gate, evs).threw && which < |Outstanding(gate, evs)|
    ensures var s, t, n := After(gate, evs), After(gate, evs + [Resolved(which, ep)]), Outstanding(gate, evs)[which];
            && n < |evs| && evs[n].Datagram? && evs[n].read.Record?
            && |evs[n].read.data| >= 2 && F.Read(evs[n].read.data[2..]).Parsed?
            && t.sends == s.sends + (match ep case None => [] case Some(e) => [SendFor(evs[n].read.data, e)])
            && n !in Outstanding(gate, evs + [Resolved(which, ep)])
            && Outstanding(gate, evs + [Resolved(which, ep)]) == Without(Outstanding(gate, evs), which)
  {
    var longer, out := evs + [Resolved(which, ep)], Outstanding(gate, evs);
    assert longer[..|evs|] == evs;
    ResolvingIs(gate, evs);
    assert EntryOf(evs[out[which]], After(gate, evs).resolving[which]);
    NotLeft(out, which);
  }

  lemma NotLeft(which: seq<nat>, i: nat)
    requires i < |which| && forall j, k :: 0 <= j < k < |which| ==> which[j] < which[k]
    ensures which[i] !in Without(which, i)
  {
  }

  /** How many frames the session has taken, and how many of them went to names that did not resolve. */
  function Taken(gate: Gate, evs: seq<Event>): nat {
    if evs == [] then 0
    else
      var n := |evs| - 1;
      Taken(gate, evs[..n]) + if TakesFrame(After(gate, evs[..n]), evs[n]) then 1 else 0
  }

  function Unresolved(gate: Gate, evs: seq<Event>): nat {
    if evs == [] then 0
    else
      var n := |evs| - 1;
      var s := After(gate, evs[..n]);
      Unresolved(gate, evs[..n])
      + if !s.threw && evs[n].Resolved? && evs[n].ep.None? && evs[n].which < |Outstanding(gate, evs[..n])| then 1 else 0
  }

  lemma AccountStep(gate: Gate, s: Server, ev: Event)
    ensures var t := Step(gate, s, ev);
            |t.sends| + |t.resolving| - |s.sends| - |s.resolving|
            == if TakesFrame(s, ev) then 1
               else if !s.threw && ev.Resolved? && ev.ep.None? && ev.which < |s.resolving| then -1 else 0
  {
  }

  /** In every run each frame taken was sent once, waits for the resolver, or had a name that did not resolve. */
  lemma {:induction false} FramesAccountedFor(gate: Gate, evs: seq<Event>)
    ensures var s := After(gate, evs);
            |s.sends| + |Outstanding(gate, evs)| + Unresolved(gate, evs) == Taken(gate, evs)
  {
    if evs != [] {
      var n := |evs| - 1;
      FramesAccountedFor(gate, evs[..n]);
      ResolvingIs(gate, evs[..n]);
      ResolvingIs(gate, evs);
      AccountStep(gate, After(gate, evs[..n]), evs[n]);
    }
  }

  /** A session that does not forward takes no record for a frame, and frames nothing for its client. */
  lemma SilentUnlessProxy(gate: Gate, s: Server, from: Endpoint, data: seq<byte>, ev: Event)
    requires s.phase != Proxy
    ensures Step(gate, s, FromTarget(from, data)) == s
    ensures ev.Datagram? ==> Step(gate, s, ev).sends == s.sends && Step(gate, s, ev).resolving == s.resolving
  {
  }

  /** std::string::find of a newline. */
  method FindNewline(text: seq<byte>) returns (at: nat)
    ensures at == NewlineAt(text)
  {
    at := 0;
    while at < |text| && text[at] != LF
      invariant at <= NewlineAt(text)
    {
      at := at + 1;
    }
  }

  /** The session object; what it hands to sockets is logged. */
  class DtlsServerSession {
    const gate: Gate
    const clientEp: Endpoint
    var state: Phase
    var authBuf: seq<byte>
    var targetToSession: map<Endpoint, u16>
    var resolving: seq<Resolving>
    var destroyed: bool
    var threw: bool
    ghost var callbacks: nat           // calls of on_destroy_
    ghost var sends: seq<Send>
    ghost var replies: seq<seq<byte>>

    /** The session is destroyed exactly when it has told the listener so, once. */
    ghost predicate Valid()
      reads this
    {
      (destroyed <==> state == Destroy) && callbacks == if destroyed then 1 else 0
    }

    ghost function View(): Server
      reads this
    {
      Server(state, authBuf, targetToSession, resolving, threw, sends, replies)
    }

    constructor (gate: Gate, clientEp: Endpoint)
      ensures Valid() && View() == INITIAL && this.gate == gate && this.clientEp == clientEp
    {
      this.gate, this.clientEp := gate, clientEp;
      state, authBuf, targetToSession, resolving, destroyed, threw := Handshake, [], map[], [], false, false;
      callbacks, sends, replies := 0, [], [];
    }

    /** stop() and destroy(): idempotent, and the callback fires at most once. */
    method StopSession()
      requires Valid() && !threw
      modifies this
      ensures Valid() && View() == Step(gate, old(View()), Stop)
    {
      if destroyed { return; }
      destroyed := true;
      state := Destroy;
      callbacks := callbacks + 1;
    }

    method HandleDatagram(accept: AcceptResult, read: ReadResult, cached: Option<Endpoint>)
      requires Valid() && !threw
      modifies this
      ensures Valid() && View() == Step(gate, old(View()), Datagram(accept, read, cached))
    {
      if state == Destroy { return; }
      if state == Handshake {
        if accept.Accepted? {
          state := Auth;
          TryReadAppData(read, cached);
        } else if accept.AcceptFailed? {
          StopSession();
        }
      } else {
        TryReadAppData(read, cached);
      }
    }

    method TryReadAppData(read: ReadResult, cached: Option<Endpoint>)
      requires Valid() && !threw && (state == Auth || state == Proxy)
      modifies this
      ensures Valid() && View() == TryRead(gate, old(View()), read, cached)
    {
      match read
      case Record(data) =>
        if state == Auth {
          ReadLine(data);
        } else if |data| >= 2 {
          var outcome := F.Read(data[2..]);
          HandleFrame(GetU16(data, 0), outcome, cached);
        }
      case ReadClosed => StopSession();
      case _ =>
    }

    /** A record read in AUTH: start_auth clears the buffer, so the line must be in this record. */
    method ReadLine(data: seq<byte>)
      requires Valid() && !threw && state == Auth
      modifies this
      ensures Valid() && View() == OnAuthRecord(gate, old(View()), data)
    {
      authBuf := [];
      authBuf := authBuf + data;
      assert authBuf == data;
      var pos := FindNewline(authBuf);
      if pos < |authBuf| {
        if gate(authBuf[..pos]) {
          state := Proxy;
        } else {
          StopSession();
        }
      }
    }

    method HandleFrame(sid: u16, outcome: F.Outcome, cached: Option<Endpoint>)
      requires outcome.Parsed? ==> F.ValidFrame(outcome.frame)
      modifies this
      ensures View() == OnFrame(old(View()), sid, outcome, cached)
      ensures unchanged(`state) && unchanged(`destroyed) && unchanged(`callbacks)
    {
      match outcome
      case Rejected =>
      case LengthError => threw := true;
      case Parsed(f, _) =>
        if f.addrType == F.ADDR_DOMAIN {
          if cached.Some? {
            DoSendToTarget(cached.value, f.dst.rest, sid, Some(Name(f.dst.addr, f.dst.port)));
          } else {
            resolving := resolving + [Resolving(f.dst.addr, f.dst.port, f.dst.rest, sid)];
          }
        } else {
          DoSendToTarget(F.FrameEndpoint(f), f.dst.rest, sid, None);
        }
    }

    method DoSendToTarget(ep: Endpoint, payload: seq<byte>, sid: u16, ghost name: Option<Name>)
      modifies this`targetToSession, this`sends
      ensures View() == SendTo(old(View()), ep, payload, sid, name)
    {
      if sid != 0 {
        targetToSession := targetToSession[ep := sid];
      }
      sends := sends + [Send(ep, payload, sid, name)];
    }

    method HandleResolved(which: nat, ep: Option<Endpoint>)
      requires Valid() && !threw && which < |resolving|
      modifies this
      ensures Valid() && View() == Step(gate, old(View()), Resolved(which, ep))
    {
      var r := resolving[which];
      resolving := resolving[..which] + resolving[which + 1..];
      if ep.Some? {
        DoSendToTarget(ep.value, r.payload, r.sid, Some(Name(r.domain, r.port)));
      }
    }

    /** The completion of do_read_target, and send_to_client. */
    method HandleFromTarget(from: Endpoint, data: seq<byte>)
      requires Valid() && !threw && (state == Proxy || state == Destroy)
      modifies this
      ensures Valid() && View() == Step(gate, old(View()), FromTarget(from, data))
    {
      var sid: u16 := 0;
      if from in targetToSession {
        sid := targetToSession[from];
      }
      var frame := F.Generate(F.Literal(from), data);
      if state != Destroy {
        replies := replies + [PutU16(sid) + frame];
      }
    }
  }
}
