/**
 The SOCKS5 CONNECT path end to end: application, client session (Client/Session.cpp), TLS
 stream, server session (Server/Session.cpp), target, in both directions.

 A state is what has been read from and written to each socket, plus the phase of each session.
 The environment chooses the size of every read and of every partial write, and may fail either
 session at any moment. Bytes of a write that was outstanding then may still arrive afterwards. The
 TLS stream is a reliable byte stream in each direction.
 */
module StreamTunnel {
  import opened Bytes
  import V = VRequests
  import Trojan = TrojanCodec
  import R = Relay

  /** One direction of the client's relay: it reads a buffer, then writes all of it. */
  datatype Leg = Reading | Writing(rest: seq<byte>)

  datatype Client =
    | Requesting(rest: seq<byte>)             // the V request is being written
    | Replying                                // the SOCKS5 reply is being written
    | Forwarding(down: Leg, up: Leg)
    | ClientGone(late: seq<byte>, lateUp: seq<byte>)

  datatype Server =
    | Awaiting                                // before the first read
    | Connecting(request: V.Request, packed: seq<byte>)
    | WritingFirst(rest: seq<byte>)           // the bytes that came with the request
    | Relaying(first: seq<byte>, relayDown: R.Pipe, relayUp: R.Pipe)
    | OtherProtocol                           // a Trojan request was recognised
    | ServerGone(late: seq<byte>, lateUp: seq<byte>)

  /** A session that ended with no write outstanding. */
  const GONE := ServerGone([], [])

  /**
   What does not change: the request, the passwords the server allows, both byte streams to be
   carried, and the buffer sizes.
   */
  datatype Setup = Setup(
    request: V.Request, hello: seq<byte>, allowed: set<seq<byte>>,
    app: seq<byte>, target: seq<byte>, cap: nat, max: nat)
  {
    ghost predicate Valid() {
      V.WellFormed(request) && hello == V.Encode(request) && 1 <= max <= cap
    }
  }

  datatype Sys = Sys(
    client: Client,
    server: Server,
    connected: Option<(seq<byte>, u16)>,      // the host and port the server connected to
    appRead: nat,                             // down: bytes of the application's stream read by the client,
    written: seq<byte>,                       //   written by it to the TLS stream,
    srvRead: seq<byte>,                       //   read from there by the server,
    targetGot: seq<byte>,                     //   and received by the target
    upWritten: seq<byte>,                     // up: written by the server to the TLS stream,
    upRead: nat,                              //   how much of that the client has read,
    appGot: seq<byte>)                        //   and received by the application after the SOCKS5 reply

  function Initial(setup: Setup): Sys {
    Sys(Requesting(setup.hello), Awaiting, None, 0, [], [], [], [], 0, [])
  }

  datatype Event =
    | ClientWrites(k: nat)                    // part of a pending write to the TLS stream
    | ClientReplies
    | ClientReads(n: nat)
    | ClientReadsUp(n: nat)
    | ClientWritesUp(k: nat)
    | ServerReadsFirst(n: nat)
    | ServerConnects
    | ServerWritesFirst(k: nat)
    | RelaysDown(ev: R.Event)
    | RelaysUp(ev: R.Event)
    | ClientFails
    | ServerFails
    | ClientLate(k: nat)                      // bytes of a write outstanding at the end still arrive:
    | ClientLateUp(k: nat)                    //   in the TLS stream, at the application,
    | ServerLate(k: nat)                      //   at the target,
    | ServerLateUp(k: nat)                    //   in the TLS stream

  /** The bytes the server has not read yet. */
  function Wire(s: Sys): seq<byte> {
    if |s.srvRead| <= |s.written| then s.written[|s.srvRead|..] else []
  }

  predicate Enabled(setup: Setup, s: Sys, ev: Event) {
    match ev
    case ClientWrites(k) =>
      || (s.client.Requesting? && 1 <= k <= |s.client.rest|)
      || (s.client.Forwarding? && s.client.down.Writing? && 1 <= k <= |s.client.down.rest|)
    case ClientReplies => s.client.Replying?
    case ClientReads(n) =>
      s.client.Forwarding? && s.client.down.Reading? && 1 <= n <= setup.max && s.appRead + n <= |setup.app|
    case ClientReadsUp(n) =>
      s.client.Forwarding? && s.client.up.Reading? && 1 <= n <= setup.max && s.upRead + n <= |s.upWritten|
    case ClientWritesUp(k) => s.client.Forwarding? && s.client.up.Writing? && 1 <= k <= |s.client.up.rest|
    case ServerReadsFirst(n) => s.server.Awaiting? && 1 <= n <= setup.max && n <= |Wire(s)|
    case ServerConnects => s.server.Connecting?
    case ServerWritesFirst(k) => s.server.WritingFirst? && 1 <= k <= |s.server.rest|
    case RelaysDown(e) =>
      && s.server.Relaying? && R.Enabled(setup.cap, setup.max, s.server.relayDown, e)
      && (e.ReadDone? ==> e.chunk <= Wire(s))
    case RelaysUp(e) =>
      && s.server.Relaying? && R.Enabled(setup.cap, setup.max, s.server.relayUp, e)
      && (e.ReadDone? ==> s.server.relayUp.received + e.chunk <= setup.target)
    case ClientFails => true
    case ServerFails => true
    case ClientLate(k) => s.client.ClientGone? && k <= |s.client.late|
    case ClientLateUp(k) => s.client.ClientGone? && k <= |s.client.lateUp|
    case ServerLate(k) => s.server.ServerGone? && k <= |s.server.late|
    case ServerLateUp(k) => s.server.ServerGone? && k <= |s.server.lateUp|
  }

  /**
   handle_custom_protocol: what the server makes of its first read. A request whose inner lengths
   point outside the buffer counts as a failed session; this client never sends one.
   */
  function FirstMessage(chunk: seq<byte>, allowed: set<seq<byte>>): Server {
    if V.IsVProtocol(chunk) then
      match V.Decode(chunk)
      case Accepted(request, packed) => if request.password in allowed then Connecting(request, packed) else GONE
      case _ => GONE
    else
      match Trojan.ReadRequest(chunk)
      case Some(request) => if request.password in allowed then OtherProtocol else GONE
      case None => GONE
  }

  function WriteLeg(rest: seq<byte>, k: nat): Leg
    requires k <= |rest|
  {
    if k == |rest| then Reading else Writing(rest[k..])
  }

  /** destroy() of either session: what an outstanding write still holds may arrive later. */
  function EndClient(c: Client): Client {
    match c
    case Requesting(rest) => ClientGone(rest, [])
    case Replying => ClientGone([], [])
    case Forwarding(down, up) => ClientGone(Pending(down), Pending(up))
    case ClientGone(_, _) => c
  }

  function EndServer(v: Server): Server {
    match v
    case WritingFirst(rest) => ServerGone(rest, [])
    case Relaying(_, down, up) => ServerGone(Offered(down), Offered(up))
    case ServerGone(_, _) => v
    case _ => GONE
  }

  function Pending(leg: Leg): seq<byte> {
    if leg.Reading? then [] else leg.rest
  }

  function Offered(p: R.Pipe): seq<byte> {
    if p.offered.Some? then p.offered.value else []
  }

  /** The server's relay took a step: it read from the TLS stream, or wrote to the target. */
  function AfterDown(s: Sys, e: R.Event, next: R.Pipe): Sys
    requires s.server.Relaying?
    requires e.SendDone? ==> s.server.relayDown.offered.Some? && e.k <= |s.server.relayDown.offered.value|
  {
    s.(server := s.server.(relayDown := next),
       srvRead := if e.ReadDone? then s.srvRead + e.chunk else s.srvRead,
       targetGot := if e.SendDone? then s.targetGot + s.server.relayDown.offered.value[..e.k] else s.targetGot)
  }

  /** The same for the other direction: it read from the target, or wrote to the TLS stream. */
  function AfterUp(s: Sys, e: R.Event, next: R.Pipe): Sys
    requires s.server.Relaying?
    requires e.SendDone? ==> s.server.relayUp.offered.Some? && e.k <= |s.server.relayUp.offered.value|
  {
    s.(server := s.server.(relayUp := next),
       upWritten := if e.SendDone? then s.upWritten + s.server.relayUp.offered.value[..e.k] else s.upWritten)
  }

  function Step(setup: Setup, s: Sys, ev: Event): Sys
    requires Enabled(setup, s, ev)
  {
    match ev
    case ClientWrites(k) =>
      if s.client.Requesting? then
        s.(written := s.written + s.client.rest[..k],
           client := if k == |s.client.rest| then Replying else Requesting(s.client.rest[k..]))
      else
        s.(written := s.written + s.client.down.rest[..k], client := s.client.(down := WriteLeg(s.client.down.rest, k)))
    case ClientReplies => s.(client := Forwarding(Reading, Reading))
    case ClientReads(n) =>
      s.(appRead := s.appRead + n, client := s.client.(down := Writing(setup.app[s.appRead..s.appRead + n])))
    case ClientReadsUp(n) =>
      s.(upRead := s.upRead + n, client := s.client.(up := Writing(s.upWritten[s.upRead..s.upRead + n])))
    case ClientWritesUp(k) =>
      s.(appGot := s.appGot + s.client.up.rest[..k], client := s.client.(up := WriteLeg(s.client.up.rest, k)))
    case ServerReadsFirst(n) =>
      s.(srvRead := s.srvRead + Wire(s)[..n], server := FirstMessage(Wire(s)[..n], setup.allowed))
    case ServerConnects =>
      s.(connected := Some((s.server.request.address, s.server.request.port)),
         server := if s.server.packed == [] then Relaying([], R.START, R.START) else WritingFirst(s.server.packed))
    case ServerWritesFirst(k) =>
      s.(targetGot := s.targetGot + s.server.rest[..k],
         server := if k == |s.server.rest| then Relaying(s.targetGot + s.server.rest[..k], R.START, R.START)
                   else WritingFirst(s.server.rest[k..]))
    case RelaysDown(e) => AfterDown(s, e, R.Step(setup.cap, setup.max, s.server.relayDown, e))
    case RelaysUp(e) => AfterUp(s, e, R.Step(setup.cap, setup.max, s.server.relayUp, e))
    case ClientFails => s.(client := EndClient(s.client))
    case ServerFails => s.(server := EndServer(s.server))
    case ClientLate(k) =>
      s.(written := s.written + s.client.late[..k], client := s.client.(late := s.client.late[k..]))
    case ClientLateUp(k) =>
      s.(appGot := s.appGot + s.client.lateUp[..k], client := s.client.(lateUp := s.client.lateUp[k..]))
    case ServerLate(k) =>
      s.(targetGot := s.targetGot + s.server.late[..k], server := s.server.(late := s.server.late[k..]))
    case ServerLateUp(k) =>
      s.(upWritten := s.upWritten + s.server.lateUp[..k], server := s.server.(lateUp := s.server.lateUp[k..]))
  }

  /** Down, client side: what was written to the TLS stream is the request and then what the application sent. */
  ghost predicate ClientDown(setup: Setup, s: Sys)
  {
    var sent := setup.hello + setup.app[..Least(s.appRead, |setup.app|)];
    && s.appRead <= |setup.app|
    && match s.client
       case Requesting(rest) => s.appRead == 0 && s.written + rest == sent && rest != []
       case Replying => s.appRead == 0 && s.written == sent
       case Forwarding(down, _) => s.written + Pending(down) == sent && Busy(down)
       case ClientGone(late, _) => s.written + late <= sent
  }

  function Least(a: nat, b: nat): nat {
    if a < b then a else b
  }

  /** A leg that writes has something to write. */
  predicate Busy(leg: Leg) {
    leg.Writing? ==> leg.rest != []
  }

  /** Down, server side: the request was read whole, and the rest of what was read is at the target or on its way. */
  ghost predicate ServerDown(setup: Setup, s: Sys)
  {
    && s.srvRead <= s.written
    && match s.server
       case Awaiting => s.srvRead == [] && s.targetGot == []
       case Connecting(r, packed) => r == setup.request && s.srvRead == setup.hello + packed && s.targetGot == []
       case WritingFirst(rest) => s.srvRead == setup.hello + (s.targetGot + rest)
       case Relaying(first, down, _) =>
         && s.srvRead == setup.hello + (first + down.received)
         && s.targetGot == first + down.delivered
         && R.Inv(setup.cap, setup.max, down)
       case OtherProtocol => false
       case ServerGone(late, _) => s.targetGot + late == [] || setup.hello + (s.targetGot + late) <= s.srvRead
  }

  /** Up: bytes of the target, in order, at each stage. */
  ghost predicate BothUp(setup: Setup, s: Sys) {
    && s.upWritten <= setup.target
    && (s.server.ServerGone? ==> s.upWritten + s.server.lateUp <= setup.target)
    && s.upRead <= |s.upWritten|
    && (s.server.Relaying? ==>
          && R.Inv(setup.cap, setup.max, s.server.relayUp)
          && s.upWritten == s.server.relayUp.delivered
          && s.server.relayUp.received <= setup.target)
    && (s.server.Awaiting? || s.server.Connecting? || s.server.WritingFirst? ==> s.upWritten == [])
    && (if s.client.Forwarding? then s.appGot + Pending(s.client.up) == s.upWritten[..s.upRead] && Busy(s.client.up)
        else if s.client.ClientGone? then s.appGot + s.client.lateUp <= s.upWritten
        else s.appGot == [] && s.upRead == 0)
  }

  /** The server connects to nothing but the requested target. */
  ghost predicate Connected(setup: Setup, s: Sys) {
    && (s.connected.Some? ==> s.connected.value == (setup.request.address, setup.request.port))
    && (s.server.Connecting? ==> s.server.request == setup.request)
    && (s.server.WritingFirst? || s.server.Relaying? || s.targetGot != [] || s.upWritten != [] ==> s.connected.Some?)
    && (s.server.ServerGone? && (s.server.late != [] || s.server.lateUp != []) ==> s.connected.Some?)
  }

  ghost predicate Inv(setup: Setup, s: Sys) {
    ClientDown(setup, s) && ServerDown(setup, s) && BothUp(setup, s) && Connected(setup, s)
  }

  /** A partial write moves bytes from the pending part to the written part. */
  lemma Moves(a: seq<byte>, rest: seq<byte>, k: nat)
    requires k <= |rest|
    ensures a + rest[..k] + rest[k..] == a + rest
    ensures a <= a + rest[..k]
  {
    assert rest == rest[..k] + rest[k..];
  }

  lemma ClientWritesKeeps(setup: Setup, s: Sys, k: nat)
    requires Inv(setup, s) && Enabled(setup, s, ClientWrites(k))
    ensures Inv(setup, Step(setup, s, ClientWrites(k)))
  {
    var rest := if s.client.Requesting? then s.client.rest else s.client.down.rest;
    Moves(s.written, rest, k);
    var next := Step(setup, s, ClientWrites(k));
    assert rest[..|rest|] == rest;
    assert s.srvRead <= s.written <= next.written;
  }

  lemma ClientReadsKeeps(setup: Setup, s: Sys, n: nat)
    requires Inv(setup, s) && Enabled(setup, s, ClientReads(n))
    ensures Inv(setup, Step(setup, s, ClientReads(n)))
  {
    var before, chunk := setup.app[..s.appRead], setup.app[s.appRead..s.appRead + n];
    assert setup.app[..s.appRead + n] == before + chunk;
    assert s.written == s.written + [] == setup.hello + before;
    assert s.written + chunk == setup.hello + (before + chunk);
  }

  lemma ClientReadsUpKeeps(setup: Setup, s: Sys, n: nat)
    requires Inv(setup, s) && Enabled(setup, s, ClientReadsUp(n))
    ensures Inv(setup, Step(setup, s, ClientReadsUp(n)))
  {
    Next(s.appGot, s.upWritten, s.upRead, n);
  }

  lemma Next(got: seq<byte>, a: seq<byte>, i: nat, n: nat)
    requires i + n <= |a| && got + [] == a[..i]
    ensures got + a[i..i + n] == a[..i + n]
  {
    assert got == a[..i];
  }

  lemma ClientWritesUpKeeps(setup: Setup, s: Sys, k: nat)
    requires Inv(setup, s) && Enabled(setup, s, ClientWritesUp(k))
    ensures Inv(setup, Step(setup, s, ClientWritesUp(k)))
  {
    Moves(s.appGot, s.client.up.rest, k);
    assert k == |s.client.up.rest| ==> s.client.up.rest[..k] == s.client.up.rest;
    assert BothUp(setup, Step(setup, s, ClientWritesUp(k)));
  }

  /**
   The first read of the client's stream leads to a connection exactly if it holds the whole request
   and the server allows the password; the request comes out as it was, and what followed it in the
   same read is kept. A cut request is recognised as such.
   */
  lemma FirstReadHoldsRequest(setup: Setup, chunk: seq<byte>, sent: seq<byte>)
    requires setup.Valid() && chunk <= setup.hello + sent
    ensures FirstMessage(chunk, setup.allowed)
            == if setup.hello <= chunk && setup.request.password in setup.allowed
               then Connecting(setup.request, chunk[|setup.hello|..]) else GONE
  {
    if |chunk| >= |setup.hello| {
      Whole(setup.hello, chunk);
      WholeRequest(setup.request, chunk[|setup.hello|..], setup.allowed);
    } else {
      assert chunk == setup.hello[..|chunk|];
      CutRequest(setup.request, setup.hello, |chunk|, setup.allowed);
    }
  }

  lemma WholeRequest(request: V.Request, extra: seq<byte>, allowed: set<seq<byte>>)
    requires V.WellFormed(request)
    ensures FirstMessage(V.Encode(request) + extra, allowed)
            == if request.password in allowed then Connecting(request, extra) else GONE
  {
    V.DecodeEncode(request, extra);
    V.HeaderAnnounces(request, V.Encode(request) + extra);
  }

  lemma CutRequest(request: V.Request, hello: seq<byte>, n: nat, allowed: set<seq<byte>>)
    requires V.WellFormed(request) && hello == V.Encode(request) && n < |hello|
    ensures FirstMessage(hello[..n], allowed) == GONE
  {
    var chunk := hello[..n];
    V.StrictPrefixRejected(request, n);
    assert hello[..10] == V.IDENTIFIER;
    if n < 10 {
      assert forall i :: 0 <= i < n ==> chunk[i] == V.IDENTIFIER[i] != LF;
      Trojan.NoCrlfNoRequest(chunk);
    } else {
      assert chunk[..10] == hello[..10];
    }
  }

  /** A Trojan request is told from a V request by its first ten bytes, and is held to the same passwords. */
  lemma TrojanRequestDecides(password: seq<byte>, name: seq<byte>, port: u16, command: Trojan.Command,
                             payload: seq<byte>, allowed: set<seq<byte>>)
    requires Trojan.CrlfAt(password) == |password| && 1 <= |name| <= 255
    ensures var chunk := Trojan.PutRequest(password, name, port, command, payload);
            !(V.IDENTIFIER <= chunk) ==>
              FirstMessage(chunk, allowed) == if password in allowed then OtherProtocol else GONE
  {
    Trojan.ReadPutRequest(password, name, port, command, payload);
  }

  lemma ServerReadsFirstKeeps(setup: Setup, s: Sys, n: nat)
    requires setup.Valid() && Inv(setup, s) && Enabled(setup, s, ServerReadsFirst(n))
    ensures Inv(setup, Step(setup, s, ServerReadsFirst(n)))
  {
    var chunk, sent := Wire(s)[..n], setup.app[..s.appRead];
    assert s.written <= setup.hello + sent;
    assert chunk <= s.written <= setup.hello + sent;
    FirstReadHoldsRequest(setup, chunk, sent);
    FirstReadKeeps(setup, s, chunk, FirstMessage(chunk, setup.allowed));
  }

  lemma FirstReadKeeps(setup: Setup, s: Sys, chunk: seq<byte>, server: Server)
    requires Inv(setup, s) && s.server.Awaiting? && chunk <= s.written
    requires server == GONE || (setup.hello <= chunk && server == Connecting(setup.request, chunk[|setup.hello|..]))
    ensures Inv(setup, s.(srvRead := s.srvRead + chunk, server := server))
  {
    assert s.srvRead + chunk == chunk;
    if server != GONE {
      Whole(setup.hello, chunk);
    }
  }

  lemma Whole(a: seq<byte>, b: seq<byte>)
    requires a <= b
    ensures b == a + b[|a|..]
  {
  }

  lemma ServerStartsKeeps(setup: Setup, s: Sys, ev: Event)
    requires setup.Valid() && Inv(setup, s) && Enabled(setup, s, ev) && (ev.ServerConnects? || ev.ServerWritesFirst?)
    ensures Inv(setup, Step(setup, s, ev))
  {
    assert R.Inv(setup.cap, setup.max, R.START);
    if ev.ServerWritesFirst? {
      Moves(s.targetGot, s.server.rest, ev.k);
      assert s.server.rest[..|s.server.rest|] == s.server.rest;
    }
  }

  lemma AfterDownKeeps(setup: Setup, s: Sys, e: R.Event, next: R.Pipe)
    requires Inv(setup, s) && s.server.Relaying? && (e.ReadDone? ==> e.chunk <= Wire(s))
    requires R.Logs(s.server.relayDown, e, next) && R.Inv(setup.cap, setup.max, next)
    ensures Inv(setup, AfterDown(s, e, next))
  {
    var first, down := s.server.first, s.server.relayDown;
    if e.ReadDone? {
      assert s.written == s.srvRead + Wire(s);
      assert s.srvRead + e.chunk <= s.written;
      assert s.srvRead + e.chunk == setup.hello + (first + (down.received + e.chunk));
    } else {
      var got := down.offered.value[..e.k];
      assert s.targetGot + got == first + (down.delivered + got);
    }
  }

  lemma AfterUpKeeps(setup: Setup, s: Sys, e: R.Event, next: R.Pipe)
    requires Inv(setup, s) && s.server.Relaying?
             && (e.ReadDone? ==> s.server.relayUp.received + e.chunk <= setup.target)
    requires R.Logs(s.server.relayUp, e, next) && R.Inv(setup.cap, setup.max, next)
    ensures Inv(setup, AfterUp(s, e, next))
  {
    assert next.delivered <= next.received <= setup.target;
    var after := AfterUp(s, e, next);
    assert s.upWritten <= after.upWritten;
    assert after.upWritten[..s.upRead] == s.upWritten[..s.upRead];
  }

  lemma RelaysKeep(setup: Setup, s: Sys, ev: Event)
    requires setup.Valid() && Inv(setup, s) && Enabled(setup, s, ev) && (ev.RelaysDown? || ev.RelaysUp?)
    ensures Inv(setup, Step(setup, s, ev))
  {
    if ev.RelaysDown? {
      R.StepLogs(setup.cap, setup.max, s.server.relayDown, ev.ev);
      AfterDownKeeps(setup, s, ev.ev, R.Step(setup.cap, setup.max, s.server.relayDown, ev.ev));
    } else {
      R.StepLogs(setup.cap, setup.max, s.server.relayUp, ev.ev);
      AfterUpKeeps(setup, s, ev.ev, R.Step(setup.cap, setup.max, s.server.relayUp, ev.ev));
    }
  }

  /** A session that fails leaves behind what was already delivered, and what an outstanding write still holds. */
  lemma ServerFailureKeeps(setup: Setup, s: Sys)
    requires Inv(setup, s)
    ensures Inv(setup, Step(setup, s, ServerFails))
  {
    if s.server.Relaying? {
      var first, down, up := s.server.first, s.server.relayDown, s.server.relayUp;
      assert Offered(down) <= down.queue && Offered(up) <= up.queue;
      Under(first + down.delivered, Offered(down), down.queue);
      assert first + down.received == first + down.delivered + down.queue;
      Under(setup.hello, s.targetGot + Offered(down), first + down.received);
      Under(up.delivered, Offered(up), up.queue);
    }
  }

  lemma Under(a: seq<byte>, b: seq<byte>, c: seq<byte>)
    requires b <= c
    ensures a + b <= a + c
  {
  }

  lemma ClientFailureKeeps(setup: Setup, s: Sys)
    requires Inv(setup, s)
    ensures Inv(setup, Step(setup, s, ClientFails))
  {
    if s.client.Forwarding? {
      assert s.appGot + Pending(s.client.up) <= s.upWritten;
    } else if s.client.Replying? {
      assert s.written + [] == s.written;
    }
  }

  lemma ClientLateKeeps(setup: Setup, s: Sys, ev: Event)
    requires Inv(setup, s) && Enabled(setup, s, ev) && (ev.ClientLate? || ev.ClientLateUp?)
    ensures Inv(setup, Step(setup, s, ev))
  {
    if ev.ClientLate? {
      Moves(s.written, s.client.late, ev.k);
      assert s.srvRead <= s.written <= s.written + s.client.late[..ev.k];
    } else {
      Moves(s.appGot, s.client.lateUp, ev.k);
    }
  }

  lemma ServerLateKeeps(setup: Setup, s: Sys, k: nat)
    requires Inv(setup, s) && Enabled(setup, s, ServerLate(k))
    ensures Inv(setup, Step(setup, s, ServerLate(k)))
  {
    Moves(s.targetGot, s.server.late, k);
  }

  lemma ServerLateUpKeeps(setup: Setup, s: Sys, k: nat)
    requires Inv(setup, s) && Enabled(setup, s, ServerLateUp(k))
    ensures Inv(setup, Step(setup, s, ServerLateUp(k)))
  {
    Moves(s.upWritten, s.server.lateUp, k);
    var after := s.upWritten + s.server.lateUp[..k];
    assert after[..s.upRead] == s.upWritten[..s.upRead];
    assert s.client.ClientGone? ==> s.appGot + s.client.lateUp <= s.upWritten <= after;
  }

  lemma StepKeeps(setup: Setup, s: Sys, ev: Event)
    requires setup.Valid() && Inv(setup, s) && Enabled(setup, s, ev)
    ensures Inv(setup, Step(setup, s, ev))
  {
    if AtServer(ev) {
      ServerStepKeeps(setup, s, ev);
    } else {
      ClientStepKeeps(setup, s, ev);
    }
  }

  predicate AtServer(ev: Event) {
    || ev.ServerReadsFirst? || ev.ServerConnects? || ev.ServerWritesFirst? || ev.RelaysDown? || ev.RelaysUp?
    || ev.ServerFails? || ev.ServerLate? || ev.ServerLateUp?
  }

  lemma ClientStepKeeps(setup: Setup, s: Sys, ev: Event)
    requires setup.Valid() && Inv(setup, s) && Enabled(setup, s, ev) && !AtServer(ev)
    ensures Inv(setup, Step(setup, s, ev))
  {
    match ev
    case ClientWrites(k) => ClientWritesKeeps(setup, s, k);
    case ClientReplies =>
    case ClientReads(n) => ClientReadsKeeps(setup, s, n);
    case ClientReadsUp(n) => ClientReadsUpKeeps(setup, s, n);
    case ClientWritesUp(k) => ClientWritesUpKeeps(setup, s, k);
    case ClientFails => ClientFailureKeeps(setup, s);
    case ClientLate(_) => ClientLateKeeps(setup, s, ev);
    case ClientLateUp(_) => ClientLateKeeps(setup, s, ev);
  }

  lemma ServerStepKeeps(setup: Setup, s: Sys, ev: Event)
    requires setup.Valid() && Inv(setup, s) && Enabled(setup, s, ev) && AtServer(ev)
    ensures Inv(setup, Step(setup, s, ev))
  {
    match ev
    case ServerReadsFirst(n) => ServerReadsFirstKeeps(setup, s, n);
    case ServerConnects => ServerStartsKeeps(setup, s, ev);
    case ServerWritesFirst(_) => ServerStartsKeeps(setup, s, ev);
    case RelaysDown(_) => RelaysKeep(setup, s, ev);
    case RelaysUp(_) => RelaysKeep(setup, s, ev);
    case ServerFails => ServerFailureKeeps(setup, s);
    case ServerLate(k) => ServerLateKeeps(setup, s, k);
    case ServerLateUp(k) => ServerLateUpKeeps(setup, s, k);
  }

  ghost predicate Legal(setup: Setup, s: Sys, evs: seq<Event>)
    decreases |evs|
  {
    evs == [] || (Enabled(setup, s, evs[0]) && Legal(setup, Step(setup, s, evs[0]), evs[1..]))
  }

  ghost function Run(setup: Setup, s: Sys, evs: seq<Event>): Sys
    requires Legal(setup, s, evs)
    decreases |evs|
  {
    if evs == [] then s else Run(setup, Step(setup, s, evs[0]), evs[1..])
  }

  lemma OneMore(setup: Setup, s: Sys, ev: Event, rest: seq<Event>)
    requires Enabled(setup, s, ev) && Legal(setup, Step(setup, s, ev), rest)
    ensures Legal(setup, s, [ev] + rest) && Run(setup, s, [ev] + rest) == Run(setup, Step(setup, s, ev), rest)
  {
    assert ([ev] + rest)[1..] == rest;
  }

  lemma {:induction false} RunKeeps(setup: Setup, s: Sys, evs: seq<Event>)
    requires setup.Valid() && Inv(setup, s) && Legal(setup, s, evs)
    ensures Inv(setup, Run(setup, s, evs))
    decreases |evs|
  {
    if evs != [] {
      StepKeeps(setup, s, evs[0]);
      RunKeeps(setup, Step(setup, s, evs[0]), evs[1..]);
    }
  }

  lemma InvMeansPrefixes(setup: Setup, s: Sys)
    requires setup.Valid() && Inv(setup, s)
    ensures s.targetGot <= setup.app[..s.appRead]
    ensures s.appGot <= setup.target
  {
    var sent := setup.app[..s.appRead];
    assert s.srvRead <= s.written <= setup.hello + sent;
    if s.targetGot != [] {
      assert setup.hello + s.targetGot <= s.srvRead by {
        if s.server.Relaying? {
          var first, down := s.server.first, s.server.relayDown;
          assert s.srvRead == setup.hello + (first + down.delivered) + down.queue;
        } else if s.server.ServerGone? {
          Under(setup.hello, s.targetGot, s.targetGot + s.server.late);
        }
      }
      assert setup.hello + s.targetGot <= setup.hello + sent;
      PrefixCancels(setup.hello, s.targetGot, sent);
    }
  }

  lemma PrefixCancels(a: seq<byte>, b: seq<byte>, c: seq<byte>)
    requires a + b <= a + c
    ensures b <= c
  {
    assert b == (a + b)[|a|..] && c == (a + c)[|a|..];
  }

  /**
   For every chunking of reads, every partial write and every failure: the target has received a
   prefix of what the application sent after its request, the application has received a prefix of
   what the target sent, and the server has connected to nothing but the requested host and port.
   */
  lemma EndToEnd(setup: Setup, evs: seq<Event>)
    requires setup.Valid() && Legal(setup, Initial(setup), evs)
    ensures var s := Run(setup, Initial(setup), evs);
            && s.targetGot <= setup.app
            && s.appGot <= setup.target
            && (s.connected.Some? ==> s.connected.value == (setup.request.address, setup.request.port))
            && (s.targetGot != [] || s.appGot != [] ==> s.connected.Some?)
  {
    assert setup.hello + setup.app[..0] == setup.hello;
    RunKeeps(setup, Initial(setup), evs);
    InvMeansPrefixes(setup, Run(setup, Initial(setup), evs));
  }

  /** What outstanding writes hold, towards the target and towards the application's side. */
  function ServerHolds(v: Server): (seq<byte>, seq<byte>) {
    match v
    case WritingFirst(rest) => (rest, [])
    case Relaying(_, down, up) => (Offered(down), Offered(up))
    case ServerGone(late, lateUp) => (late, lateUp)
    case _ => ([], [])
  }

  function ClientHolds(c: Client): (seq<byte>, seq<byte>) {
    match c
    case Requesting(rest) => (rest, [])
    case Replying => ([], [])
    case Forwarding(down, up) => (Pending(down), Pending(up))
    case ClientGone(late, lateUp) => (late, lateUp)
  }

  /** In whatever state a session ends, what it had handed to a socket can still arrive, any part of it. */
  lemma ServerLateArrives(setup: Setup, s: Sys, k: nat, up: nat)
    requires k <= |ServerHolds(s.server).0| && up <= |ServerHolds(s.server).1|
    ensures var evs := [ServerFails, ServerLate(k), ServerLateUp(up)];
            && Legal(setup, s, evs)
            && Run(setup, s, evs).targetGot == s.targetGot + ServerHolds(s.server).0[..k]
            && Run(setup, s, evs).upWritten == s.upWritten + ServerHolds(s.server).1[..up]
  {
    var gone := Step(setup, s, ServerFails);
    EndedHolds(s.server);
    var late := Step(setup, gone, ServerLate(k));
    OneMore(setup, late, ServerLateUp(up), []);
    OneMore(setup, gone, ServerLate(k), [ServerLateUp(up)]);
    OneMore(setup, s, ServerFails, [ServerLate(k), ServerLateUp(up)]);
  }

  lemma EndedHolds(v: Server)
    ensures EndServer(v) == ServerGone(ServerHolds(v).0, ServerHolds(v).1)
  {
  }

  lemma ClientLateArrives(setup: Setup, s: Sys, k: nat, up: nat)
    requires k <= |ClientHolds(s.client).0| && up <= |ClientHolds(s.client).1|
    ensures var evs := [ClientFails, ClientLate(k), ClientLateUp(up)];
            && Legal(setup, s, evs)
            && Run(setup, s, evs).written == s.written + ClientHolds(s.client).0[..k]
            && Run(setup, s, evs).appGot == s.appGot + ClientHolds(s.client).1[..up]
  {
    var gone := Step(setup, s, ClientFails);
    var late := Step(setup, gone, ClientLate(k));
    OneMore(setup, late, ClientLateUp(up), []);
    OneMore(setup, gone, ClientLate(k), [ClientLateUp(up)]);
    OneMore(setup, s, ClientFails, [ClientLate(k), ClientLateUp(up)]);
  }

  /**
   While both sessions forward, every byte the client read from the application is accounted for,
   in order: received by the target, in the server's ring, in the TLS stream, or being written by
   the client. The same holds for every byte the server read from the target.
   */
  lemma EveryByteAccountedFor(setup: Setup, evs: seq<Event>)
    requires setup.Valid() && Legal(setup, Initial(setup), evs)
    requires var s := Run(setup, Initial(setup), evs); s.client.Forwarding? && s.server.Relaying?
    ensures var s := Run(setup, Initial(setup), evs);
            s.appRead <= |setup.app|
              && setup.app[..s.appRead] == s.targetGot + s.server.relayDown.queue + Wire(s) + Pending(s.client.down)
    ensures var s := Run(setup, Initial(setup), evs);
            s.upRead <= |s.upWritten| &&
            s.server.relayUp.received == s.appGot + Pending(s.client.up) + s.upWritten[s.upRead..]
              + s.server.relayUp.queue
  {
    assert setup.hello + setup.app[..0] == setup.hello;
    RunKeeps(setup, Initial(setup), evs);
    DownAccounted(setup, Run(setup, Initial(setup), evs));
  }

  lemma DownAccounted(setup: Setup, s: Sys)
    requires Inv(setup, s) && s.client.Forwarding? && s.server.Relaying?
    ensures setup.app[..s.appRead] == s.targetGot + s.server.relayDown.queue + Wire(s) + Pending(s.client.down)
  {
    var down := s.server.relayDown;
    Accounted(setup.hello, s.server.first, down.delivered, down.queue, Wire(s), Pending(s.client.down),
              s.srvRead, s.written);
    PrefixCancels(setup.hello, s.targetGot + down.queue + Wire(s) + Pending(s.client.down), setup.app[..s.appRead]);
  }

  /** The stages of the stream put together again. */
  lemma Accounted(hello: seq<byte>, first: seq<byte>, delivered: seq<byte>, queue: seq<byte>, wire: seq<byte>,
                  pending: seq<byte>, read: seq<byte>, written: seq<byte>)
    requires read == hello + (first + (delivered + queue)) && read <= written && wire == written[|read|..]
    ensures written + pending == hello + (first + delivered + queue + wire + pending)
  {
    assert written == read + wire;
  }

  /** Both sessions forward: nothing has failed, and the handshakes are over. */
  predicate Flowing(s: Sys) {
    s.client.Forwarding? && s.server.Relaying?
  }

  /** The event moves at least one byte one step further. */
  predicate Moving(ev: Event) {
    match ev
    case ClientWrites(_) => true
    case ClientReads(_) => true
    case ClientReadsUp(_) => true
    case ClientWritesUp(_) => true
    case RelaysDown(e) => if e.ReadDone? then e.chunk != [] else e.k >= 1
    case RelaysUp(e) => if e.ReadDone? then e.chunk != [] else e.k >= 1
    case _ => false
  }

  /** The event takes bytes from the application or from the target. */
  predicate FromSource(ev: Event) {
    ev.ClientReads? || (ev.RelaysUp? && ev.ev.ReadDone?)
  }

  /** How many steps the bytes of both streams still have before them. */
  function Left(setup: Setup, s: Sys): int
    requires Flowing(s)
  {
    4 * (|setup.app| - s.appRead) + 3 * |Pending(s.client.down)| + 2 * (|s.written| - |s.srvRead|)
      + |s.server.relayDown.queue|
    + 4 * (|setup.target| - |s.server.relayUp.received|) + 3 * |s.server.relayUp.queue|
    + 2 * (|s.upWritten| - s.upRead) + |Pending(s.client.up)|
  }

  /** Every event that moves a byte brings the end nearer, and the streams keep flowing. */
  lemma StepMoves(setup: Setup, s: Sys, ev: Event)
    requires setup.Valid() && Inv(setup, s) && Flowing(s) && Enabled(setup, s, ev) && Moving(ev)
    ensures var next := Step(setup, s, ev); Inv(setup, next) && Flowing(next) && Left(setup, next) < Left(setup, s)
  {
    StepKeeps(setup, s, ev);
    if ev.RelaysDown? {
      DownMoves(setup, s, ev.ev);
    } else if ev.RelaysUp? {
      UpMoves(setup, s, ev.ev);
    } else {
      ClientMoves(setup, s, ev);
    }
  }

  lemma ClientMoves(setup: Setup, s: Sys, ev: Event)
    requires Flowing(s) && Enabled(setup, s, ev) && Moving(ev) && !ev.RelaysDown? && !ev.RelaysUp?
    ensures var next := Step(setup, s, ev); Flowing(next) && Left(setup, next) < Left(setup, s)
  {
  }

  lemma DownMoves(setup: Setup, s: Sys, e: R.Event)
    requires setup.Valid() && Inv(setup, s) && Flowing(s) && Enabled(setup, s, RelaysDown(e)) && Moving(RelaysDown(e))
    ensures var next := Step(setup, s, RelaysDown(e)); Flowing(next) && Left(setup, next) < Left(setup, s)
  {
    QueueLength(setup.cap, setup.max, s.server.relayDown, e);
  }

  lemma UpMoves(setup: Setup, s: Sys, e: R.Event)
    requires setup.Valid() && Inv(setup, s) && Flowing(s) && Enabled(setup, s, RelaysUp(e)) && Moving(RelaysUp(e))
    ensures var next := Step(setup, s, RelaysUp(e)); Flowing(next) && Left(setup, next) < Left(setup, s)
  {
    QueueLength(setup.cap, setup.max, s.server.relayUp, e);
  }

  lemma QueueLength(cap: nat, max: nat, p: R.Pipe, e: R.Event)
    requires 1 <= max <= cap && R.Inv(cap, max, p) && R.Enabled(cap, max, p, e)
    ensures var q := R.Step(cap, max, p, e);
            if e.ReadDone? then |q.received| == |p.received| + |e.chunk| && |q.queue| == |p.queue| + |e.chunk|
            else |q.received| == |p.received| && |q.queue| + e.k == |p.queue|
  {
    R.StepLogs(cap, max, p, e);
  }

  ghost predicate AllMoving(evs: seq<Event>) {
    forall i :: 0 <= i < |evs| ==> Moving(evs[i])
  }

  lemma {:induction false} RunMoves(setup: Setup, s: Sys, evs: seq<Event>)
    requires setup.Valid() && Inv(setup, s) && Flowing(s) && Legal(setup, s, evs) && AllMoving(evs)
    ensures var end := Run(setup, s, evs);
            Inv(setup, end) && Flowing(end) && 0 <= Left(setup, end) <= Left(setup, s) - |evs|
    decreases |evs|
  {
    if evs == [] {
      SomethingLeft(setup, s);
    } else {
      var next := Step(setup, s, evs[0]);
      StepMoves(setup, s, evs[0]);
      assert AllMoving(evs[1..]);
      RunMoves(setup, next, evs[1..]);
    }
  }

  lemma SomethingLeft(setup: Setup, s: Sys)
    requires Inv(setup, s) && Flowing(s)
    ensures Left(setup, s) >= 0
  {
    assert s.srvRead <= s.written && s.server.relayUp.received <= setup.target;
  }

  /** No byte that was read can move. */
  ghost predicate Drained(setup: Setup, s: Sys) {
    forall ev :: Moving(ev) && !FromSource(ev) ==> !Enabled(setup, s, ev)
  }

  /** No byte at all can move. */
  ghost predicate Still(setup: Setup, s: Sys) {
    forall ev :: Moving(ev) ==> !Enabled(setup, s, ev)
  }

  /** A ring that cannot send is empty, and then its direction reads. */
  lemma RingDrained(cap: nat, max: nat, p: R.Pipe)
    requires 1 <= max <= cap && R.Inv(cap, max, p) && !R.Enabled(cap, max, p, R.SendDone(1, 1))
    ensures p.queue == [] && p.pendingReads == 1 && !p.sending
  {
  }

  lemma ReadsOne(cap: nat, max: nat, p: R.Pipe, chunk: seq<byte>)
    requires 1 <= max <= cap && p.queue == [] && p.pendingReads == 1 && |chunk| == 1
    ensures R.Enabled(cap, max, p, R.ReadDone(chunk, 1))
  {
  }

  /** What nothing holds back has arrived. */
  lemma DrainedDown(setup: Setup, s: Sys)
    requires setup.Valid() && Inv(setup, s) && Flowing(s) && Drained(setup, s)
    ensures s.targetGot == setup.app[..s.appRead]
  {
    var down := s.server.relayDown;
    assert Moving(RelaysDown(R.SendDone(1, 1))) && Moving(ClientWrites(1));
    RingDrained(setup.cap, setup.max, down);
    if Wire(s) != [] {
      var e := R.ReadDone(Wire(s)[..1], 1);
      ReadsOne(setup.cap, setup.max, down, Wire(s)[..1]);
      assert Moving(RelaysDown(e)) && Enabled(setup, s, RelaysDown(e));
    }
    assert Pending(s.client.down) == [];
    DownAccounted(setup, s);
  }

  lemma DrainedUp(setup: Setup, s: Sys)
    requires setup.Valid() && Inv(setup, s) && Flowing(s) && Drained(setup, s)
    ensures s.appGot == s.server.relayUp.received && s.server.relayUp.queue == [] && s.server.relayUp.pendingReads == 1
  {
    assert Moving(RelaysUp(R.SendDone(1, 1))) && Moving(ClientWritesUp(1)) && Moving(ClientReadsUp(1));
    RingDrained(setup.cap, setup.max, s.server.relayUp);
    assert s.client.up.Reading?;
    assert s.upRead == |s.upWritten|;
  }

  lemma StillMeans(setup: Setup, s: Sys)
    requires setup.Valid() && Inv(setup, s) && Flowing(s) && Still(setup, s)
    ensures s.targetGot == setup.app && s.appGot == setup.target
  {
    assert Drained(setup, s);
    DrainedDown(setup, s);
    DrainedUp(setup, s);
    assert Moving(ClientReads(1)) && s.client.down.Reading?;
    assert s.appRead == |setup.app|;
    if |s.server.relayUp.received| < |setup.target| {
      TargetReadable(setup, s);
    }
  }

  /** What the target has sent and an idle direction has not read can be read. */
  lemma TargetReadable(setup: Setup, s: Sys)
    requires setup.Valid() && Inv(setup, s) && Flowing(s) && |s.server.relayUp.received| < |setup.target|
    requires s.server.relayUp.queue == [] && s.server.relayUp.pendingReads == 1
    ensures exists ev :: Moving(ev) && Enabled(setup, s, ev)
  {
    var up := s.server.relayUp;
    var chunk := setup.target[|up.received|..|up.received| + 1];
    ReadsOne(setup.cap, setup.max, up, chunk);
    var ev := RelaysUp(R.ReadDone(chunk, 1));
    assert Moving(ev) && Enabled(setup, s, ev);
  }

  /**
   Once both sessions forward and nothing fails: only so many events can move a byte, whatever their
   sizes and order. When no byte that was read can move any more, all of them have arrived; and
   when no byte at all can move, the target has everything the application sent and the
   application everything the target sent.
   */
  lemma EverythingArrives(setup: Setup, before: seq<Event>, evs: seq<Event>)
    requires setup.Valid() && Legal(setup, Initial(setup), before)
    requires var s := Run(setup, Initial(setup), before); Flowing(s) && Legal(setup, s, evs) && AllMoving(evs)
    ensures var s := Run(setup, Initial(setup), before);
            var end := Run(setup, s, evs);
            && Flowing(end) && |evs| <= Left(setup, s)
            && (Drained(setup, end) ==>
                  end.targetGot == setup.app[..Least(end.appRead, |setup.app|)]
                    && end.appGot == end.server.relayUp.received)
            && (Still(setup, end) ==> end.targetGot == setup.app && end.appGot == setup.target)
  {
    assert setup.hello + setup.app[..0] == setup.hello;
    RunKeeps(setup, Initial(setup), before);
    var s := Run(setup, Initial(setup), before);
    RunMoves(setup, s, evs);
    AtTheEnd(setup, Run(setup, s, evs));
  }

  lemma AtTheEnd(setup: Setup, end: Sys)
    requires setup.Valid() && Inv(setup, end) && Flowing(end)
    ensures Drained(setup, end) ==>
              end.targetGot == setup.app[..Least(end.appRead, |setup.app|)] && end.appGot == end.server.relayUp.received
    ensures Still(setup, end) ==> end.targetGot == setup.app && end.appGot == setup.target
  {
    if Drained(setup, end) {
      DrainedDown(setup, end);
      DrainedUp(setup, end);
    }
    if Still(setup, end) {
      StillMeans(setup, end);
    }
  }

  /** The server has taken the request: it connects, or has connected. */
  predicate Admitted(s: Sys) {
    s.server.Connecting? || s.server.WritingFirst? || s.server.Relaying? || s.connected.Some?
  }

  /** Only a first read that holds the whole request, with an allowed password, gets the server to connect. */
  lemma Admits(setup: Setup, s: Sys, ev: Event)
    requires setup.Valid() && Inv(setup, s) && Enabled(setup, s, ev)
    requires !Admitted(s) && Admitted(Step(setup, s, ev))
    ensures ev.ServerReadsFirst? && |setup.hello| <= ev.n && setup.request.password in setup.allowed
  {
    if ev.ServerReadsFirst? {
      var chunk, sent := Wire(s)[..ev.n], setup.app[..s.appRead];
      assert chunk <= s.written <= setup.hello + sent;
      FirstReadAdmits(setup, chunk, sent);
    }
  }

  lemma FirstReadAdmits(setup: Setup, chunk: seq<byte>, sent: seq<byte>)
    requires setup.Valid() && chunk <= setup.hello + sent && FirstMessage(chunk, setup.allowed) != GONE
    ensures |setup.hello| <= |chunk| && setup.request.password in setup.allowed
  {
    FirstReadHoldsRequest(setup, chunk, sent);
  }

  lemma {:induction false} AdmittedBy(setup: Setup, s: Sys, evs: seq<Event>)
    requires setup.Valid() && Inv(setup, s) && Legal(setup, s, evs)
    requires !Admitted(s) && Admitted(Run(setup, s, evs))
    ensures setup.request.password in setup.allowed && |setup.hello| <= setup.max
    ensures exists i :: 0 <= i < |evs| && evs[i].ServerReadsFirst? && |setup.hello| <= evs[i].n
    decreases |evs|
  {
    var next := Step(setup, s, evs[0]);
    if Admitted(next) {
      Admits(setup, s, evs[0]);
    } else {
      StepKeeps(setup, s, evs[0]);
      AdmittedBy(setup, next, evs[1..]);
      var i :| 0 <= i < |evs| - 1 && evs[1..][i].ServerReadsFirst? && |setup.hello| <= evs[1..][i].n;
      assert evs[i + 1] == evs[1..][i];
    }
  }

  /**
   In every run the server connects only for an allowed password, and only after its first read
   returned the whole request.
   */
  lemma ConnectedWasAllowed(setup: Setup, evs: seq<Event>)
    requires setup.Valid() && Legal(setup, Initial(setup), evs) && Run(setup, Initial(setup), evs).connected.Some?
    ensures setup.request.password in setup.allowed && |setup.hello| <= setup.max
    ensures exists i :: 0 <= i < |evs| && evs[i].ServerReadsFirst? && |setup.hello| <= evs[i].n
  {
    assert setup.hello + setup.app[..0] == setup.hello;
    AdmittedBy(setup, Initial(setup), evs);
  }

  lemma {:induction false} RunOn(setup: Setup, s: Sys, evs: seq<Event>, more: seq<Event>)
    requires Legal(setup, s, evs) && Legal(setup, Run(setup, s, evs), more)
    ensures Legal(setup, s, evs + more) && Run(setup, s, evs + more) == Run(setup, Run(setup, s, evs), more)
    decreases |evs|
  {
    if evs == [] {
      assert evs + more == more;
    } else {
      assert (evs + more)[1..] == evs[1..] + more;
      RunOn(setup, Step(setup, s, evs[0]), evs[1..], more);
    }
  }

  /** The client writes the whole request and its SOCKS5 reply, then `k` bytes of the application. */
  function ClientOpens(setup: Setup, k: nat): seq<Event> {
    [ClientWrites(|setup.hello|), ClientReplies] + if k == 0 then [] else [ClientReads(k), ClientWrites(k)]
  }

  /** The server connects, and hands on the `k` bytes that came with the request. */
  function ServerGoesOn(k: nat): seq<Event> {
    [ServerConnects] + if k == 0 then [] else [ServerWritesFirst(k)]
  }

  /** Before that it reads all the client wrote at once. */
  function ServerOpens(setup: Setup, k: nat): seq<Event> {
    [ServerReadsFirst(|setup.hello| + k)] + ServerGoesOn(k)
  }

  /** The client forwards, and has written the request and `k` bytes; the server has read nothing. */
  ghost predicate ClientOpen(setup: Setup, k: nat, s: Sys) {
    && k <= |setup.app| && s.appRead == k && Wire(s) == setup.hello + setup.app[..k]
    && s.client == Forwarding(Reading, Reading) && s.server.Awaiting? && s.targetGot == []
  }

  /** Both forward, and the target has the `k` bytes. */
  ghost predicate BothOpen(setup: Setup, k: nat, s: Sys) {
    && k <= |setup.app| && s.appRead == k && s.targetGot == setup.app[..k] && Flowing(s)
    && s.connected == Some((setup.request.address, setup.request.port))
  }

  lemma RequestWritten(setup: Setup) returns (s: Sys)
    requires setup.hello != []
    ensures var evs := [ClientWrites(|setup.hello|), ClientReplies];
            Legal(setup, Initial(setup), evs) && s == Run(setup, Initial(setup), evs)
    ensures ClientOpen(setup, 0, s) && s.srvRead == [] && s.written == setup.hello
  {
    var hello := setup.hello;
    var replying := Step(setup, Initial(setup), ClientWrites(|hello|));
    s := Step(setup, replying, ClientReplies);
    assert hello[..|hello|] == hello && [] + hello == hello && hello + setup.app[..0] == hello;
    OneMore(setup, replying, ClientReplies, []);
    OneMore(setup, Initial(setup), ClientWrites(|hello|), [ClientReplies]);
  }

  lemma PayloadWritten(setup: Setup, k: nat, s: Sys) returns (next: Sys)
    requires ClientOpen(setup, 0, s) && s.srvRead == [] && s.written == setup.hello
    requires 1 <= k <= |setup.app| && k <= setup.max
    ensures var evs := [ClientReads(k), ClientWrites(k)]; Legal(setup, s, evs) && next == Run(setup, s, evs)
    ensures ClientOpen(setup, k, next)
  {
    var first := setup.app[..k];
    var busy := Step(setup, s, ClientReads(k));
    next := Step(setup, busy, ClientWrites(k));
    assert first[..k] == first;
    OneMore(setup, busy, ClientWrites(k), []);
    OneMore(setup, s, ClientReads(k), [ClientWrites(k)]);
  }

  lemma ClientOpensReaches(setup: Setup, k: nat) returns (s: Sys)
    requires setup.hello != [] && k <= |setup.app| && k <= setup.max
    ensures Legal(setup, Initial(setup), ClientOpens(setup, k))
    ensures s == Run(setup, Initial(setup), ClientOpens(setup, k)) && ClientOpen(setup, k, s)
  {
    var written := [ClientWrites(|setup.hello|), ClientReplies];
    s := RequestWritten(setup);
    if k == 0 {
      assert ClientOpens(setup, k) == written;
    } else {
      var last := s;
      s := PayloadWritten(setup, k, last);
      RunOn(setup, Initial(setup), written, [ClientReads(k), ClientWrites(k)]);
    }
  }

  lemma FirstReadTaken(setup: Setup, k: nat, s: Sys) returns (next: Sys)
    requires setup.hello != [] && ClientOpen(setup, k, s) && |setup.hello| + k <= setup.max
    requires FirstMessage(Wire(s), setup.allowed) == Connecting(setup.request, setup.app[..k])
    ensures var evs := [ServerReadsFirst(|setup.hello| + k)]; Legal(setup, s, evs) && next == Run(setup, s, evs)
    ensures next == s.(server := Connecting(setup.request, setup.app[..k]), srvRead := next.srvRead)
  {
    var chunk := Wire(s);
    assert chunk[..|chunk|] == chunk;
    next := Step(setup, s, ServerReadsFirst(|chunk|));
    OneMore(setup, s, ServerReadsFirst(|chunk|), []);
  }

  lemma Connects(setup: Setup, k: nat, s: Sys) returns (end: Sys)
    requires k <= |setup.app| && s.appRead == k && s.client.Forwarding? && s.targetGot == []
    requires s.server == Connecting(setup.request, setup.app[..k])
    ensures Legal(setup, s, ServerGoesOn(k)) && end == Run(setup, s, ServerGoesOn(k)) && BothOpen(setup, k, end)
  {
    var first, connected := setup.app[..k], Step(setup, s, ServerConnects);
    if k == 0 {
      end := connected;
      OneMore(setup, s, ServerConnects, []);
    } else {
      assert first[..k] == first && [] + first == first;
      end := Step(setup, connected, ServerWritesFirst(k));
      OneMore(setup, connected, ServerWritesFirst(k), []);
      OneMore(setup, s, ServerConnects, [ServerWritesFirst(k)]);
    }
  }

  /** The server's part, from a state in which its first read leads to `next`. */
  lemma ServerOpensReaches(setup: Setup, k: nat, s: Sys, next: Sys) returns (end: Sys)
    requires ClientOpen(setup, k, s)
    requires var evs := [ServerReadsFirst(|setup.hello| + k)]; Legal(setup, s, evs) && next == Run(setup, s, evs)
    requires next == s.(server := Connecting(setup.request, setup.app[..k]), srvRead := next.srvRead)
    ensures Legal(setup, s, ServerOpens(setup, k))
    ensures end == Run(setup, s, ServerOpens(setup, k)) && BothOpen(setup, k, end)
  {
    end := Connects(setup, k, next);
    RunOn(setup, s, [ServerReadsFirst(|setup.hello| + k)], ServerGoesOn(k));
  }

  lemma FirstReadConnects(setup: Setup, k: nat, s: Sys) returns (next: Sys)
    requires setup.Valid() && ClientOpen(setup, k, s) && |setup.hello| + k <= setup.max
    requires setup.request.password in setup.allowed
    ensures var evs := [ServerReadsFirst(|setup.hello| + k)]; Legal(setup, s, evs) && next == Run(setup, s, evs)
    ensures next == s.(server := Connecting(setup.request, setup.app[..k]), srvRead := next.srvRead)
  {
    FirstReadTakes(setup, k, Wire(s));
    next := FirstReadTaken(setup, k, s);
  }

  lemma FirstReadTakes(setup: Setup, k: nat, chunk: seq<byte>)
    requires setup.Valid() && k <= |setup.app| && chunk == setup.hello + setup.app[..k]
    requires setup.request.password in setup.allowed
    ensures FirstMessage(chunk, setup.allowed) == Connecting(setup.request, setup.app[..k])
  {
    FirstReadHoldsRequest(setup, chunk, setup.app[..k]);
    assert chunk[|setup.hello|..] == setup.app[..k];
  }

  /**
   A run without failures opens the streams, whatever number of the application's bytes arrives
   together with the request: those bytes are the first the target gets.
   */
  lemma OpeningReaches(setup: Setup, k: nat)
    requires setup.Valid() && k <= |setup.app| && |setup.hello| + k <= setup.max
    requires setup.request.password in setup.allowed
    ensures var evs := ClientOpens(setup, k) + ServerOpens(setup, k);
            Legal(setup, Initial(setup), evs) && BothOpen(setup, k, Run(setup, Initial(setup), evs))
  {
    var s := ClientOpensReaches(setup, k);
    var next := FirstReadConnects(setup, k, s);
    var end := ServerOpensReaches(setup, k, s, next);
    RunOn(setup, Initial(setup), ClientOpens(setup, k), ServerOpens(setup, k));
  }

  /** Some run gets both sessions to forward. */
  ghost predicate CanFlow(setup: Setup) {
    exists evs :: Legal(setup, Initial(setup), evs) && Flowing(Run(setup, Initial(setup), evs))
  }

  /** The streams can be opened exactly if the password is allowed and one read can hold the request. */
  lemma CanFlowIff(setup: Setup)
    requires setup.Valid()
    ensures CanFlow(setup) <==> setup.request.password in setup.allowed && |setup.hello| <= setup.max
  {
    if CanFlow(setup) {
      var evs :| Legal(setup, Initial(setup), evs) && Flowing(Run(setup, Initial(setup), evs));
      assert setup.hello + setup.app[..0] == setup.hello;
      AdmittedBy(setup, Initial(setup), evs);
    }
    if setup.request.password in setup.allowed && |setup.hello| <= setup.max {
      OpeningReaches(setup, 0);
    }
  }

  /** From any flowing state some run of moving events goes on until nothing can move. */
  lemma {:induction false} RunsUntilStill(setup: Setup, s: Sys) returns (evs: seq<Event>)
    requires setup.Valid() && Inv(setup, s) && Flowing(s)
    ensures Legal(setup, s, evs) && Still(setup, Run(setup, s, evs))
    ensures Inv(setup, Run(setup, s, evs)) && Flowing(Run(setup, s, evs))
    decreases Left(setup, s)
  {
    if Still(setup, s) {
      evs := [];
    } else {
      var ev :| Moving(ev) && Enabled(setup, s, ev);
      SomethingLeft(setup, s);
      StepMoves(setup, s, ev);
      var rest := RunsUntilStill(setup, Step(setup, s, ev));
      OneMore(setup, s, ev, rest);
      evs := [ev] + rest;
    }
  }

  /** Some run brings both streams to their ends whole. */
  ghost predicate CanArrive(setup: Setup) {
    exists evs :: Legal(setup, Initial(setup), evs) &&
      var end := Run(setup, Initial(setup), evs);
      end.targetGot == setup.app && end.appGot == setup.target
  }

  lemma SomeRunArrives(setup: Setup)
    requires setup.Valid() && CanFlow(setup)
    ensures CanArrive(setup)
  {
    var evs :| Legal(setup, Initial(setup), evs) && Flowing(Run(setup, Initial(setup), evs));
    var s := Run(setup, Initial(setup), evs);
    assert setup.hello + setup.app[..0] == setup.hello;
    RunKeeps(setup, Initial(setup), evs);
    var more := RunsUntilStill(setup, s);
    StillMeans(setup, Run(setup, s, more));
    RunOn(setup, Initial(setup), evs, more);
  }

  /**
   The tunnel can carry both streams whole exactly if the password is allowed and one read can hold
   the request, or if there is nothing to carry.
   */
  lemma CanArriveIff(setup: Setup)
    requires setup.Valid()
    ensures CanArrive(setup) <==>
            || (setup.request.password in setup.allowed && |setup.hello| <= setup.max)
            || (setup.app == [] && setup.target == [])
  {
    if CanArrive(setup) && (setup.app != [] || setup.target != []) {
      var evs :| Legal(setup, Initial(setup), evs) &&
        var end := Run(setup, Initial(setup), evs);
        end.targetGot == setup.app && end.appGot == setup.target;
      EndToEnd(setup, evs);
      ConnectedWasAllowed(setup, evs);
    }
    CanFlowIff(setup);
    if CanFlow(setup) {
      SomeRunArrives(setup);
    }
    assert Legal(setup, Initial(setup), []) && Run(setup, Initial(setup), []) == Initial(setup);
  }
}
