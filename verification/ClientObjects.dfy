/**
 The objects behind `ClientUdp`: the channel (Shared/DtlsChannel.cpp), the relay
 (Client/UdpRelay.cpp), the UDP session (Client/Session.cpp) and the server object that owns the
 registry (Client/Server.cpp, Client/Server.h). Every method takes the step of the step system.
 */
module ClientObjects {
  import opened Bytes
  import opened UdpRelays
  import C = ClientUdp
  import R = UdpRequest
  import F = UdpFrame

  class DtlsChannel {
    const password: seq<byte>
    const usable: bool                         // the SSL object could be created
    var running: bool
    var handshakeDone: bool
    ghost var submitted: seq<seq<byte>>
    ghost var reports: seq<bool>

    ghost function View(): C.Channel
      reads this
    {
      C.Channel(usable, running, handshakeDone, submitted, reports)
    }

    /** A constructed and started channel. */
    constructor (password: seq<byte>, usable: bool)
      ensures View() == C.Initial(usable).channel && this.password == password && this.usable == usable
    {
      this.password, this.usable := password, usable;
      running, handshakeDone, submitted, reports := true, false, [], [];
    }

    /** do_handshake; the result says whether the callback reported, and what. */
    method DoHandshake(result: C.HandshakeResult) returns (report: Option<bool>)
      modifies this
      ensures View() == C.DoHandshake(old(View()), password, result)
      ensures report == Some(true) <==> handshakeDone && !old(handshakeDone)
    {
      report := None;
      if !usable || !running || handshakeDone { return; }
      match result
      case Completed =>
        handshakeDone := true;
        Send(password + [LF]);
        reports := reports + [true];
        report := Some(true);
      case Waits =>
      case Fails =>
        reports := reports + [false];
        report := Some(false);
    }

    method Send(data: seq<byte>)
      modifies this`submitted
      ensures View() == C.Send(old(View()), data)
    {
      if !usable { return; }
      if !handshakeDone { return; }
      if !running { return; }
      submitted := submitted + [data];
    }
  }

  class UdpRelay {
    const dtls: DtlsChannel
    const sid: u16
    var running: bool
    var pendingFrames: seq<seq<byte>>
    var targetToSender: map<seq<byte>, Endpoint>
    var senderEp: Endpoint
    ghost var seen: seq<Seen>
    ghost var toApp: seq<(Endpoint, seq<byte>)>

    ghost function View(): C.Relay
      reads this
    {
      C.Relay(running, pendingFrames, Desk(targetToSender, senderEp), seen, toApp)
    }

    /** A constructed and started relay. */
    constructor (dtls: DtlsChannel, sid: u16)
      ensures View() == C.FRESH && this.dtls == dtls && this.sid == sid
    {
      this.dtls, this.sid := dtls, sid;
      running, pendingFrames, targetToSender, senderEp := true, [], map[], NOBODY;
      seen, toApp := [], [];
    }

    method Stop()
      modifies this`running
      ensures View() == old(View()).(running := false)
    {
      running := false;
    }

    /** The draining loop. */
    method FlushPending()
      modifies this`pendingFrames, dtls`submitted
      ensures dtls.View() == (if dtls.handshakeDone then C.SendAll(old(dtls.View()), sid, old(pendingFrames))
                              else old(dtls.View()))
      ensures View() == if dtls.handshakeDone then old(View()).(pending := []) else old(View())
    {
      if !dtls.handshakeDone { return; }
      while pendingFrames != []
        invariant C.SendAll(dtls.View(), sid, pendingFrames) == C.SendAll(old(dtls.View()), sid, old(pendingFrames))
        decreases |pendingFrames|
      {
        var packet := PutU16(sid) + pendingFrames[0];
        dtls.Send(packet);
        pendingFrames := pendingFrames[1..];
      }
    }

    /** The completion of do_receive_local. */
    method ReceiveLocal(from: Endpoint, datagram: Datagram)
      modifies this, dtls`submitted
      ensures !old(running) ==> View() == old(View()) && dtls.View() == old(dtls.View())
      ensures old(running) ==>
                && dtls.View() == C.Submitted(old(dtls.View()), sid, FrameOf(datagram))
                && View() == C.Queued(C.Remember(old(View()), from, datagram), dtls.handshakeDone, FrameOf(datagram))
    {
      if !running { return; }
      senderEp := from;
      seen := seen + [Asked(from, datagram)];
      if |datagram| < 4 { return; }
      var request := R.Parse(datagram);
      if request.None? { return; }
      var r := request.value;
      targetToSender := targetToSender[r.dst.addr + [COLON] + Decimal(r.dst.port) := from];
      R.ReadThenSerialize(datagram);
      var frame := FrameFor(r);
      if dtls.handshakeDone {
        dtls.Send(PutU16(sid) + frame);
      } else {
        pendingFrames := pendingFrames + [frame];
      }
    }

    /** on_dtls_data: `threw` when the frame parser throws. */
    method OnDtlsData(data: seq<byte>) returns (threw: bool)
      requires |data| <= F.MAX_STRING
      modifies this`targetToSender, this`seen, this`toApp
      ensures threw <==> running && F.Read(data).LengthError?
      ensures View() == (if running && F.Read(data).Parsed? then C.Deliver(old(View()), data, F.Read(data).frame)
                         else old(View()))
    {
      threw := false;
      if !running { return; }
      var outcome := F.Parse(data);
      match outcome
      case Rejected =>
      case LengthError => threw := true;
      case Parsed(frame, _) =>
        var packet := R.Serialize(R.Request(frame.addrType, frame.dst));
        var key := frame.dst.addr + [COLON] + Decimal(frame.dst.port);
        var appEp := senderEp;
        if key in targetToSender {
          appEp := targetToSender[key];
          targetToSender := targetToSender - {key};
        } else {
          assert targetToSender - {key} == targetToSender;
        }
        seen := seen + [Answered(data)];
        toApp := toApp + [(appEp, packet)];
    }
  }

  /** The UDP part of a client session: its id, its relay, and whether it was destroyed. */
  class UdpSession {
    const relay: UdpRelay
    const sessionId: u16
    var destroyed: bool

    ghost function View(): C.Session
      reads this, relay
    {
      C.Session(sessionId, !destroyed, relay.View())
    }

    constructor (relay: UdpRelay)
      ensures this.relay == relay && sessionId == relay.sid && !destroyed
    {
      this.relay, sessionId, destroyed := relay, relay.sid, false;
    }
  }

  /** The client's server object: the shared channel, the id counter and the registry of relays. */
  class Server {
    const dtls: DtlsChannel
    var nextSessionId: u16
    var relays: map<u16, UdpRelay>
    var threw: bool
    ghost var sessions: seq<UdpSession>        // every session ever created
    ghost var index: map<u16, nat>             // which of them a registered relay belongs to
    ghost var owners: seq<nat>                 // which of them handed over each record after the password line

    ghost predicate Valid()
      reads this`relays, this`sessions, this`index
    {
      && (forall i :: 0 <= i < |sessions| ==>
            sessions[i].relay.dtls == dtls && sessions[i].relay.sid == sessions[i].sessionId)
      && (forall i, j :: 0 <= i < j < |sessions| ==>
            sessions[i] != sessions[j] && sessions[i].relay != sessions[j].relay)
      && relays.Keys == index.Keys
      && (forall sid :: sid in relays ==>
            && index[sid] < |sessions| && relays[sid] == sessions[index[sid]].relay
            && sessions[index[sid]].sessionId == sid)
    }

    /** Everything a handler may write to. */
    ghost function Parts(): set<object>
      reads this
    {
      {this, dtls} + (set s | s in sessions) + (set s | s in sessions :: s.relay)
    }

    ghost function SessionViews(): (views: seq<C.Session>)
      reads Parts()
      ensures |views| == |sessions| && forall i :: 0 <= i < |sessions| ==> views[i] == sessions[i].View()
    {
      seq(|sessions|, i requires 0 <= i < |sessions| reads Parts() => sessions[i].View())
    }

    ghost function View(): C.Client
      reads Parts()
    {
      C.Client(dtls.View(), nextSessionId, index, SessionViews(), owners, threw)
    }

    constructor (password: seq<byte>, usable: bool)
      ensures Valid() && View() == C.Initial(usable) && dtls.password == password
    {
      dtls := new DtlsChannel(password, usable);
      nextSessionId, relays, threw, sessions, index, owners := 1, map[], false, [], map[], [];
    }

    method AllocateSessionId() returns (sid: u16)
      modifies this`nextSessionId
      ensures sid == old(nextSessionId) && nextSessionId == (sid + 1) % 0x1_0000
    {
      sid := nextSessionId;
      nextSessionId := (nextSessionId + 1) % 0x1_0000;
    }

    /** do_handle_socks5_udp_associate with a channel available. */
    method Associate() returns (session: UdpSession)
      requires Valid()
      modifies this
      ensures Valid() && fresh(session) && sessions == old(sessions) + [session]
      ensures View() == C.Associate(old(View()))
    {
      var sid := AllocateSessionId();
      var relay := new UdpRelay(dtls, sid);
      session := new UdpSession(relay);
      assert SessionViews() == old(SessionViews());
      RegisterRelay(session);
    }

    /** register_relay, for a session that is not known yet. */
    method RegisterRelay(session: UdpSession)
      requires Valid() && session.relay.dtls == dtls && session.relay.sid == session.sessionId
      requires forall i :: 0 <= i < |sessions| ==> sessions[i] != session && sessions[i].relay != session.relay
      modifies this`relays, this`sessions, this`index
      ensures Valid() && sessions == old(sessions) + [session]
      ensures View() == old(View()).(relays := old(View()).relays[session.sessionId := |old(sessions)|],
                                     sessions := old(View()).sessions + [session.View()])
    {
      relays := relays[session.sessionId := session.relay];
      index := index[session.sessionId := |sessions|];
      sessions := sessions + [session];
      assert View().sessions == old(View()).sessions + [session.View()];
    }

    /** destroy() of a UDP session. */
    method CloseSession(session: UdpSession, ghost i: nat)
      requires Valid() && i < |sessions| && sessions[i] == session
      modifies this, session, session.relay
      ensures Valid() && sessions == old(sessions) && View() == C.Close(old(View()), i)
    {
      if session.destroyed { return; }
      session.destroyed := true;
      if session.sessionId != 0 {
        relays := relays - {session.sessionId};
        index := index - {session.sessionId};
      }
      session.relay.Stop();
      assert View().sessions == old(View()).sessions[i := session.View()];
    }

    /** A datagram from the application side arrives at the relay of session `i`. */
    method OnLocal(session: UdpSession, ghost i: nat, from: Endpoint, datagram: Datagram)
      requires Valid() && i < |sessions| && sessions[i] == session
      modifies this`owners, session.relay, dtls`submitted
      ensures Valid() && View() == C.OnLocal(old(View()), i, from, datagram)
    {
      session.relay.ReceiveLocal(from, datagram);
      owners := C.Signed(owners, i, old(dtls.View()), dtls.View());
      assert View().sessions == old(View()).sessions[i := session.View()];
    }

    /** on_dtls_data: dispatch by the session id in front of the record. */
    method OnDtlsData(data: seq<byte>)
      requires Valid() && dtls.running && dtls.handshakeDone && !threw && |data| <= F.MAX_STRING
      modifies this`threw, Parts()
      ensures Valid() && View() == C.OnRecord(old(View()), data)
    {
      if |data| < 2 { return; }
      var sid := GetU16(data, 0);
      assert C.Registered(View(), sid) == if sid in relays then Some(index[sid]) else None;
      if sid in relays {
        DeliverTo(relays[sid], index[sid], data[2..]);
      }
    }

    /** The registered relay gets the data; an exception in the parser ends the event loop. */
    method DeliverTo(relay: UdpRelay, ghost i: nat, data: seq<byte>)
      requires Valid() && i < |sessions| && sessions[i].relay == relay && !threw && |data| <= F.MAX_STRING
      modifies this`threw, relay
      ensures Valid() && View() == C.OnOutcome(old(View()), i, data, F.Read(data))
    {
      var failed := relay.OnDtlsData(data);
      assert View().sessions == old(View()).sessions[i := sessions[i].View()];
      if failed {
        threw := true;
      }
    }

    /** One relay of the registry is flushed. */
    method FlushOne(relay: UdpRelay, ghost i: nat)
      requires Valid() && i < |sessions| && sessions[i].relay == relay
      modifies this`owners, relay`pendingFrames, dtls`submitted
      ensures Valid() && View() == C.Flush(old(View()), i)
    {
      relay.FlushPending();
      owners := C.Signed(owners, i, old(dtls.View()), dtls.View());
      assert View().sessions == old(View()).sessions[i := sessions[i].View()];
    }

    /** One round of the loop below: the relay registered under `sid` is flushed. */
    method FlushNext(sid: u16, ghost start: C.Client, ghost sids: seq<u16>, ghost order: seq<nat>, ghost left: set<u16>)
      requires Flushing(start, sids, order, left) && sid in left && sid in relays
      modifies this`owners, dtls`submitted, set s | s in sessions :: s.relay
      ensures Flushing(start, sids + [sid], order + [index[sid]], left - {sid})
    {
      var relay := relays[sid];
      ghost var i := index[sid];
      assert relay == sessions[i].relay && sessions[i] in sessions;
      FlushOne(relay, i);
      FlushAllNext(start, order, i);
      VisitsNext(start, sids, order, left, sid);
    }

    /** The loop has visited `sids`, the sessions `order`, and has `left` before it. */
    ghost predicate Flushing(start: C.Client, sids: seq<u16>, order: seq<nat>, left: set<u16>)
      reads Parts()
    {
      && Valid() && start.relays == index && |start.sessions| == |sessions|
      && Visits(start, sids, order, left) && View() == C.FlushAll(start, order)
    }

    /** The ready callback: a loop over the registry, in any order. */
    method OnReady() returns (ghost order: seq<nat>)
      requires Valid()
      modifies this`owners, dtls`submitted, set s | s in sessions :: s.relay
      ensures Valid() && C.Covers(old(View()), order) && View() == C.FlushAll(old(View()), order)
    {
      ghost var start := View();
      ghost var sids;
      sids, order := FlushLoop(start);
      VisitsCovers(start, sids, order);
    }

    method FlushLoop(ghost start: C.Client) returns (ghost sids: seq<u16>, ghost order: seq<nat>)
      requires Valid() && start == View()
      modifies this`owners, dtls`submitted, set s | s in sessions :: s.relay
      ensures Flushing(start, sids, order, {})
    {
      sids, order := [], [];
      var left := relays.Keys;
      VisitsNone(start);
      while left != {}
        invariant left <= relays.Keys && Flushing(start, sids, order, left)
        decreases left
      {
        var sid :| sid in left;
        FlushNext(sid, start, sids, order, left);
        sids, order, left := sids + [sid], order + [index[sid]], left - {sid};
      }
    }

    /** A handshake attempt, by a timer, a received packet or at the start, and its callback. */
    method Handshake(result: C.HandshakeResult) returns (ghost order: seq<nat>)
      requires Valid() && !threw
      modifies this`owners, dtls, set s | s in sessions :: s.relay
      ensures Valid() && (dtls.handshakeDone && !old(dtls.handshakeDone) ==> C.Covers(old(View()), order))
      ensures View() == (if old(dtls.handshakeDone) || !dtls.handshakeDone
                         then old(View()).(channel := C.DoHandshake(old(dtls.View()), dtls.password, result))
                         else C.OnHandshake(dtls.password, old(View()), result, order))
    {
      order := [];
      var report := dtls.DoHandshake(result);
      assert View() == old(View()).(channel := dtls.View());
      if report == Some(true) {
        order := OnReady();
      }
    }
  }

  /** The ids visited so far, each once, with the sessions they belong to, and the ids left. */
  ghost predicate Visits(c: C.Client, sids: seq<u16>, order: seq<nat>, left: set<u16>) {
    && |order| == |sids|
    && (forall k :: 0 <= k < |sids| ==>
          sids[k] in c.relays && sids[k] !in left && order[k] == c.relays[sids[k]] < |c.sessions|)
    && (forall sid :: sid in c.relays ==> sid in left || sid in sids)
    && (forall j, k :: 0 <= j < k < |sids| ==> sids[j] != sids[k])
  }

  lemma VisitsNone(c: C.Client)
    ensures Visits(c, [], [], c.relays.Keys) && C.FlushAll(c, []) == c
  {
  }

  lemma VisitsNext(c: C.Client, sids: seq<u16>, order: seq<nat>, left: set<u16>, sid: u16)
    requires Visits(c, sids, order, left) && sid in left && sid in c.relays && c.relays[sid] < |c.sessions|
    ensures Visits(c, sids + [sid], order + [c.relays[sid]], left - {sid})
  {
  }

  /** When none is left, the visited sessions are exactly the registered ones, each once. */
  lemma VisitsCovers(c: C.Client, sids: seq<u16>, order: seq<nat>)
    requires Visits(c, sids, order, {})
    requires forall s, t :: s in c.relays && t in c.relays && c.relays[s] == c.relays[t] ==> s == t
    ensures C.Covers(c, order)
  {
    forall sid | sid in c.relays
      ensures c.relays[sid] in order
    {
      var k :| 0 <= k < |sids| && sids[k] == sid;
      assert order[k] == c.relays[sid];
    }
  }

  /** Flushing in an order is flushing all but the last, then the last. */
  lemma {:induction false} FlushAllNext(c: C.Client, order: seq<nat>, i: nat)
    requires i < |c.sessions| && forall k :: 0 <= k < |order| ==> order[k] < |c.sessions|
    ensures |C.FlushAll(c, order).sessions| == |c.sessions|
    ensures C.FlushAll(c, order + [i]) == C.Flush(C.FlushAll(c, order), i)
    decreases |order|
  {
    if order == [] {
      assert (order + [i])[1..] == [];
    } else {
      FlushAllNext(C.Flush(c, order[0]), order[1..], i);
      assert (order + [i])[1..] == order[1..] + [i];
    }
  }
}
