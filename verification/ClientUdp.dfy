/**
 The client's side of the UDP tunnel as a step system (Shared/DtlsChannel.cpp, Client/Server.cpp,
 Client/Server.h, Client/UdpRelay.cpp, and the UDP part of Client/Session.cpp): one DTLS channel
 shared by the relays of all UDP sessions.

 OpenSSL is an oracle: a handshake event carries what SSL_do_handshake returned, whether it was
 started by a timer, by a received packet or at the start. `submitted` logs what was handed to
 SSL_write, `reports` what the handshake callback was told. One lifetime of the channel is
 modelled, so it keeps running.
 */
module ClientUdp {
  import opened Bytes
  import opened UdpRelays
  import F = UdpFrame

  datatype Channel = Channel(
    usable: bool,
    running: bool,
    done: bool,
    submitted: seq<seq<byte>>,
    reports: seq<bool>)

  datatype HandshakeResult = Completed | Waits | Fails

  datatype Relay = Relay(
    running: bool,
    pending: seq<seq<byte>>,
    desk: Desk,
    seen: seq<Seen>,                           // log of arrivals from either side
    toApp: seq<(Endpoint, seq<byte>)>)         // log of datagrams to applications

  /** A UDP session of the client: its id and its relay. */
  datatype Session = Session(sid: u16, alive: bool, relay: Relay)

  datatype Client = Client(
    channel: Channel,
    nextId: u16,
    relays: map<u16, nat>,                     // session id to session
    sessions: seq<Session>,                    // in the order of their creation
    owners: seq<nat>,                          // log: the session behind each record after the password line
    threw: bool)                               // an exception has ended the event loop

  function Initial(usable: bool): Client {
    Client(Channel(usable, true, false, [], []), 1, map[], [], [], false)
  }

  const FRESH := Relay(true, [], DeskAfter([]), [], [])

  /** DtlsChannel::send. */
  function Send(ch: Channel, data: seq<byte>): Channel {
    if ch.usable && ch.done && ch.running then ch.(submitted := ch.submitted + [data]) else ch
  }

  /** DtlsChannel::do_handshake, whoever calls it. */
  function DoHandshake(ch: Channel, password: seq<byte>, result: HandshakeResult): Channel {
    if !ch.usable || !ch.running || ch.done then ch
    else
      match result
      case Completed => Send(ch.(done := true), password + [LF]).(reports := ch.reports + [true])
      case Waits => ch
      case Fails => ch.(reports := ch.reports + [false])
  }

  function Tagged(sid: u16, frame: seq<byte>): seq<byte> {
    PutU16(sid) + frame
  }

  /** The draining loop of flush_pending. */
  function SendAll(ch: Channel, sid: u16, frames: seq<seq<byte>>): Channel
    decreases |frames|
  {
    if frames == [] then ch else SendAll(Send(ch, Tagged(sid, frames[0])), sid, frames[1..])
  }

  /** The same session, `n` times. */
  function Times(i: nat, n: nat): (r: seq<nat>)
    ensures |r| == n && forall k :: 0 <= k < n ==> r[k] == i
  {
    if n == 0 then [] else Times(i, n - 1) + [i]
  }

  /** Whatever the channel's log grew by came from session `i`. */
  function Signed(owners: seq<nat>, i: nat, before: Channel, after: Channel): seq<nat> {
    if |before.submitted| < |after.submitted| then owners + Times(i, |after.submitted| - |before.submitted|) else owners
  }

  /** Session `i` used the channel, which is `ch` now, and became `s`. */
  function Used(c: Client, i: nat, ch: Channel, s: Session): Client
    requires i < |c.sessions|
  {
    c.(channel := ch, owners := Signed(c.owners, i, c.channel, ch), sessions := c.sessions[i := s])
  }

  function Flush(c: Client, i: nat): Client
    requires i < |c.sessions|
  {
    var s := c.sessions[i];
    if !c.channel.done then c
    else Used(c, i, SendAll(c.channel, s.sid, s.relay.pending), s.(relay := s.relay.(pending := [])))
  }

  /** The loop over `relays_` in the ready callback, in some order. */
  function FlushAll(c: Client, order: seq<nat>): Client
    requires forall k :: 0 <= k < |order| ==> order[k] < |c.sessions|
    decreases |order|
  {
    if order == [] then c else FlushAll(Flush(c, order[0]), order[1..])
  }

  /** do_handle_socks5_udp_associate: a new id, a started relay, an entry in the registry. */
  function Associate(c: Client): Client {
    c.(nextId := (c.nextId + 1) % 0x1_0000,
       relays := c.relays[c.nextId := |c.sessions|],
       sessions := c.sessions + [Session(c.nextId, true, FRESH)])
  }

  /** destroy(): idempotent; an id of zero is taken for "none" and not unregistered. */
  function Close(c: Client, i: nat): Client
    requires i < |c.sessions|
  {
    var s := c.sessions[i];
    if !s.alive then c
    else c.(relays := if s.sid != 0 then c.relays - {s.sid} else c.relays,
            sessions := c.sessions[i := s.(alive := false, relay := s.relay.(running := false))])
  }

  /** The completion of do_receive_local. */
  function OnLocal(c: Client, i: nat, from: Endpoint, datagram: Datagram): Client
    requires i < |c.sessions|
  {
    if !c.sessions[i].relay.running then c
    else Handle(c, i, Remember(c.sessions[i].relay, from, datagram), FrameOf(datagram))
  }

  function Remember(relay: Relay, from: Endpoint, datagram: Datagram): Relay {
    relay.(desk := Ask(relay.desk, from, datagram), seen := relay.seen + [Asked(from, datagram)])
  }

  /** A frame is sent at once if the channel is ready and queued otherwise. */
  function Handle(c: Client, i: nat, relay: Relay, frame: Option<seq<byte>>): Client
    requires i < |c.sessions|
  {
    var s := c.sessions[i];
    Used(c, i, Submitted(c.channel, s.sid, frame), s.(relay := Queued(relay, c.channel.done, frame)))
  }

  function Submitted(ch: Channel, sid: u16, frame: Option<seq<byte>>): Channel {
    if frame.Some? && ch.done then Send(ch, Tagged(sid, frame.value)) else ch
  }

  function Queued(relay: Relay, ready: bool, frame: Option<seq<byte>>): Relay {
    if frame.Some? && !ready then relay.(pending := relay.pending + [frame.value]) else relay
  }

  /** UdpRelay::on_dtls_data for a parsed frame. */
  function Deliver(relay: Relay, data: seq<byte>, f: F.Frame): Relay {
    relay.(desk := Answer(relay.desk, f), seen := relay.seen + [Answered(data)],
           toApp := relay.toApp + [(AppEndpoint(relay.desk, f.dst), ReplyFor(f))])
  }

  /** Server::on_dtls_data: dispatch by the session id in front. */
  function OnRecord(c: Client, record: seq<byte>): Client {
    if !c.channel.running || !c.channel.done || |record| < 2 then c
    else
      match Registered(c, GetU16(record, 0))
      case None => c
      case Some(i) => OnOutcome(c, i, record[2..], F.Read(record[2..]))
  }

  /** The session whose relay is registered under an id. */
  function Registered(c: Client, sid: u16): (i: Option<nat>)
    ensures i.Some? ==> i.value < |c.sessions|
  {
    if sid in c.relays && c.relays[sid] < |c.sessions| then Some(c.relays[sid]) else None
  }

  /** UdpRelay::on_dtls_data at session `i`, by what the frame parser made of the data. */
  function OnOutcome(c: Client, i: nat, data: seq<byte>, outcome: F.Outcome): Client
    requires i < |c.sessions|
  {
    var s := c.sessions[i];
    if !s.relay.running then c
    else
      match outcome
      case Rejected => c
      case LengthError => c.(threw := true)
      case Parsed(f, _) => c.(sessions := c.sessions[i := s.(relay := Deliver(s.relay, data, f))])
  }

  datatype Event =
    | Associates
    | Closes(i: nat)
    | Local(i: nat, from: Endpoint, datagram: Datagram)
    | Handshakes(result: HandshakeResult, order: seq<nat>)
    | Receives(record: seq<byte>)

  predicate Enabled(c: Client, ev: Event) {
    match ev
    case Associates => true
    case Closes(i) => i < |c.sessions|
    case Local(i, _, _) => i < |c.sessions|
    case Handshakes(_, order) => Covers(c, order)
    case Receives(_) => true
  }

  /** The flush order visits each registered relay once. */
  predicate Covers(c: Client, order: seq<nat>) {
    && (forall k :: 0 <= k < |order| ==> order[k] < |c.sessions|)
    && (forall i :: i in order ==> i in c.relays.Values)
    && (forall sid :: sid in c.relays ==> c.relays[sid] in order)
    && (forall j, k :: 0 <= j < k < |order| ==> order[j] != order[k])
  }

  function Step(password: seq<byte>, c: Client, ev: Event): Client
    requires Enabled(c, ev)
  {
    if c.threw then c else
      match ev
      case Associates => Associate(c)
      case Closes(i) => Close(c, i)
      case Local(i, from, datagram) => OnLocal(c, i, from, datagram)
      case Handshakes(result, order) => OnHandshake(password, c, result, order)
      case Receives(record) => OnRecord(c, record)
  }

  function OnHandshake(password: seq<byte>, c: Client, result: HandshakeResult, order: seq<nat>): Client
    requires Covers(c, order)
  {
    var ch := DoHandshake(c.channel, password, result);
    if ch.done && !c.channel.done then FlushAll(c.(channel := ch), order) else c.(channel := ch)
  }

  /** The frames a relay made, in the order their datagrams arrived. */
  function FramesOf(seen: seq<Seen>): seq<seq<byte>> {
    if seen == [] then []
    else
      var before, last := FramesOf(seen[..|seen| - 1]), seen[|seen| - 1];
      if last.Asked? && FrameOf(last.datagram).Some? then before + [FrameOf(last.datagram).value] else before
  }

  /** The records after the password line. */
  function FrameRecords(ch: Channel): seq<seq<byte>> {
    if ch.submitted == [] then [] else ch.submitted[1..]
  }

  /** The records that session `i` handed to the channel, without their ids, in the order of submission. */
  function Project(records: seq<seq<byte>>, owners: seq<nat>, i: nat): seq<seq<byte>>
    requires |owners| == |records|
  {
    if records == [] then []
    else
      var n := |records| - 1;
      var before := Project(records[..n], owners[..n], i);
      if owners[n] == i && |records[n]| >= 2 then before + [records[n][2..]] else before
  }

  function TagEach(sid: u16, frames: seq<seq<byte>>): (r: seq<seq<byte>>)
    ensures |r| == |frames| && forall k :: 0 <= k < |frames| ==> r[k] == Tagged(sid, frames[k])
  {
    if frames == [] then []
    else TagEach(sid, frames[..|frames| - 1]) + [Tagged(sid, frames[|frames| - 1])]
  }

  lemma {:induction false} ProjectBoth(records: seq<seq<byte>>, owners: seq<nat>, more: seq<seq<byte>>,
                                       theirs: seq<nat>, j: nat)
    requires |owners| == |records| && |theirs| == |more|
    ensures Project(records + more, owners + theirs, j) == Project(records, owners, j) + Project(more, theirs, j)
    decreases |more|
  {
    if more == [] {
      assert records + more == records && owners + theirs == owners;
    } else {
      var n := |more| - 1;
      ProjectBoth(records, owners, more[..n], theirs[..n], j);
      var whole, signed := records + more, owners + theirs;
      assert whole[..|whole| - 1] == records + more[..n] && signed[..|whole| - 1] == owners + theirs[..n];
      assert whole[|whole| - 1] == more[n] && signed[|whole| - 1] == theirs[n];
    }
  }

  lemma ProjectLast(records: seq<seq<byte>>, owners: seq<nat>, record: seq<byte>, i: nat, j: nat)
    requires |owners| == |records| && |record| >= 2
    ensures Project(records + [record], owners + [i], j)
            == Project(records, owners, j) + (if i == j then [record[2..]] else [])
  {
    Front(records, record);
    Front(owners, i);
  }

  lemma Front<T>(a: seq<T>, x: T)
    ensures (a + [x])[..|a|] == a && (a + [x])[|a|] == x
  {
  }

  lemma LastOf(a: seq<seq<byte>>)
    requires a != []
    ensures a[..|a| - 1] + [a[|a| - 1]] == a
  {
  }

  lemma Untagged(sid: u16, frame: seq<byte>)
    ensures |Tagged(sid, frame)| >= 2 && Tagged(sid, frame)[2..] == frame
  {
  }

  lemma {:induction false} ProjectTagged(i: nat, sid: u16, frames: seq<seq<byte>>, j: nat)
    ensures Project(TagEach(sid, frames), Times(i, |frames|), j) == if i == j then frames else []
    decreases |frames|
  {
    if frames != [] {
      var n := |frames| - 1;
      ProjectTagged(i, sid, frames[..n], j);
      Untagged(sid, frames[n]);
      ProjectLast(TagEach(sid, frames[..n]), Times(i, n), Tagged(sid, frames[n]), i, j);
      LastOf(frames);
    }
  }

  /** What session `i` hands over joins its own projection and no other. */
  lemma ProjectMore(records: seq<seq<byte>>, owners: seq<nat>, i: nat, sid: u16, frames: seq<seq<byte>>, j: nat)
    requires |owners| == |records|
    ensures Project(records + TagEach(sid, frames), owners + Times(i, |frames|), j)
            == Project(records, owners, j) + (if i == j then frames else [])
  {
    ProjectBoth(records, owners, TagEach(sid, frames), Times(i, |frames|), j);
    ProjectTagged(i, sid, frames, j);
  }

  /** Success is reported at most once and last; the password line is submitted first, when the channel gets ready. */
  ghost predicate ChannelOk(password: seq<byte>, ch: Channel) {
    && ch.running && (ch.done ==> ch.usable)
    && (if ch.done then |ch.submitted| >= 1 && ch.submitted[0] == password + [LF] else ch.submitted == [])
    && (forall k :: 0 <= k < |ch.reports| && ch.reports[k] ==> ch.done && k == |ch.reports| - 1)
  }

  /** Every record after the password line has one owner, and carries the owner's id. */
  ghost predicate OwnersOk(c: Client) {
    && |c.owners| == |FrameRecords(c.channel)|
    && forall k :: 0 <= k < |c.owners| ==> OwnedBy(c, FrameRecords(c.channel)[k], c.owners[k])
  }

  ghost predicate OwnedBy(c: Client, record: seq<byte>, i: nat) {
    i < |c.sessions| && |record| >= 2 && GetU16(record, 0) == c.sessions[i].sid
  }

  /** The frames that session `i` has submitted so far. */
  function Sent(c: Client, i: nat): seq<seq<byte>>
    requires |c.owners| == |FrameRecords(c.channel)|
  {
    Project(FrameRecords(c.channel), c.owners, i)
  }

  /** Ids are handed out in order and wrap around after 65535. */
  ghost predicate IdsOk(c: Client) {
    && c.nextId == (|c.sessions| + 1) % 0x1_0000
    && forall i :: 0 <= i < |c.sessions| ==> c.sessions[i].sid == (i + 1) % 0x1_0000
  }

  /** No other session has the id of session `i`. */
  predicate Alone(c: Client, i: nat) {
    i < 0x1_0000 && i < |c.sessions| <= i + 0x1_0000
  }

  lemma DistinctIds(c: Client, i: nat, j: nat)
    requires IdsOk(c) && |c.sessions| <= 0xFFFF && i < |c.sessions| && j < |c.sessions|
    ensures c.sessions[i].sid == i + 1 && c.sessions[j].sid == j + 1
  {
  }

  lemma AloneMeans(c: Client, i: nat, j: nat)
    requires IdsOk(c) && Alone(c, i) && j < |c.sessions| && j != i
    ensures c.sessions[j].sid != c.sessions[i].sid
  {
  }

  /** The registry holds exactly the relays of the live sessions, each under its own id. */
  ghost predicate RegistryExact(c: Client) {
    && (forall sid :: sid in c.relays ==> Owns(c, c.relays[sid], sid) && c.sessions[c.relays[sid]].alive)
    && (forall i :: 0 <= i < |c.sessions| && c.sessions[i].alive ==> Holds(c, i))
  }

  ghost predicate Owns(c: Client, i: nat, sid: u16) {
    i < |c.sessions| && c.sessions[i].sid == sid
  }

  ghost predicate Holds(c: Client, i: nat)
    requires i < |c.sessions|
  {
    c.sessions[i].sid in c.relays && c.relays[c.sessions[i].sid] == i
  }

  /**
   What holds of the registry however many sessions there were: entries are under their own ids, and
   a session that shares its id with no other is registered while it lives, and after that only
   if its id is zero.
   */
  ghost predicate RegistryOk(c: Client) {
    && (forall sid :: sid in c.relays ==> Owns(c, c.relays[sid], sid))
    && (forall i :: 0 <= i < |c.sessions| && Alone(c, i) ==> HeldWhileAlive(c, i))
  }

  ghost predicate HeldWhileAlive(c: Client, i: nat)
    requires i < |c.sessions|
  {
    && (c.sessions[i].alive ==> Holds(c, i))
    && (Holds(c, i) && c.sessions[i].sid != 0 ==> c.sessions[i].alive)
  }

  lemma ExactUpTo65535(c: Client)
    requires IdsOk(c) && RegistryOk(c) && |c.sessions| <= 0xFFFF
    ensures RegistryExact(c)
  {
    forall i | 0 <= i < |c.sessions|
      ensures HeldWhileAlive(c, i) && c.sessions[i].sid == i + 1
    {
      assert Alone(c, i);
    }
    forall sid | sid in c.relays
      ensures Owns(c, c.relays[sid], sid) && c.sessions[c.relays[sid]].alive
    {
      assert Owns(c, c.relays[sid], sid);
      assert Holds(c, c.relays[sid]);
    }
  }

  /**
   Per relay: the frames of the datagrams that arrived are, in order, those that still wait and
   then those submitted, and the desk follows the history.
   */
  ghost predicate RelayOk(s: Session, sent: seq<seq<byte>>) {
    && s.alive == s.relay.running
    && s.relay.desk == DeskAfter(s.relay.seen)
    && FramesOf(s.relay.seen) == s.relay.pending + sent
  }

  ghost predicate RelaysOk(c: Client)
    requires |c.owners| == |FrameRecords(c.channel)|
  {
    forall i :: 0 <= i < |c.sessions| ==> RelayOk(c.sessions[i], Sent(c, i))
  }

  /** Once the channel is ready, no registered relay has anything waiting. */
  ghost predicate NothingWaits(c: Client) {
    c.channel.done ==>
      forall sid :: sid in c.relays && c.relays[sid] < |c.sessions| ==> c.sessions[c.relays[sid]].relay.pending == []
  }

  ghost predicate Inv(password: seq<byte>, c: Client) {
    && ChannelOk(password, c.channel) && IdsOk(c) && RegistryOk(c)
    && OwnersOk(c) && RelaysOk(c) && NothingWaits(c)
  }

  lemma {:induction false} SendAllAppends(ch: Channel, sid: u16, frames: seq<seq<byte>>)
    requires ch.usable && ch.done && ch.running
    ensures SendAll(ch, sid, frames) == ch.(submitted := ch.submitted + TagEach(sid, frames))
    decreases |frames|
  {
    if frames == [] {
      assert ch.submitted + TagEach(sid, frames) == ch.submitted;
    } else {
      var next := Send(ch, Tagged(sid, frames[0]));
      SendAllAppends(next, sid, frames[1..]);
      assert next.submitted + TagEach(sid, frames[1..]) == ch.submitted + TagEach(sid, frames);
    }
  }

  /** Session `i` has handed `frames` to the channel, and the logs say so. */
  ghost predicate Submits(password: seq<byte>, c: Client, i: nat, frames: seq<seq<byte>>, d: Client) {
    && ChannelOk(password, d.channel) && d.channel == c.channel.(submitted := d.channel.submitted)
    && OwnersOk(c) && OwnersOk(d)
    && forall j :: 0 <= j < |c.sessions| ==> Sent(d, j) == Sent(c, j) + (if i == j then frames else [])
  }

  lemma UsedSubmits(password: seq<byte>, c: Client, i: nat, frames: seq<seq<byte>>, s: Session)
    requires ChannelOk(password, c.channel) && c.channel.done && OwnersOk(c) && i < |c.sessions|
             && s.sid == c.sessions[i].sid
    ensures var ch := c.channel.(submitted := c.channel.submitted + TagEach(s.sid, frames));
            Submits(password, c, i, frames, Used(c, i, ch, s))
  {
    var tagged := TagEach(s.sid, frames);
    var ch := c.channel.(submitted := c.channel.submitted + tagged);
    var d := Used(c, i, ch, s);
    LogsGrow(c.channel.submitted, tagged);
    MoreOwned(c, i, s, tagged, Times(i, |frames|), d);
    forall j | 0 <= j < |c.sessions|
      ensures Sent(d, j) == Sent(c, j) + (if i == j then frames else [])
    {
      ProjectMore(FrameRecords(c.channel), c.owners, i, s.sid, frames, j);
    }
  }

  lemma LogsGrow(submitted: seq<seq<byte>>, more: seq<seq<byte>>)
    requires submitted != []
    ensures (submitted + more)[1..] == submitted[1..] + more && (submitted + more)[0] == submitted[0]
  {
  }

  lemma TagOf(sid: u16, frame: seq<byte>)
    ensures |Tagged(sid, frame)| >= 2 && GetU16(Tagged(sid, frame), 0) == sid
  {
    assert GetU16(Tagged(sid, frame), 0) == GetU16(PutU16(sid), 0);
  }

  /** Records that carry the id of session `i`, signed by `i`, keep the log of owners in order. */
  lemma MoreOwned(c: Client, i: nat, s: Session, tagged: seq<seq<byte>>, theirs: seq<nat>, d: Client)
    requires OwnersOk(c) && i < |c.sessions| && s.sid == c.sessions[i].sid && d.sessions == c.sessions[i := s]
    requires FrameRecords(d.channel) == FrameRecords(c.channel) + tagged && d.owners == c.owners + theirs
    requires |theirs| == |tagged| && forall k :: 0 <= k < |theirs| ==> theirs[k] == i
    requires forall k :: 0 <= k < |tagged| ==> exists frame :: tagged[k] == Tagged(s.sid, frame)
    ensures OwnersOk(d)
  {
    forall k | 0 <= k < |d.owners|
      ensures OwnedBy(d, FrameRecords(d.channel)[k], d.owners[k])
    {
      if k < |c.owners| {
        assert OwnedBy(c, FrameRecords(c.channel)[k], c.owners[k]);
      } else {
        var frame :| tagged[k - |c.owners|] == Tagged(s.sid, frame);
        TagOf(s.sid, frame);
      }
    }
  }

  /** The parts of a session that a flush does not touch. */
  ghost predicate SameButPending(s: Session, t: Session) {
    t == s.(relay := s.relay.(pending := t.relay.pending)) && (s.relay.pending == [] ==> t.relay.pending == [])
  }

  ghost predicate OnlyFlushed(c: Client, d: Client) {
    && d == c.(channel := d.channel, owners := d.owners, sessions := d.sessions) && |d.sessions| == |c.sessions|
    && forall i :: 0 <= i < |c.sessions| ==> SameButPending(c.sessions[i], d.sessions[i])
  }

  /** No session has submitted anything while frames of it still wait. */
  ghost predicate NoneOvertaken(c: Client)
    requires |c.owners| == |FrameRecords(c.channel)|
  {
    forall i :: 0 <= i < |c.sessions| ==> Sent(c, i) == [] || c.sessions[i].relay.pending == []
  }

  /** The logs are in order, and a flush of any relay keeps them so. */
  ghost predicate Flushable(password: seq<byte>, c: Client) {
    ChannelOk(password, c.channel) && c.channel.done && OwnersOk(c) && RelaysOk(c) && NoneOvertaken(c)
  }

  /** From `c` to `d` only waiting frames were submitted, and the order is kept. */
  ghost predicate FlushedTo(password: seq<byte>, c: Client, d: Client) {
    Flushable(password, d) && d.channel == c.channel.(submitted := d.channel.submitted) && OnlyFlushed(c, d)
  }

  lemma FlushedToTransitive(password: seq<byte>, c: Client, d: Client, e: Client)
    requires FlushedTo(password, c, d) && FlushedTo(password, d, e)
    ensures FlushedTo(password, c, e)
  {
    forall i | 0 <= i < |c.sessions|
      ensures SameButPending(c.sessions[i], e.sessions[i])
    {
      assert SameButPending(c.sessions[i], d.sessions[i]) && SameButPending(d.sessions[i], e.sessions[i]);
    }
  }

  lemma FlushedRelay(s: Session, sent: seq<seq<byte>>)
    requires RelayOk(s, sent) && (sent == [] || s.relay.pending == [])
    ensures RelayOk(s.(relay := s.relay.(pending := [])), sent + s.relay.pending)
  {
  }

  /** After session `i` has handed over all that waited there, every log is in order again. */
  lemma FlushedRelays(password: seq<byte>, c: Client, i: nat, d: Client)
    requires Flushable(password, c) && i < |c.sessions| && Submits(password, c, i, c.sessions[i].relay.pending, d)
    requires d.sessions == c.sessions[i := c.sessions[i].(relay := c.sessions[i].relay.(pending := []))]
    ensures RelaysOk(d) && NoneOvertaken(d)
  {
    forall j | 0 <= j < |c.sessions|
      ensures RelayOk(d.sessions[j], Sent(d, j)) && (Sent(d, j) == [] || d.sessions[j].relay.pending == [])
    {
      var s, sent := c.sessions[j], Sent(c, j);
      assert RelayOk(s, sent) && (sent == [] || s.relay.pending == []);
      if j == i {
        FlushedRelay(s, sent);
      }
    }
  }

  lemma FlushKeeps(password: seq<byte>, c: Client, i: nat)
    requires Flushable(password, c) && i < |c.sessions|
    ensures FlushedTo(password, c, Flush(c, i)) && Flush(c, i).sessions[i].relay.pending == []
  {
    var d, s := Flush(c, i), c.sessions[i];
    SendAllAppends(c.channel, s.sid, s.relay.pending);
    UsedSubmits(password, c, i, s.relay.pending, d.sessions[i]);
    FlushedRelays(password, c, i, d);
  }

  /** The ready callback empties every queue it visits and leaves everything else as it was. */
  lemma {:induction false} FlushAllKeeps(password: seq<byte>, c: Client, order: seq<nat>)
    requires Flushable(password, c)
    requires forall k :: 0 <= k < |order| ==> order[k] < |c.sessions|
    ensures FlushedTo(password, c, FlushAll(c, order))
    ensures forall k :: 0 <= k < |order| ==> FlushAll(c, order).sessions[order[k]].relay.pending == []
    decreases |order|
  {
    if order != [] {
      var next := Flush(c, order[0]);
      FlushKeeps(password, c, order[0]);
      FlushAllKeeps(password, next, order[1..]);
      FlushedToTransitive(password, c, next, FlushAll(next, order[1..]));
      AllEmpty(next, FlushAll(next, order[1..]), order);
    }
  }

  lemma AllEmpty(c: Client, d: Client, order: seq<nat>)
    requires order != [] && forall k :: 0 <= k < |order| ==> order[k] < |c.sessions|
    requires OnlyFlushed(c, d) && c.sessions[order[0]].relay.pending == []
    requires forall k :: 0 <= k < |order[1..]| ==> d.sessions[order[1..][k]].relay.pending == []
    ensures forall k :: 0 <= k < |order| ==> d.sessions[order[k]].relay.pending == []
  {
    StaysEmpty(c, d, order[0]);
    forall k | 0 <= k < |order|
      ensures d.sessions[order[k]].relay.pending == []
    {
      assert k > 0 ==> order[k] == order[1..][k - 1];
    }
  }

  lemma StaysEmpty(c: Client, d: Client, i: nat)
    requires OnlyFlushed(c, d) && i < |c.sessions| && c.sessions[i].relay.pending == []
    ensures d.sessions[i].relay.pending == []
  {
    assert SameButPending(c.sessions[i], d.sessions[i]);
  }

  /** Ids and registry depend on nothing but who has which id and who is alive. */
  lemma SameLives(c: Client, d: Client)
    requires IdsOk(c) && RegistryOk(c) && d.nextId == c.nextId && d.relays == c.relays && |d.sessions| == |c.sessions|
    requires forall j :: 0 <= j < |c.sessions| ==>
               d.sessions[j].sid == c.sessions[j].sid && d.sessions[j].alive == c.sessions[j].alive
    ensures IdsOk(d) && RegistryOk(d)
  {
    forall sid | sid in d.relays
      ensures Owns(d, d.relays[sid], sid)
    {
      assert Owns(c, c.relays[sid], sid);
    }
    forall i | 0 <= i < |d.sessions| && Alone(d, i)
      ensures HeldWhileAlive(d, i)
    {
      assert Alone(c, i) && HeldWhileAlive(c, i);
    }
  }

  lemma AssociateKeeps(password: seq<byte>, c: Client)
    requires Inv(password, c)
    ensures Inv(password, Associate(c))
  {
    AssociateRegisters(c);
    AssociateOwns(c);
    AssociateRelays(c);
    AssociateWaits(c);
  }

  lemma AssociateRelays(c: Client)
    requires OwnersOk(c) && RelaysOk(c) && OwnersOk(Associate(c)) && Sent(Associate(c), |c.sessions|) == []
    requires forall i :: Sent(Associate(c), i) == Sent(c, i)
    ensures RelaysOk(Associate(c))
  {
    var d, n := Associate(c), |c.sessions|;
    forall i | 0 <= i < |d.sessions|
      ensures RelayOk(d.sessions[i], Sent(d, i))
    {
      if i < n {
        assert d.sessions[i] == c.sessions[i] && RelayOk(c.sessions[i], Sent(c, i));
      } else {
        FreshOk(c.nextId);
      }
    }
  }

  lemma FreshOk(sid: u16)
    ensures RelayOk(Session(sid, true, FRESH), [])
  {
  }

  lemma AssociateWaits(c: Client)
    requires RegistryOk(c) && NothingWaits(c)
    ensures NothingWaits(Associate(c))
  {
    var d, n := Associate(c), |c.sessions|;
    forall sid | c.channel.done && sid in d.relays && d.relays[sid] < |d.sessions|
      ensures d.sessions[d.relays[sid]].relay.pending == []
    {
      assert sid != c.nextId ==> Owns(c, c.relays[sid], sid);
    }
  }

  lemma AssociateOwns(c: Client)
    requires OwnersOk(c)
    ensures OwnersOk(Associate(c)) && Sent(Associate(c), |c.sessions|) == []
    ensures forall i :: Sent(Associate(c), i) == Sent(c, i)
  {
    var d := Associate(c);
    forall k | 0 <= k < |d.owners|
      ensures OwnedBy(d, FrameRecords(d.channel)[k], d.owners[k]) && d.owners[k] < |c.sessions|
    {
      assert OwnedBy(c, FrameRecords(c.channel)[k], c.owners[k]);
    }
    NoRecordsYet(FrameRecords(c.channel), c.owners, |c.sessions|);
  }

  /** A session that does not exist yet has submitted nothing. */
  lemma {:induction false} NoRecordsYet(records: seq<seq<byte>>, owners: seq<nat>, i: nat)
    requires |owners| == |records| && forall k :: 0 <= k < |owners| ==> owners[k] < i
    ensures Project(records, owners, i) == []
  {
    if records != [] {
      NoRecordsYet(records[..|records| - 1], owners[..|records| - 1], i);
    }
  }

  lemma AssociateRegisters(c: Client)
    requires IdsOk(c) && RegistryOk(c)
    ensures IdsOk(Associate(c)) && RegistryOk(Associate(c))
  {
    var d, n := Associate(c), |c.sessions|;
    assert forall i :: 0 <= i < n ==> d.sessions[i] == c.sessions[i];
    assert IdsOk(d);
    forall sid | sid in d.relays
      ensures Owns(d, d.relays[sid], sid)
    {
      assert sid != c.nextId ==> Owns(c, c.relays[sid], sid);
    }
    forall i | 0 <= i < |d.sessions| && Alone(d, i)
      ensures HeldWhileAlive(d, i)
    {
      if i < n {
        assert Alone(c, i) && HeldWhileAlive(c, i);
        AloneMeans(d, i, n);
      }
    }
  }

  lemma CloseKeeps(password: seq<byte>, c: Client, i: nat)
    requires Inv(password, c) && i < |c.sessions|
    ensures Inv(password, Close(c, i))
  {
    CloseUnregisters(c, i);
    var d := Close(c, i);
    SameIdsSameOwners(c, d);
    SameRelays(c, d);
  }

  lemma SameIdsSameOwners(c: Client, d: Client)
    requires OwnersOk(c) && d.channel.submitted == c.channel.submitted && d.owners == c.owners
             && |d.sessions| == |c.sessions|
    requires forall j :: 0 <= j < |c.sessions| ==> d.sessions[j].sid == c.sessions[j].sid
    ensures OwnersOk(d) && forall j :: Sent(d, j) == Sent(c, j)
  {
    forall k | 0 <= k < |d.owners|
      ensures OwnedBy(d, FrameRecords(d.channel)[k], d.owners[k])
    {
      assert OwnedBy(c, FrameRecords(c.channel)[k], c.owners[k]);
    }
  }

  lemma CloseUnregisters(c: Client, i: nat)
    requires IdsOk(c) && RegistryOk(c) && i < |c.sessions|
    ensures IdsOk(Close(c, i)) && RegistryOk(Close(c, i))
  {
    var d := Close(c, i);
    assert forall j :: 0 <= j < |c.sessions| ==> d.sessions[j].sid == c.sessions[j].sid;
    forall sid | sid in d.relays
      ensures Owns(d, d.relays[sid], sid)
    {
      assert Owns(c, c.relays[sid], sid);
    }
    forall j | 0 <= j < |d.sessions| && Alone(d, j)
      ensures HeldWhileAlive(d, j)
    {
      assert Alone(c, j) && HeldWhileAlive(c, j);
      if j != i {
        AloneMeans(c, j, i);
      }
    }
  }

  lemma LocalKeeps(password: seq<byte>, c: Client, i: nat, from: Endpoint, datagram: Datagram)
    requires Inv(password, c) && i < |c.sessions|
    ensures Inv(password, OnLocal(c, i, from, datagram))
  {
    var s := c.sessions[i];
    if s.relay.running {
      AskedNext(s.relay.seen, from, datagram);
      Handled(password, c, i, Remember(s.relay, from, datagram), FrameOf(datagram));
    }
  }

  /** What becomes of the frame keeps the order: it is submitted now, or queued behind the others. */
  lemma Handled(password: seq<byte>, c: Client, i: nat, relay: Relay, frame: Option<seq<byte>>)
    requires Inv(password, c) && i < |c.sessions|
    requires relay == c.sessions[i].relay.(desk := relay.desk, seen := relay.seen)
             && relay.desk == DeskAfter(relay.seen)
    requires FramesOf(relay.seen) == FramesOf(c.sessions[i].relay.seen)
             + (match frame case None => [] case Some(f) => [f])
    ensures Inv(password, Handle(c, i, relay, frame))
  {
    var s, d := c.sessions[i], Handle(c, i, relay, frame);
    assert RelayOk(s, Sent(c, i));
    if c.channel.done {
      var frames := match frame case None => [] case Some(f) => [f];
      SubmitKeeps(password, c, i, relay, frames);
    } else {
      QueueKeeps(password, c, i, d.sessions[i]);
    }
  }

  lemma SubmitKeeps(password: seq<byte>, c: Client, i: nat, relay: Relay, frames: seq<seq<byte>>)
    requires Inv(password, c) && i < |c.sessions| && c.channel.done && |frames| <= 1
    requires relay == c.sessions[i].relay.(desk := relay.desk, seen := relay.seen)
             && relay.desk == DeskAfter(relay.seen)
    requires FramesOf(relay.seen) == FramesOf(c.sessions[i].relay.seen) + frames
    ensures Inv(password, Handle(c, i, relay, if frames == [] then None else Some(frames[0])))
  {
    var s, d := c.sessions[i], Handle(c, i, relay, if frames == [] then None else Some(frames[0]));
    var ch := c.channel.(submitted := c.channel.submitted + TagEach(s.sid, frames));
    assert frames != [] ==> TagEach(s.sid, frames) == [Tagged(s.sid, frames[0])];
    assert frames == [] ==> c.channel.submitted + TagEach(s.sid, frames) == c.channel.submitted;
    assert d == Used(c, i, ch, s.(relay := relay));
    UsedSubmits(password, c, i, frames, s.(relay := relay));
    UpdateKeeps(password, c, i, frames, d);
  }

  /** Session `i` handed `frames` over, and saw the datagrams they are from. */
  ghost predicate Moved(s: Session, frames: seq<seq<byte>>, t: Session) {
    && t == s.(relay := s.relay.(desk := t.relay.desk, seen := t.relay.seen, toApp := t.relay.toApp))
    && t.relay.desk == DeskAfter(t.relay.seen)
    && FramesOf(t.relay.seen) == FramesOf(s.relay.seen) + frames
  }

  lemma MovedRelay(s: Session, sent: seq<seq<byte>>, frames: seq<seq<byte>>, t: Session)
    requires RelayOk(s, sent) && Moved(s, frames, t)
    ensures RelayOk(t, sent + frames)
  {
    Regroup(s.relay.pending, sent, frames);
  }

  lemma Regroup(a: seq<seq<byte>>, b: seq<seq<byte>>, c: seq<seq<byte>>)
    ensures a + b + c == a + (b + c)
  {
  }

  lemma MovedRelays(password: seq<byte>, c: Client, i: nat, frames: seq<seq<byte>>, d: Client)
    requires OwnersOk(c) && RelaysOk(c) && i < |c.sessions| && Submits(password, c, i, frames, d)
    requires |d.sessions| == |c.sessions| && Moved(c.sessions[i], frames, d.sessions[i])
    requires forall j :: 0 <= j < |c.sessions| && j != i ==> d.sessions[j] == c.sessions[j]
    ensures RelaysOk(d)
  {
    forall j | 0 <= j < |c.sessions|
      ensures RelayOk(d.sessions[j], Sent(d, j))
    {
      var s, sent := c.sessions[j], Sent(c, j);
      assert RelayOk(s, sent);
      if j == i {
        MovedRelay(s, sent, frames, d.sessions[j]);
      }
    }
  }

  lemma UpdateKeeps(password: seq<byte>, c: Client, i: nat, frames: seq<seq<byte>>, d: Client)
    requires Inv(password, c) && i < |c.sessions| && Submits(password, c, i, frames, d)
    requires d == c.(channel := d.channel, owners := d.owners, sessions := d.sessions) && |d.sessions| == |c.sessions|
    requires Moved(c.sessions[i], frames, d.sessions[i])
    requires forall j :: 0 <= j < |c.sessions| && j != i ==> d.sessions[j] == c.sessions[j]
    ensures Inv(password, d)
  {
    SameLives(c, d);
    MovedRelays(password, c, i, frames, d);
    assert NothingWaits(d);
  }

  /** The channel is not ready: nothing has been submitted, and the frame waits behind the others. */
  lemma QueueKeeps(password: seq<byte>, c: Client, i: nat, t: Session)
    requires Inv(password, c) && i < |c.sessions| && !c.channel.done
    requires t.sid == c.sessions[i].sid && t.alive == c.sessions[i].alive == t.relay.running
    requires t.relay.desk == DeskAfter(t.relay.seen) && FramesOf(t.relay.seen) == t.relay.pending
    ensures Inv(password, c.(sessions := c.sessions[i := t]))
  {
    var d := c.(sessions := c.sessions[i := t]);
    SameLives(c, d);
    SameIdsSameOwners(c, d);
    forall j | 0 <= j < |c.sessions|
      ensures RelayOk(d.sessions[j], Sent(d, j))
    {
      assert RelayOk(c.sessions[j], Sent(c, j));
      assert Sent(d, j) == [];
    }
  }

  lemma AskedNext(seen: seq<Seen>, from: Endpoint, datagram: Datagram)
    ensures var longer := seen + [Asked(from, datagram)];
            && DeskAfter(longer) == Ask(DeskAfter(seen), from, datagram)
            && FramesOf(longer) == FramesOf(seen) + (match FrameOf(datagram) case None => [] case Some(f) => [f])
  {
    var longer := seen + [Asked(from, datagram)];
    assert longer[..|longer| - 1] == seen;
  }

  lemma HandshakeKeeps(password: seq<byte>, c: Client, result: HandshakeResult, order: seq<nat>)
    requires Inv(password, c) && Covers(c, order)
    ensures Inv(password, OnHandshake(password, c, result, order))
  {
    var ch := DoHandshake(c.channel, password, result);
    assert FrameRecords(ch) == FrameRecords(c.channel);
    var m := c.(channel := ch);
    SameLives(c, m);
    assert OwnersOk(m) && forall j :: Sent(m, j) == Sent(c, j) by {
      assert forall k :: 0 <= k < |c.owners| ==> OwnedBy(c, FrameRecords(c.channel)[k], c.owners[k]);
    }
    assert RelaysOk(m) by {
      assert forall i :: 0 <= i < |c.sessions| ==> RelayOk(c.sessions[i], Sent(c, i));
    }
    if ch.done && !c.channel.done {
      FlushAllKeeps(password, m, order);
      FlushedIsInv(password, m, FlushAll(m, order), order);
    }
  }

  lemma FlushedIsInv(password: seq<byte>, c: Client, d: Client, order: seq<nat>)
    requires IdsOk(c) && RegistryOk(c) && Covers(c, order) && FlushedTo(password, c, d)
    requires forall k :: 0 <= k < |order| ==> d.sessions[order[k]].relay.pending == []
    ensures Inv(password, d)
  {
    forall i | 0 <= i < |c.sessions|
      ensures d.sessions[i].sid == c.sessions[i].sid && d.sessions[i].alive == c.sessions[i].alive
    {
      assert SameButPending(c.sessions[i], d.sessions[i]);
    }
    SameLives(c, d);
    forall sid | sid in d.relays && d.relays[sid] < |d.sessions|
      ensures d.sessions[d.relays[sid]].relay.pending == []
    {
      assert c.relays[sid] in order;
    }
  }

  lemma RecordKeeps(password: seq<byte>, c: Client, record: seq<byte>)
    requires Inv(password, c)
    ensures Inv(password, OnRecord(c, record))
  {
    var d := OnRecord(c, record);
    if d.sessions != c.sessions {
      var i := c.relays[GetU16(record, 0)];
      AnsweredNext(c.sessions[i].relay.seen, record[2..]);
      assert RelayOk(c.sessions[i], Sent(c, i));
      DeliveredKeeps(password, c, i, d.sessions[i]);
    } else {
      assert d == c.(threw := d.threw);
      ThrewKeeps(password, c, d.threw);
    }
  }

  lemma DeliveredKeeps(password: seq<byte>, c: Client, i: nat, t: Session)
    requires Inv(password, c) && i < |c.sessions| && Moved(c.sessions[i], [], t)
    ensures Inv(password, c.(sessions := c.sessions[i := t]))
  {
    var d := c.(sessions := c.sessions[i := t]);
    SameIdsSameOwners(c, d);
    UpdateKeeps(password, c, i, [], d);
  }

  lemma ThrewKeeps(password: seq<byte>, c: Client, threw: bool)
    requires Inv(password, c)
    ensures Inv(password, c.(threw := threw))
  {
    var d := c.(threw := threw);
    SameLives(c, d);
    SameIdsSameOwners(c, d);
    SameRelays(c, d);
  }

  lemma SameRelays(c: Client, d: Client)
    requires OwnersOk(c) && OwnersOk(d) && RelaysOk(c) && |d.sessions| == |c.sessions|
    requires forall j :: 0 <= j < |c.sessions| ==> Sent(d, j) == Sent(c, j) && SameWork(c.sessions[j], d.sessions[j])
    ensures RelaysOk(d)
  {
    forall j | 0 <= j < |c.sessions|
      ensures RelayOk(d.sessions[j], Sent(d, j))
    {
      assert RelayOk(c.sessions[j], Sent(c, j));
    }
  }

  /** The same relay, but that it may have been stopped with its session. */
  ghost predicate SameWork(s: Session, t: Session) {
    t == s || t == s.(alive := false, relay := s.relay.(running := false))
  }

  lemma AnsweredNext(seen: seq<Seen>, data: seq<byte>)
    requires F.Read(data).Parsed?
    ensures var longer := seen + [Answered(data)];
            DeskAfter(longer) == Answer(DeskAfter(seen), F.Read(data).frame) && FramesOf(longer) == FramesOf(seen)
  {
    var longer := seen + [Answered(data)];
    assert longer[..|longer| - 1] == seen;
  }

  lemma StepKeeps(password: seq<byte>, c: Client, ev: Event)
    requires Inv(password, c) && Enabled(c, ev)
    ensures Inv(password, Step(password, c, ev))
  {
    if !c.threw {
      match ev
      case Associates => AssociateKeeps(password, c);
      case Closes(i) => CloseKeeps(password, c, i);
      case Local(i, from, datagram) => LocalKeeps(password, c, i, from, datagram);
      case Handshakes(result, order) => HandshakeKeeps(password, c, result, order);
      case Receives(record) => RecordKeeps(password, c, record);
    }
  }

  /** A flush adds no session, and touches none that it does not visit. */
  lemma {:induction false} FlushAllStays(c: Client, order: seq<nat>)
    requires forall k :: 0 <= k < |order| ==> order[k] < |c.sessions|
    ensures var d := FlushAll(c, order);
            && |d.sessions| == |c.sessions| && d.relays == c.relays && d.channel.done == c.channel.done
               && d.threw == c.threw
            && forall i :: 0 <= i < |c.sessions| && i !in order ==> d.sessions[i] == c.sessions[i]
    decreases |order|
  {
    if order != [] {
      var next := Flush(c, order[0]);
      SendAllStays(c.channel, c.sessions[order[0]].sid, c.sessions[order[0]].relay.pending);
      FlushAllStays(next, order[1..]);
      assert forall i :: i in order[1..] ==> i in order;
    }
  }

  lemma {:induction false} SendAllStays(ch: Channel, sid: u16, frames: seq<seq<byte>>)
    ensures SendAll(ch, sid, frames) == ch.(submitted := SendAll(ch, sid, frames).submitted)
    decreases |frames|
  {
    if frames != [] {
      SendAllStays(Send(ch, Tagged(sid, frames[0])), sid, frames[1..]);
    }
  }

  /** The events form a run from the start, and the state it reaches. */
  ghost predicate Legal(password: seq<byte>, usable: bool, evs: seq<Event>)
    decreases |evs|, 0
  {
    || evs == []
    || (Legal(password, usable, evs[..|evs| - 1])
        && Enabled(After(password, usable, evs[..|evs| - 1]), evs[|evs| - 1]))
  }

  ghost function After(password: seq<byte>, usable: bool, evs: seq<Event>): Client
    requires Legal(password, usable, evs)
    decreases |evs|, 1
  {
    if evs == [] then Initial(usable) else Step(password, After(password, usable, evs[..|evs| - 1]), evs[|evs| - 1])
  }

  /** Everything above holds in every reachable state. */
  lemma {:induction false} EveryRunKeepsInv(password: seq<byte>, usable: bool, evs: seq<Event>)
    requires Legal(password, usable, evs)
    ensures Inv(password, After(password, usable, evs))
  {
    if evs != [] {
      var front, ev := evs[..|evs| - 1], evs[|evs| - 1];
      EveryRunKeepsInv(password, usable, front);
      StepKeeps(password, After(password, usable, front), ev);
    }
  }

  /**
   In every run: success is reported at most once, the first record submitted is the password line
   and every other one belongs to one session and carries its id, no registered relay has anything
   waiting once the channel is ready, and the frames of the datagrams that arrived at a session are,
   in order, those that still wait there and then those it has submitted. A live session that
   shares its id with no other has submitted all of them.
   */
  lemma ChannelOrder(password: seq<byte>, usable: bool, evs: seq<Event>)
    requires Legal(password, usable, evs)
    ensures var ch := After(password, usable, evs).channel;
            && (forall j, k :: 0 <= j < k < |ch.reports| ==> !(ch.reports[j] && ch.reports[k]))
            && (ch.done <==> ch.submitted != []) && (ch.done ==> ch.submitted[0] == password + [LF])
    ensures OwnersOk(After(password, usable, evs)) && NothingWaits(After(password, usable, evs))
    ensures var c := After(password, usable, evs);
            forall i :: 0 <= i < |c.sessions| ==>
              var s := c.sessions[i];
              && FramesOf(s.relay.seen) == s.relay.pending + Sent(c, i)
              && (c.channel.done && s.alive && Alone(c, i) ==> Sent(c, i) == FramesOf(s.relay.seen))
  {
    EveryRunKeepsInv(password, usable, evs);
    var c := After(password, usable, evs);
    forall i | 0 <= i < |c.sessions|
      ensures var s := c.sessions[i];
              && FramesOf(s.relay.seen) == s.relay.pending + Sent(c, i)
              && (c.channel.done && s.alive && Alone(c, i) ==> Sent(c, i) == FramesOf(s.relay.seen))
    {
      assert RelayOk(c.sessions[i], Sent(c, i));
      if c.channel.done && c.sessions[i].alive && Alone(c, i) {
        assert HeldWhileAlive(c, i);
      }
    }
  }

  /** The channel gets ready with event `n`. */
  ghost predicate ReadyAt(password: seq<byte>, usable: bool, evs: seq<Event>, n: nat) {
    && n < |evs| && Legal(password, usable, evs[..n]) && Legal(password, usable, evs[..n + 1])
    && !After(password, usable, evs[..n]).channel.done && After(password, usable, evs[..n + 1]).channel.done
  }

  lemma {:induction false} BecameReady(password: seq<byte>, usable: bool, evs: seq<Event>)
    requires Legal(password, usable, evs) && After(password, usable, evs).channel.done
    ensures exists n: nat :: ReadyAt(password, usable, evs, n)
  {
    var m := |evs| - 1;
    assert evs[..m + 1] == evs;
    if After(password, usable, evs[..m]).channel.done {
      BecameReady(password, usable, evs[..m]);
      var n: nat :| ReadyAt(password, usable, evs[..m], n);
      assert evs[..m][..n] == evs[..n] && evs[..m][..n + 1] == evs[..n + 1];
      assert ReadyAt(password, usable, evs, n);
    } else {
      assert ReadyAt(password, usable, evs, m);
    }
  }

  /** Once the channel is ready, what waits at a session waits for good, and nothing new does. */
  lemma {:induction false} LeftWaiting(password: seq<byte>, usable: bool, evs: seq<Event>, n: nat, i: nat)
    requires n <= |evs| && Legal(password, usable, evs) && Legal(password, usable, evs[..n])
    requires After(password, usable, evs[..n]).channel.done && i < |After(password, usable, evs).sessions|
    ensures After(password, usable, evs).channel.done
    ensures var b := After(password, usable, evs[..n]);
            After(password, usable, evs).sessions[i].relay.pending
            == if i < |b.sessions| then b.sessions[i].relay.pending else []
    decreases |evs|
  {
    if n == |evs| {
      assert evs[..n] == evs;
    } else {
      var front := evs[..|evs| - 1];
      var c := After(password, usable, front);
      assert front[..n] == evs[..n];
      StaysReady(password, usable, front, n);
      ReadyStep(password, c, evs[|evs| - 1]);
      if i < |c.sessions| {
        LeftWaiting(password, usable, front, n, i);
      }
    }
  }

  lemma {:induction false} StaysReady(password: seq<byte>, usable: bool, evs: seq<Event>, n: nat)
    requires n <= |evs| && Legal(password, usable, evs) && Legal(password, usable, evs[..n])
    requires After(password, usable, evs[..n]).channel.done
    ensures After(password, usable, evs).channel.done
    ensures |After(password, usable, evs[..n]).sessions| <= |After(password, usable, evs).sessions|
    decreases |evs|
  {
    if n == |evs| {
      assert evs[..n] == evs;
    } else {
      var front := evs[..|evs| - 1];
      assert front[..n] == evs[..n];
      StaysReady(password, usable, front, n);
      ReadyStep(password, After(password, usable, front), evs[|evs| - 1]);
    }
  }

  /** With the channel ready, a step leaves every queue alone. */
  lemma ReadyStep(password: seq<byte>, c: Client, ev: Event)
    requires Enabled(c, ev) && c.channel.done
    ensures var d := Step(password, c, ev);
            && d.channel.done && |c.sessions| <= |d.sessions|
            && (forall i :: 0 <= i < |c.sessions| ==> d.sessions[i].relay.pending == c.sessions[i].relay.pending)
            && (forall i :: |c.sessions| <= i < |d.sessions| ==> d.sessions[i].relay.pending == [])
  {
  }

  /**
   When the channel got ready with event `n`, a session has submitted every frame it made if and
   only if it was opened later, or was registered then, or had made no frame by then.
   */
  lemma AllSubmittedIff(password: seq<byte>, usable: bool, evs: seq<Event>, n: nat, i: nat)
    requires Legal(password, usable, evs) && ReadyAt(password, usable, evs, n)
    requires i < |After(password, usable, evs).sessions|
    ensures var b, c := After(password, usable, evs[..n]), After(password, usable, evs);
            && |c.owners| == |FrameRecords(c.channel)|
            && (Sent(c, i) == FramesOf(c.sessions[i].relay.seen)
                <==> i >= |b.sessions| || i in b.relays.Values || FramesOf(b.sessions[i].relay.seen) == [])
  {
    var b, c := After(password, usable, evs[..n]), After(password, usable, evs);
    EveryRunKeepsInv(password, usable, evs);
    EveryRunKeepsInv(password, usable, evs[..n]);
    SentAllIff(password, c, i);
    LeftWaiting(password, usable, evs, n + 1, i);
    assert evs[..n + 1][..n] == evs[..n];
    ReadyFlushes(password, b, evs[n]);
    if i < |b.sessions| {
      SentAllIff(password, b, i);
    }
  }

  lemma SentAllIff(password: seq<byte>, c: Client, i: nat)
    requires Inv(password, c) && i < |c.sessions|
    ensures Sent(c, i) == FramesOf(c.sessions[i].relay.seen) <==> c.sessions[i].relay.pending == []
    ensures FramesOf(c.sessions[i].relay.seen) == c.sessions[i].relay.pending <==> Sent(c, i) == []
    ensures !c.channel.done ==> Sent(c, i) == []
  {
    assert RelayOk(c.sessions[i], Sent(c, i));
    Parts(FramesOf(c.sessions[i].relay.seen), c.sessions[i].relay.pending, Sent(c, i));
  }

  lemma Parts(whole: seq<seq<byte>>, front: seq<seq<byte>>, rest: seq<seq<byte>>)
    requires whole == front + rest
    ensures whole == rest <==> front == []
    ensures whole == front <==> rest == []
  {
    assert |whole| == |front| + |rest|;
  }

  /** The step that makes the channel ready empties exactly the queues of the registered relays. */
  lemma ReadyFlushes(password: seq<byte>, b: Client, ev: Event)
    requires Inv(password, b) && Enabled(b, ev) && !b.channel.done && Step(password, b, ev).channel.done
    ensures var d := Step(password, b, ev);
            && |d.sessions| == |b.sessions|
            && forall i :: 0 <= i < |b.sessions| ==>
                 d.sessions[i].relay.pending == if i in b.relays.Values then [] else b.sessions[i].relay.pending
  {
    var m := b.(channel := DoHandshake(b.channel, password, ev.result));
    FlushAllStays(m, ev.order);
    assert forall sid :: sid in b.relays ==> Owns(b, b.relays[sid], sid);
    StepKeeps(password, b, ev);
  }

  /** A session that receives a datagram, and then `n` others, each opened and closed again. */
  function Crowd(n: nat, from: Endpoint, datagram: Datagram): seq<Event> {
    if n == 0 then [Associates] + [Local(0, from, datagram)]
    else Crowd(n - 1, from, datagram) + [Associates] + [Closes(n)]
  }

  ghost predicate Crowded(c: Client, n: nat, frame: seq<byte>) {
    && IdsOk(c) && |c.sessions| == n + 1 && !c.threw && !c.channel.done && c.channel.usable && c.channel.running
    && c.sessions[0].alive && c.sessions[0].relay.running && c.sessions[0].relay.pending == [frame]
    && c.relays.Keys == if n < 0xFFFF then {1} else {0, 1}
  }

  lemma FirstOfCrowd(password: seq<byte>, from: Endpoint, datagram: Datagram, frame: seq<byte>)
    requires FrameOf(datagram) == Some(frame)
    ensures Legal(password, true, Crowd(0, from, datagram))
    ensures Crowded(After(password, true, Crowd(0, from, datagram)), 0, frame)
  {
    var open := [] + [Associates];
    assert Legal(password, true, []);
    RunNext(password, true, [], Associates);
    assert After(password, true, open) == Associate(Initial(true));
    OneWaits(Associate(Initial(true)), from, datagram, FrameOf(datagram));
    LocalNext(password, open, from, datagram, Associate(Initial(true)));
    assert open + [Local(0, from, datagram)] == Crowd(0, from, datagram);
  }

  lemma LocalNext(password: seq<byte>, evs: seq<Event>, from: Endpoint, datagram: Datagram, c: Client)
    requires Legal(password, true, evs) && After(password, true, evs) == c && c.sessions != [] && !c.threw
    ensures Legal(password, true, evs + [Local(0, from, datagram)])
    ensures After(password, true, evs + [Local(0, from, datagram)]) == OnLocal(c, 0, from, datagram)
  {
    RunNext(password, true, evs, Local(0, from, datagram));
  }

  lemma OneWaits(c: Client, from: Endpoint, datagram: Datagram, frame: Option<seq<byte>>)
    requires c == Associate(Initial(true)) && frame.Some? && frame == FrameOf(datagram)
    ensures Crowded(OnLocal(c, 0, from, datagram), 0, frame.value)
  {
    assert c.sessions[0].relay == FRESH;
    FirstWaits(c, Remember(FRESH, from, datagram), frame.value);
  }

  lemma FirstWaits(c: Client, relay: Relay, frame: seq<byte>)
    requires c == Associate(Initial(true)) && relay.running && relay.pending == []
    ensures Crowded(Handle(c, 0, relay, Some(frame)), 0, frame)
  {
    var d := Handle(c, 0, relay, Some(frame));
    assert d.sessions[0].relay.pending == [frame];
    assert d.relays.Keys == {1};
  }

  lemma OneMoreInCrowd(c: Client, n: nat, frame: seq<byte>)
    requires Crowded(c, n, frame) && n < 0xFFFF
    ensures Crowded(Close(Associate(c), n + 1), n + 1, frame)
  {
    var a, sid := Associate(c), c.nextId;
    var d := Close(a, n + 1);
    assert a.relays.Keys == c.relays.Keys + {sid};
    assert d.relays.Keys == if sid != 0 then a.relays.Keys - {sid} else a.relays.Keys;
  }

  lemma TwoMoreInCrowd(password: seq<byte>, evs: seq<Event>, n: nat, frame: seq<byte>)
    requires Legal(password, true, evs) && Crowded(After(password, true, evs), n, frame) && n < 0xFFFF
    ensures Legal(password, true, evs + [Associates] + [Closes(n + 1)])
    ensures Crowded(After(password, true, evs + [Associates] + [Closes(n + 1)]), n + 1, frame)
  {
    RunNext(password, true, evs, Associates);
    RunNext(password, true, evs + [Associates], Closes(n + 1));
    OneMoreInCrowd(After(password, true, evs), n, frame);
  }

  lemma {:induction false} CrowdReaches(password: seq<byte>, n: nat, from: Endpoint, datagram: Datagram)
    requires FrameOf(datagram).Some? && n <= 0xFFFF
    ensures Legal(password, true, Crowd(n, from, datagram))
    ensures Crowded(After(password, true, Crowd(n, from, datagram)), n, FrameOf(datagram).value)
  {
    if n == 0 {
      FirstOfCrowd(password, from, datagram, FrameOf(datagram).value);
    } else {
      CrowdReaches(password, n - 1, from, datagram);
      TwoMoreInCrowd(password, Crowd(n - 1, from, datagram), n - 1, FrameOf(datagram).value);
    }
  }

  /** ... then the session that takes over the first one's id, the handshake, and one more datagram at the first. */
  function Overtaking(from: Endpoint, datagram: Datagram): seq<Event> {
    Crowd(0xFFFF, from, datagram) + [Associates] + [Handshakes(Completed, [0xFFFF, 0x1_0000])]
      + [Local(0, from, datagram)]
  }

  /** The first session lives, its first frame waits for good, and its second one went out. */
  lemma OvertakenForGood(password: seq<byte>, from: Endpoint, datagram: Datagram)
    requires FrameOf(datagram).Some?
    ensures Legal(password, true, Overtaking(from, datagram))
    ensures var c, frame := After(password, true, Overtaking(from, datagram)), FrameOf(datagram).value;
            && c.sessions != [] && c.sessions[0].alive && c.sessions[0].relay.pending == [frame]
            && |c.owners| == |FrameRecords(c.channel)| && Sent(c, 0) == [frame]
  {
    var evs, ready := Crowd(0xFFFF, from, datagram), Handshakes(Completed, [0xFFFF, 0x1_0000]);
    CrowdReaches(password, 0xFFFF, from, datagram);
    var c := After(password, true, evs);
    EveryRunKeepsInv(password, true, evs);
    RunNext(password, true, evs, Associates);
    TakenOver(password, c, FrameOf(datagram).value);
    RunNext(password, true, evs + [Associates], ready);
    EveryRunKeepsInv(password, true, evs + [Associates] + [ready]);
    RunNext(password, true, evs + [Associates] + [ready], Local(0, from, datagram));
    OneGoesOut(password, Step(password, Associate(c), ready), from, datagram);
  }

  /** The 65537th session gets the first one's id, and its place in the registry. */
  lemma TakenOver(password: seq<byte>, c: Client, frame: seq<byte>)
    requires Inv(password, c) && Crowded(c, 0xFFFF, frame)
    ensures var a, ready := Associate(c), Handshakes(Completed, [0xFFFF, 0x1_0000]);
            && Enabled(a, ready)
            && var d := Step(password, a, ready);
               && d.channel.done && !d.threw && d.sessions != [] && d.sessions[0] == c.sessions[0]
               && Inv(password, d) && Sent(d, 0) == []
  {
    var a := Associate(c);
    AssociateKeeps(password, c);
    Takeover(c, frame);
    TwoRegistered(a);
    PassedOver(password, a, [0xFFFF, 0x1_0000]);
  }

  /** The first session is not registered when the channel gets ready: it keeps what waits, and has sent nothing. */
  lemma PassedOver(password: seq<byte>, a: Client, order: seq<nat>)
    requires Inv(password, a) && Covers(a, order) && !a.threw && !a.channel.done && a.channel.usable
    requires a.sessions != [] && 0 !in order
    ensures var d := Step(password, a, Handshakes(Completed, order));
            && d.channel.done && !d.threw && d.sessions != [] && d.sessions[0] == a.sessions[0]
            && Inv(password, d) && Sent(d, 0) == []
  {
    Skips(password, a, order);
    StepKeeps(password, a, Handshakes(Completed, order));
    SentAllIff(password, a, 0);
    SentAllIff(password, Step(password, a, Handshakes(Completed, order)), 0);
  }

  lemma Skips(password: seq<byte>, a: Client, order: seq<nat>)
    requires Covers(a, order) && !a.threw && !a.channel.done && a.channel.usable && a.channel.running
    requires a.sessions != [] && 0 !in order
    ensures var d := Step(password, a, Handshakes(Completed, order));
            d.channel.done && !d.threw && d.sessions != [] && d.sessions[0] == a.sessions[0]
  {
    FlushAllStays(a.(channel := DoHandshake(a.channel, password, Completed)), order);
  }

  lemma Takeover(c: Client, frame: seq<byte>)
    requires Crowded(c, 0xFFFF, frame)
    ensures var a := Associate(c);
            |a.sessions| == 0x1_0001 && a.relays.Keys == {0, 1} && a.relays[1] == 0x1_0000
              && a.sessions[0] == c.sessions[0]
  {
    assert c.nextId == 1;
    assert Associate(c).relays.Keys == c.relays.Keys + {1};
  }

  lemma TwoRegistered(a: Client)
    requires IdsOk(a) && RegistryOk(a) && |a.sessions| == 0x1_0001
    requires a.relays.Keys == {0, 1} && a.relays[1] == 0x1_0000
    ensures Covers(a, [0xFFFF, 0x1_0000])
  {
    assert 0 in a.relays && 1 in a.relays;
    assert Owns(a, a.relays[0], 0);
    OnlyZero(a, a.relays[0]);
  }

  lemma OnlyZero(a: Client, i: nat)
    requires IdsOk(a) && |a.sessions| == 0x1_0001 && i < |a.sessions| && a.sessions[i].sid == 0
    ensures i == 0xFFFF
  {
  }

  lemma OneGoesOut(password: seq<byte>, c: Client, from: Endpoint, datagram: Datagram)
    requires Inv(password, c) && c.channel.done && !c.threw && FrameOf(datagram).Some?
    requires c.sessions != [] && c.sessions[0].alive && Sent(c, 0) == []
    ensures var d := Step(password, c, Local(0, from, datagram));
            && d.sessions[0].alive && d.sessions[0].relay.pending == c.sessions[0].relay.pending
            && |d.owners| == |FrameRecords(d.channel)| && Sent(d, 0) == [FrameOf(datagram).value]
  {
    var d := Step(password, c, Local(0, from, datagram));
    StepKeeps(password, c, Local(0, from, datagram));
    assert RelayOk(c.sessions[0], Sent(c, 0)) && RelayOk(d.sessions[0], Sent(d, 0));
    AskedNext(c.sessions[0].relay.seen, from, datagram);
  }

  /** Sessions opened and closed one after the other, `n` of them. */
  function OpenAndClose(n: nat): seq<Event> {
    if n == 0 then [] else OpenAndClose(n - 1) + [Associates] + [Closes(n - 1)]
  }

  lemma RunNext(password: seq<byte>, usable: bool, evs: seq<Event>, ev: Event)
    requires Legal(password, usable, evs) && Enabled(After(password, usable, evs), ev)
    ensures Legal(password, usable, evs + [ev])
    ensures After(password, usable, evs + [ev]) == Step(password, After(password, usable, evs), ev)
  {
    var longer := evs + [ev];
    assert longer[..|longer| - 1] == evs;
  }

  /** `n` sessions, all closed; the registry is empty, or holds the relay whose id wrapped to zero. */
  ghost predicate AllClosed(c: Client, n: nat) {
    && IdsOk(c) && |c.sessions| == n && !c.threw
    && (forall i :: 0 <= i < n ==> !c.sessions[i].alive)
    && c.relays.Keys == if n < 0x1_0000 then {} else {0}
  }

  lemma OneMore(c: Client, n: nat)
    requires AllClosed(c, n)
    ensures AllClosed(Close(Associate(c), n), n + 1)
  {
    OneMoreKeys(c, n);
    assert c.nextId == 0 <==> (n + 1) % 0x1_0000 == 0;
  }

  lemma OneMoreKeys(c: Client, n: nat)
    requires |c.sessions| == n
    ensures Close(Associate(c), n).relays.Keys
            == if c.nextId == 0 then c.relays.Keys + {0} else c.relays.Keys - {c.nextId}
  {
    var a, sid := Associate(c), c.nextId;
    assert a.relays.Keys == c.relays.Keys + {sid};
    assert Close(a, n).relays.Keys == if sid != 0 then a.relays.Keys - {sid} else a.relays.Keys;
  }

  lemma TwoMoreEvents(password: seq<byte>, usable: bool, evs: seq<Event>, n: nat)
    requires Legal(password, usable, evs) && AllClosed(After(password, usable, evs), n)
    ensures Legal(password, usable, evs + [Associates] + [Closes(n)])
    ensures AllClosed(After(password, usable, evs + [Associates] + [Closes(n)]), n + 1)
  {
    var c := After(password, usable, evs);
    RunNext(password, usable, evs, Associates);
    RunNext(password, usable, evs + [Associates], Closes(n));
    OneMore(c, n);
  }

  /** After 65536 of them the registry still holds a closed relay. */
  lemma {:induction false} OpenAndCloseReaches(password: seq<byte>, usable: bool, n: nat)
    ensures Legal(password, usable, OpenAndClose(n))
    ensures AllClosed(After(password, usable, OpenAndClose(n)), n)
  {
    if n > 0 {
      OpenAndCloseReaches(password, usable, n - 1);
      TwoMoreEvents(password, usable, OpenAndClose(n - 1), n - 1);
    }
  }

  ghost predicate ExactAfter(password: seq<byte>, usable: bool, evs: seq<Event>, n: nat) {
    Legal(password, usable, evs) && |After(password, usable, evs).sessions| == n ==>
      RegistryExact(After(password, usable, evs))
  }

  /** The registry is exact in every run with `n` sessions if and only if `n` is at most 65535. */
  lemma RegistryExactIff(password: seq<byte>, usable: bool, n: nat)
    ensures (forall evs :: ExactAfter(password, usable, evs, n)) <==> n <= 0xFFFF
  {
    if n <= 0xFFFF {
      forall evs
        ensures ExactAfter(password, usable, evs, n)
      {
        if Legal(password, usable, evs) && |After(password, usable, evs).sessions| == n {
          EveryRunKeepsInv(password, usable, evs);
          ExactUpTo65535(After(password, usable, evs));
        }
      }
    } else {
      OpenAndCloseReaches(password, usable, n);
      ClosedButRegistered(After(password, usable, OpenAndClose(n)), n);
      assert !ExactAfter(password, usable, OpenAndClose(n), n);
    }
  }

  lemma ClosedButRegistered(c: Client, n: nat)
    requires AllClosed(c, n) && n > 0xFFFF
    ensures !RegistryExact(c)
  {
    assert 0 in c.relays.Keys;
  }

  /**
   In every run a record touches only a live session that has the id in front of the record. Up to
   65535 sessions that is one session: ids are non-zero and pairwise distinct.
   */
  lemma DispatchedToOwner(password: seq<byte>, usable: bool, evs: seq<Event>, record: seq<byte>, i: nat, j: nat)
    requires Legal(password, usable, evs)
    requires var c := After(password, usable, evs); i < |c.sessions| && j < |c.sessions|
    ensures var c := After(password, usable, evs);
            && (OnRecord(c, record).sessions[i] != c.sessions[i] ==> c.sessions[i].alive && Addressee(c, record, i))
            && (|c.sessions| <= 0xFFFF ==>
                  c.sessions[i].sid != 0 && (c.sessions[i].sid == c.sessions[j].sid ==> i == j))
  {
    EveryRunKeepsInv(password, usable, evs);
    var c := After(password, usable, evs);
    assert RelayOk(c.sessions[i], Sent(c, i));
    if OnRecord(c, record).sessions[i] != c.sessions[i] {
      OnlyOwnerTouched(c, record, i);
    }
    if |c.sessions| <= 0xFFFF {
      DistinctIds(c, i, j);
    }
  }

  ghost predicate Addressee(c: Client, record: seq<byte>, i: nat)
    requires i < |c.sessions|
  {
    |record| >= 2 && c.sessions[i].sid == GetU16(record, 0)
  }

  lemma OnlyOwnerTouched(c: Client, record: seq<byte>, i: nat)
    requires RegistryOk(c) && i < |c.sessions| && OnRecord(c, record).sessions[i] != c.sessions[i]
    ensures Addressee(c, record, i) && c.sessions[i].relay.running && Registered(c, GetU16(record, 0)) == Some(i)
  {
    assert Owns(c, c.relays[GetU16(record, 0)], GetU16(record, 0));
  }

  /** Session `i` is alive, the record carries its id and a frame that parses, and the channel is ready. */
  ghost predicate Reaches(c: Client, record: seq<byte>, i: nat)
    requires i < |c.sessions|
  {
    && c.channel.done && c.sessions[i].alive && Addressee(c, record, i) && F.Read(record[2..]).Parsed?
  }

  /** The record was handed to session `i`, which passed one datagram on, and to no other. */
  ghost predicate DeliveredTo(c: Client, record: seq<byte>, i: nat, d: Client)
    requires i < |c.sessions| && |record| >= 2 && F.Read(record[2..]).Parsed?
  {
    && |d.sessions| == |c.sessions| && d == c.(sessions := d.sessions)
    && (forall j :: 0 <= j < |c.sessions| && j != i ==> d.sessions[j] == c.sessions[j])
    && var s, t, f := c.sessions[i].relay, d.sessions[i].relay, F.Read(record[2..]).frame;
       && t.toApp == s.toApp + [(AppEndpoint(s.desk, f.dst), ReplyFor(f))] && t.seen == s.seen + [Answered(record[2..])]
       && t.pending == s.pending && d.sessions[i].alive
  }

  /**
   In every run a record is handed to a session that shares its id with no other exactly if the channel
   is ready, the session is alive, and the record carries its id and a frame that parses. Then one
   datagram goes to its application, and no other session is touched.
   */
  lemma DeliveredIff(password: seq<byte>, usable: bool, evs: seq<Event>, record: seq<byte>, i: nat)
    requires Legal(password, usable, evs)
    requires var c := After(password, usable, evs); !c.threw && i < |c.sessions| && Alone(c, i)
    ensures var c := After(password, usable, evs);
            var d := Step(password, c, Receives(record));
            && (d.sessions[i] != c.sessions[i] <==> Reaches(c, record, i))
            && (Reaches(c, record, i) ==> DeliveredTo(c, record, i, d))
  {
    EveryRunKeepsInv(password, usable, evs);
    ReachedIff(password, After(password, usable, evs), record, i);
  }

  lemma ReachedIff(password: seq<byte>, c: Client, record: seq<byte>, i: nat)
    requires Inv(password, c) && !c.threw && i < |c.sessions| && Alone(c, i)
    ensures var d := Step(password, c, Receives(record));
            && |d.sessions| == |c.sessions|
            && (d.sessions[i] != c.sessions[i] <==> Reaches(c, record, i))
            && (Reaches(c, record, i) ==> DeliveredTo(c, record, i, d))
  {
    assert RelayOk(c.sessions[i], Sent(c, i)) && HeldWhileAlive(c, i);
    if OnRecord(c, record).sessions[i] != c.sessions[i] {
      OnlyOwnerTouched(c, record, i);
    }
    if Reaches(c, record, i) {
      HeldDelivers(c, record, i);
    }
  }

  lemma HeldDelivers(c: Client, record: seq<byte>, i: nat)
    requires i < |c.sessions| && Holds(c, i) && c.sessions[i].relay.running && c.channel.running
    requires Reaches(c, record, i)
    ensures DeliveredTo(c, record, i, OnRecord(c, record)) && OnRecord(c, record).sessions[i] != c.sessions[i]
  {
    var s, t := c.sessions[i].relay, OnRecord(c, record).sessions[i].relay;
    assert |t.toApp| == |s.toApp| + 1;
  }

  /** In a run that did not throw, a session is alive until the first event that closes it. */
  lemma {:induction false} AliveIff(password: seq<byte>, usable: bool, evs: seq<Event>, i: nat)
    requires Legal(password, usable, evs)
    requires !After(password, usable, evs).threw && i < |After(password, usable, evs).sessions|
    ensures After(password, usable, evs).sessions[i].alive <==> Closes(i) !in evs
  {
    var front, ev := evs[..|evs| - 1], evs[|evs| - 1];
    var c := After(password, usable, front);
    assert evs == front + [ev];
    LivesStep(password, c, ev);
    if i < |c.sessions| {
      AliveIff(password, usable, front, i);
    } else {
      NotYetClosed(password, usable, front, i);
    }
  }

  lemma LivesStep(password: seq<byte>, c: Client, ev: Event)
    requires Enabled(c, ev) && !Step(password, c, ev).threw
    ensures var d := Step(password, c, ev);
            && !c.threw && |d.sessions| == |c.sessions| + (if ev.Associates? then 1 else 0)
            && (forall i :: 0 <= i < |c.sessions| ==>
                  (d.sessions[i].alive <==> c.sessions[i].alive && ev != Closes(i)))
            && (ev.Associates? ==> d.sessions[|c.sessions|].alive)
  {
    if ev.Handshakes? {
      var m := c.(channel := DoHandshake(c.channel, password, ev.result));
      FlushAllLives(m, ev.order);
    }
  }

  lemma {:induction false} FlushAllLives(c: Client, order: seq<nat>)
    requires forall k :: 0 <= k < |order| ==> order[k] < |c.sessions|
    ensures |FlushAll(c, order).sessions| == |c.sessions|
    ensures forall i :: 0 <= i < |c.sessions| ==> FlushAll(c, order).sessions[i].alive == c.sessions[i].alive
    ensures forall i :: 0 <= i < |c.sessions| ==> FlushAll(c, order).sessions[i].relay.seen == c.sessions[i].relay.seen
    decreases |order|
  {
    if order != [] {
      FlushAllLives(Flush(c, order[0]), order[1..]);
    }
  }

  lemma {:induction false} NotYetClosed(password: seq<byte>, usable: bool, evs: seq<Event>, i: nat)
    requires Legal(password, usable, evs)
    requires !After(password, usable, evs).threw && i >= |After(password, usable, evs).sessions|
    ensures Closes(i) !in evs
  {
    if evs != [] {
      var front, ev := evs[..|evs| - 1], evs[|evs| - 1];
      assert evs == front + [ev];
      LivesStep(password, After(password, usable, front), ev);
      NotYetClosed(password, usable, front, i);
    }
  }

  /** What an event lets session `i` see: what its application sends, and what is registered as its own. */
  function Arrives(c: Client, ev: Event, i: nat): seq<Seen> {
    if c.threw || i >= |c.sessions| || !c.sessions[i].alive then []
    else if ev.Local? && ev.i == i then [Asked(ev.from, ev.datagram)]
    else if ev.Receives? && c.channel.done && |ev.record| >= 2 && F.Read(ev.record[2..]).Parsed?
         && GetU16(ev.record, 0) in c.relays && c.relays[GetU16(ev.record, 0)] == i then [Answered(ev.record[2..])]
    else []
  }

  ghost function Arrivals(password: seq<byte>, usable: bool, evs: seq<Event>, i: nat): seq<Seen>
    requires Legal(password, usable, evs)
  {
    if evs == [] then []
    else
      var front := evs[..|evs| - 1];
      Arrivals(password, usable, front, i) + Arrives(After(password, usable, front), evs[|evs| - 1], i)
  }

  lemma SeesStep(password: seq<byte>, c: Client, ev: Event, i: nat)
    requires Inv(password, c) && Enabled(c, ev) && i < |c.sessions|
    ensures var d := Step(password, c, ev);
            i < |d.sessions| && d.sessions[i].relay.seen == c.sessions[i].relay.seen + Arrives(c, ev, i)
  {
    assert RelayOk(c.sessions[i], Sent(c, i));
    if !c.threw {
      match ev
      case Associates =>
      case Closes(_) =>
      case Local(at, from, datagram) => LocalSees(c, at, from, datagram, i);
      case Handshakes(result, order) => FlushAllLives(c.(channel := DoHandshake(c.channel, password, result)), order);
      case Receives(record) => RecordSees(c, record, i);
    }
  }

  lemma RecordSees(c: Client, record: seq<byte>, i: nat)
    requires i < |c.sessions| && c.channel.running && c.sessions[i].alive == c.sessions[i].relay.running && !c.threw
    ensures var d := OnRecord(c, record);
            |d.sessions| == |c.sessions|
              && d.sessions[i].relay.seen == c.sessions[i].relay.seen + Arrives(c, Receives(record), i)
  {
  }

  lemma LocalSees(c: Client, at: nat, from: Endpoint, datagram: Datagram, i: nat)
    requires i < |c.sessions| && at < |c.sessions|
    ensures var d, s := OnLocal(c, at, from, datagram), c.sessions[i].relay;
            |d.sessions| == |c.sessions|
              && d.sessions[i].relay.seen == s.seen + if at == i && s.running then [Asked(from, datagram)] else []
  {
    HandleSees(c, at, Remember(c.sessions[at].relay, from, datagram), FrameOf(datagram), i);
  }

  lemma HandleSees(c: Client, at: nat, relay: Relay, frame: Option<seq<byte>>, i: nat)
    requires i < |c.sessions| && at < |c.sessions|
    ensures var d := Handle(c, at, relay, frame);
            |d.sessions| == |c.sessions|
              && d.sessions[i].relay.seen == if at == i then relay.seen else c.sessions[i].relay.seen
  {
  }

  /** In every run a session has seen, in order, exactly what arrived for it while it was alive. */
  lemma {:induction false} SeenIs(password: seq<byte>, usable: bool, evs: seq<Event>, i: nat)
    requires Legal(password, usable, evs) && i < |After(password, usable, evs).sessions|
    ensures After(password, usable, evs).sessions[i].relay.seen == Arrivals(password, usable, evs, i)
  {
    var front, ev := evs[..|evs| - 1], evs[|evs| - 1];
    var c := After(password, usable, front);
    if i < |c.sessions| {
      SeenIs(password, usable, front, i);
      EveryRunKeepsInv(password, usable, front);
      SeesStep(password, c, ev, i);
    } else {
      NothingYet(password, usable, front, i);
      NewSessionFresh(password, c, ev, i);
    }
  }

  lemma NewSessionFresh(password: seq<byte>, c: Client, ev: Event, i: nat)
    requires Enabled(c, ev) && |c.sessions| <= i < |Step(password, c, ev).sessions|
    ensures Step(password, c, ev).sessions[i].relay == FRESH
  {
    if ev.Handshakes? {
      FlushAllLives(c.(channel := DoHandshake(c.channel, password, ev.result)), ev.order);
    }
  }

  lemma {:induction false} NothingYet(password: seq<byte>, usable: bool, evs: seq<Event>, i: nat)
    requires Legal(password, usable, evs) && i >= |After(password, usable, evs).sessions|
    ensures Arrivals(password, usable, evs, i) == []
  {
    if evs != [] {
      var front, ev := evs[..|evs| - 1], evs[|evs| - 1];
      StepExtends(password, After(password, usable, front), ev);
      NothingYet(password, usable, front, i);
    }
  }

  /** What the attempts at the handshake report: every failure, and then the success that ends them. */
  function Reports(evs: seq<Event>): seq<bool> {
    if evs == [] then []
    else
      var before, ev := Reports(evs[..|evs| - 1]), evs[|evs| - 1];
      if !ev.Handshakes? || ev.result.Waits? || true in before then before else before + [ev.result.Completed?]
  }

  lemma ReportsStep(password: seq<byte>, c: Client, ev: Event)
    requires Enabled(c, ev) && !c.threw && c.channel.usable && c.channel.running
    requires c.channel.done <==> true in c.channel.reports
    ensures var ch, d := c.channel, Step(password, c, ev).channel;
            && d.usable && d.running && (d.done <==> true in d.reports)
            && d.reports == if !ev.Handshakes? || ev.result.Waits? || ch.done then ch.reports
                            else ch.reports + [ev.result.Completed?]
  {
    if ev.Handshakes? {
      var m := c.(channel := DoHandshake(c.channel, password, ev.result));
      if m.channel.done && !c.channel.done {
        FlushAllReports(m, ev.order);
      }
    } else if ev.Local? {
      LocalReports(c, ev.i, ev.from, ev.datagram);
    }
  }

  lemma LocalReports(c: Client, i: nat, from: Endpoint, datagram: Datagram)
    requires i < |c.sessions|
    ensures var ch := OnLocal(c, i, from, datagram).channel; ch == c.channel.(submitted := ch.submitted)
  {
    SubmitReports(c.channel, c.sessions[i].sid, FrameOf(datagram));
  }

  lemma SubmitReports(ch: Channel, sid: u16, frame: Option<seq<byte>>)
    ensures Submitted(ch, sid, frame) == ch.(submitted := Submitted(ch, sid, frame).submitted)
  {
  }

  lemma {:induction false} FlushAllReports(c: Client, order: seq<nat>)
    requires forall k :: 0 <= k < |order| ==> order[k] < |c.sessions|
    ensures FlushAll(c, order).channel == c.channel.(submitted := FlushAll(c, order).channel.submitted)
    decreases |order|
  {
    if order != [] {
      SendAllStays(c.channel, c.sessions[order[0]].sid, c.sessions[order[0]].relay.pending);
      FlushAllReports(Flush(c, order[0]), order[1..]);
    }
  }

  /** In a run that did not throw, the callback was told exactly what the attempts up to the first success came to. */
  lemma {:induction false} ReportsAre(password: seq<byte>, evs: seq<Event>)
    requires Legal(password, true, evs) && !After(password, true, evs).threw
    ensures var ch := After(password, true, evs).channel;
            && ch.usable && ch.running && ch.reports == Reports(evs) && (ch.done <==> true in Reports(evs))
  {
    if evs != [] {
      var front, ev := evs[..|evs| - 1], evs[|evs| - 1];
      ReportsAre(password, front);
      ReportsStep(password, After(password, true, front), ev);
    }
  }

  /** Only a record from the server makes a handler throw. */
  lemma ThrowsOnlyOnRecord(password: seq<byte>, c: Client, ev: Event)
    requires Enabled(c, ev) && !c.threw && !ev.Receives?
    ensures !Step(password, c, ev).threw
  {
    if ev.Handshakes? {
      FlushAllStays(c.(channel := DoHandshake(c.channel, password, ev.result)), ev.order);
    }
  }

  /** The record is handed to a live relay, and its frame makes the parser throw. */
  predicate Chokes(c: Client, record: seq<byte>) {
    && c.channel.done && |record| >= 2 && GetU16(record, 0) in c.relays
    && var i := c.relays[GetU16(record, 0)];
       i < |c.sessions| && c.sessions[i].alive && F.Read(record[2..]).LengthError?
  }

  /** A record ends the event loop exactly if it is handed to a live relay and makes its frame parser throw. */
  lemma RecordThrowsIff(password: seq<byte>, c: Client, record: seq<byte>)
    requires Inv(password, c) && !c.threw
    ensures Step(password, c, Receives(record)).threw <==> Chokes(c, record)
  {
    if |record| >= 2 && GetU16(record, 0) in c.relays {
      var i := c.relays[GetU16(record, 0)];
      assert Owns(c, i, GetU16(record, 0));
      assert RelayOk(c.sessions[i], Sent(c, i));
      OutcomeThrowsIff(c, i, record[2..], F.Read(record[2..]));
    }
  }

  lemma OutcomeThrowsIff(c: Client, i: nat, data: seq<byte>, outcome: F.Outcome)
    requires i < |c.sessions| && !c.threw
    ensures OnOutcome(c, i, data, outcome).threw <==> c.sessions[i].relay.running && outcome.LengthError?
  {
  }

  /** Logs only grow: ids stay, what was seen and what was delivered stays. */
  ghost predicate Extends(c: Client, d: Client) {
    && |c.sessions| <= |d.sessions|
    && forall i :: 0 <= i < |c.sessions| ==>
         && d.sessions[i].sid == c.sessions[i].sid
         && c.sessions[i].relay.seen <= d.sessions[i].relay.seen
  }

  /** Nothing was delivered to any application. */
  ghost predicate SameDeliveries(c: Client, d: Client) {
    && |c.sessions| <= |d.sessions|
    && (forall i :: 0 <= i < |c.sessions| ==> d.sessions[i].relay.toApp == c.sessions[i].relay.toApp)
    && (forall i :: |c.sessions| <= i < |d.sessions| ==> d.sessions[i].relay.toApp == [])
  }

  lemma {:induction false} FlushAllLogs(c: Client, order: seq<nat>)
    requires forall k :: 0 <= k < |order| ==> order[k] < |c.sessions|
    ensures Extends(c, FlushAll(c, order)) && SameDeliveries(c, FlushAll(c, order))
    ensures |FlushAll(c, order).sessions| == |c.sessions|
    decreases |order|
  {
    if order != [] {
      var next := Flush(c, order[0]);
      FlushAllLogs(next, order[1..]);
      var d := FlushAll(next, order[1..]);
      forall i | 0 <= i < |c.sessions|
        ensures d.sessions[i].sid == c.sessions[i].sid && c.sessions[i].relay.seen <= d.sessions[i].relay.seen
        ensures d.sessions[i].relay.toApp == c.sessions[i].relay.toApp
      {
        assert next.sessions[i].sid == c.sessions[i].sid && next.sessions[i].relay.seen == c.sessions[i].relay.seen;
      }
    }
  }

  lemma StepExtends(password: seq<byte>, c: Client, ev: Event)
    requires Enabled(c, ev)
    ensures Extends(c, Step(password, c, ev))
    ensures !ev.Receives? ==> SameDeliveries(c, Step(password, c, ev))
  {
    if !c.threw {
      match ev
      case Associates =>
      case Closes(_) =>
      case Local(i, from, datagram) => LocalExtends(c, i, from, datagram);
      case Handshakes(result, order) => FlushAllLogs(c.(channel := DoHandshake(c.channel, password, result)), order);
      case Receives(record) => RecordExtends(c, record);
    }
  }

  lemma LocalExtends(c: Client, i: nat, from: Endpoint, datagram: Datagram)
    requires i < |c.sessions|
    ensures Extends(c, OnLocal(c, i, from, datagram)) && SameDeliveries(c, OnLocal(c, i, from, datagram))
  {
    HandleExtends(c, i, Remember(c.sessions[i].relay, from, datagram), FrameOf(datagram));
  }

  lemma HandleExtends(c: Client, i: nat, relay: Relay, frame: Option<seq<byte>>)
    requires i < |c.sessions| && c.sessions[i].relay.seen <= relay.seen && relay.toApp == c.sessions[i].relay.toApp
    ensures Extends(c, Handle(c, i, relay, frame)) && SameDeliveries(c, Handle(c, i, relay, frame))
  {
  }

  lemma RecordExtends(c: Client, record: seq<byte>)
    ensures Extends(c, OnRecord(c, record))
  {
  }
}
