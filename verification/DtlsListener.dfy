/**
 The DTLS listener (Server/DtlsListener.cpp): one server session per client endpoint, created on
 the first datagram, removed by the callback of its own destruction.

 `Step` follows the table of sessions only; what a datagram does inside a session is `DtlsServer`.
 */
module DtlsListeners {
  import opened Bytes
  import S = DtlsServer

  /** A session ever created: its endpoint, whether it is destroyed, how often it called back. */
  datatype Entry = Entry(ep: Endpoint, destroyed: bool, callbacks: nat)

  datatype Listener = Listener(sessions: map<Endpoint, nat>, table: seq<Entry>)

  datatype Event =
    | Datagram(from: Endpoint, ends: bool)     // `ends`: the session destroys itself over it
    | StopOf(which: nat)                       // stop() of any session, by anyone, at any time

  const EMPTY := Listener(map[], [])

  /** stop() of a session: the first call marks it, and calls back into remove_session. */
  function StopSession(l: Listener, i: nat): Listener
    requires i < |l.table|
  {
    var e := l.table[i];
    if e.destroyed then l
    else Listener(l.sessions - {e.ep}, l.table[i := e.(destroyed := true, callbacks := e.callbacks + 1)])
  }

  /** The completion of do_receive: look up or create, then hand the datagram over. */
  function OnDatagram(l: Listener, from: Endpoint, ends: bool): Listener
    requires InRange(l)
  {
    var found := Found(l, from);
    if ends then StopSession(found, found.sessions[from]) else found
  }

  function Found(l: Listener, from: Endpoint): (found: Listener)
    requires InRange(l)
    ensures InRange(found) && from in found.sessions
  {
    if from in l.sessions then l
    else Listener(l.sessions[from := |l.table|], l.table + [Entry(from, false, 0)])
  }

  predicate InRange(l: Listener) {
    forall ep :: ep in l.sessions ==> l.sessions[ep] < |l.table|
  }

  function Step(l: Listener, ev: Event): Listener
    requires InRange(l)
  {
    match ev
    case Datagram(from, ends) => OnDatagram(l, from, ends)
    case StopOf(which) => if which < |l.table| then StopSession(l, which) else l
  }

  /** The map holds exactly the sessions that are not destroyed, each under its own endpoint. */
  ghost predicate Inv(l: Listener) {
    && InRange(l)
    && (forall ep :: ep in l.sessions ==> !l.table[l.sessions[ep]].destroyed && l.table[l.sessions[ep]].ep == ep)
    && (forall i :: 0 <= i < |l.table| && !l.table[i].destroyed ==>
          l.table[i].ep in l.sessions && l.sessions[l.table[i].ep] == i)
    && (forall i :: 0 <= i < |l.table| ==> l.table[i].callbacks == if l.table[i].destroyed then 1 else 0)
  }

  lemma StepKeepsInv(l: Listener, ev: Event)
    requires Inv(l)
    ensures Inv(Step(l, ev))
  {
    if ev.Datagram? {
      FoundKeepsInv(l, ev.from);
    }
  }

  lemma FoundKeepsInv(l: Listener, from: Endpoint)
    requires Inv(l)
    ensures Inv(Found(l, from))
  {
  }

  /** The session a datagram is handed to is not destroyed. */
  lemma FoundIsLive(l: Listener, from: Endpoint)
    requires Inv(l)
    ensures var found := Found(l, from); found.table[found.sessions[from]] == Entry(from, false, 0)
  {
  }

  lemma StepsTo(l: Listener, found: Listener, from: Endpoint, ends: bool)
    requires InRange(l) && found == Found(l, from)
    ensures Step(l, Datagram(from, ends)) == if ends then StopSession(found, found.sessions[from]) else found
  {
  }

  /** The listener after a history of events. */
  function After(evs: seq<Event>): (l: Listener)
    ensures InRange(l)
  {
    if evs == [] then EMPTY else Step(After(evs[..|evs| - 1]), evs[|evs| - 1])
  }

  lemma {:induction false} EveryRunKeepsInv(evs: seq<Event>)
    ensures Inv(After(evs))
  {
    if evs != [] {
      EveryRunKeepsInv(evs[..|evs| - 1]);
      StepKeepsInv(After(evs[..|evs| - 1]), evs[|evs| - 1]);
    }
  }

  /** In every run, stopping a session - once or again, early or late - removes at most its own entry. */
  lemma StopEvictsNoOther(evs: seq<Event>, i: nat)
    requires i < |After(evs).table|
    ensures var l := After(evs);
            var m := StopSession(l, i).sessions;
            && (forall ep :: ep in l.sessions && l.sessions[ep] != i ==> ep in m && m[ep] == l.sessions[ep])
            && (forall ep :: ep in m ==> ep in l.sessions && m[ep] == l.sessions[ep] && m[ep] != i)
  {
    EveryRunKeepsInv(evs);
  }

  /**
   In every run a datagram goes to the session of its sender, a new one only if there is none, and to no
   other; the sender has a session afterwards exactly if this one did not end over the datagram.
   */
  lemma OneSessionPerSender(evs: seq<Event>, from: Endpoint, ends: bool)
    ensures var l, m := After(evs), Step(After(evs), Datagram(from, ends));
            var i := if from in l.sessions then l.sessions[from] else |l.table|;
            && |m.table| == |l.table| + (if from in l.sessions then 0 else 1)
            && m.table[i] == Entry(from, ends, if ends then 1 else 0)
            && (from in m.sessions <==> !ends) && (!ends ==> m.sessions[from] == i)
            && (forall j :: 0 <= j < |l.table| && j != i ==> m.table[j] == l.table[j])
            && (forall ep :: ep != from ==> (ep in m.sessions <==> ep in l.sessions))
            && (forall ep :: ep != from && ep in l.sessions ==> m.sessions[ep] == l.sessions[ep])
  {
    EveryRunKeepsInv(evs);
    FoundIsLive(After(evs), from);
  }

  /** In every run a stop, first or late, leaves the session destroyed, called back once, and out of the map. */
  lemma StopStops(evs: seq<Event>, i: nat)
    requires i < |After(evs).table|
    ensures var l, m := After(evs), Step(After(evs), StopOf(i));
            && m.table == l.table[i := Entry(l.table[i].ep, true, 1)]
            && forall ep :: ep in m.sessions ==> m.sessions[ep] != i
  {
    EveryRunKeepsInv(evs);
  }

  /** In every run a session calls back at most once, and never lives on in the map after it did. */
  lemma CallbackOnce(evs: seq<Event>, i: nat)
    requires i < |After(evs).table|
    ensures After(evs).table[i].callbacks <= 1
    ensures After(evs).table[i].callbacks == 1 ==>
              forall ep :: ep in After(evs).sessions ==> After(evs).sessions[ep] != i
  {
    EveryRunKeepsInv(evs);
  }

  /**
   The listener object over real sessions; every one ever created is kept in `all` for the record.
   Its methods take steps of the step system, so by `StepKeepsInv` they keep `Inv(View())`.
   */
  class DtlsListener {
    const gate: S.Gate
    var sessions: map<Endpoint, S.DtlsServerSession>
    ghost var all: seq<S.DtlsServerSession>
    ghost var index: map<Endpoint, nat>        // the place in `all` of a session in the map

    /** Every session is as it says, and the map leads to sessions in `all`. */
    ghost predicate Valid()
      reads this, all
    {
      && (forall i :: 0 <= i < |all| ==> all[i].Valid() && all[i].gate == gate)
      && (forall i, j :: 0 <= i < j < |all| ==> all[i] != all[j])
      && Linked()
    }

    ghost predicate Linked()
      reads this
    {
      && sessions.Keys == index.Keys
      && forall ep :: ep in sessions ==> index[ep] < |all| && sessions[ep] == all[index[ep]]
    }

    ghost function Entries(): (entries: seq<Entry>)
      reads this, all
      ensures |entries| == |all|
      ensures forall i :: 0 <= i < |all| ==> entries[i] == Entry(all[i].clientEp, all[i].destroyed, all[i].callbacks)
    {
      seq(|all|, i requires 0 <= i < |all| reads this, all =>
        Entry(all[i].clientEp, all[i].destroyed, all[i].callbacks))
    }

    ghost function View(): Listener
      reads this, all
    {
      Listener(index, Entries())
    }

    constructor (gate: S.Gate)
      ensures Valid() && View() == EMPTY && this.gate == gate
    {
      this.gate := gate;
      sessions, all, index := map[], [], map[];
    }

    /** Look up the session of a sender, or create it. */
    method FindOrCreate(sender: Endpoint) returns (session: S.DtlsServerSession)
      requires Valid() && InRange(View())
      modifies this
      ensures Valid() && sender in sessions && session == sessions[sender]
      ensures View() == Found(old(View()), sender)
      ensures sender in old(sessions) ==> session == old(sessions)[sender] && all == old(all)
      ensures sender !in old(sessions) ==> fresh(session) && session.View() == S.INITIAL && all == old(all) + [session]
    {
      if sender in sessions {
        session := sessions[sender];
      } else {
        session := new S.DtlsServerSession(gate, sender);
        sessions := sessions[sender := session];
        index := index[sender := |all|];
        all := all + [session];
        assert Entries() == old(Entries()) + [Entry(sender, false, 0)];
      }
    }

    /**
     The completion of do_receive. What the datagram does to the session is `DtlsServer.Step`, what
     it does to the table is `Step`; no other session is touched.
     */
    method OnReceive(sender: Endpoint, accept: S.AcceptResult, read: S.ReadResult, cached: Option<Endpoint>)
      returns (session: S.DtlsServerSession)
      requires Valid() && Inv(View()) && (sender in sessions ==> !sessions[sender].threw)
      modifies this, all
      ensures Valid() && session.clientEp == sender
      ensures View() == Step(old(View()), Datagram(sender, session.destroyed))
      ensures sender in old(sessions) ==> session == old(sessions)[sender]
      ensures session.View() == S.Step(gate, if sender in old(sessions) then old(session.View()) else S.INITIAL,
                                       S.Datagram(accept, read, cached))
      ensures forall s :: s in old(all) && s != session ==> unchanged(s)
    {
      ghost var before := View();
      session := LiveSession(sender);
      ghost var found := View();
      HandOver(session, index[sender], accept, read, cached);
      StepsTo(before, found, sender, session.destroyed);
    }

    /** The session found or created is not destroyed. */
    method LiveSession(sender: Endpoint) returns (session: S.DtlsServerSession)
      requires Valid() && Inv(View())
      modifies this
      ensures Valid() && sender in sessions && session == sessions[sender] && View() == Found(old(View()), sender)
      ensures !session.destroyed && session.clientEp == sender
      ensures sender in old(sessions) ==> session == old(sessions)[sender] && all == old(all)
      ensures sender !in old(sessions) ==> fresh(session) && session.View() == S.INITIAL && all == old(all) + [session]
    {
      ghost var before := View();
      session := FindOrCreate(sender);
      FoundIsLive(before, sender);
      assert View().table[index[sender]] == Entry(sender, false, 0);
    }

    /** on_datagram of a live session: if it ends over it, its callback removes it. */
    method HandOver(session: S.DtlsServerSession, ghost i: nat, accept: S.AcceptResult, read: S.ReadResult,
                    cached: Option<Endpoint>)
      requires Valid() && i < |all| && all[i] == session && !session.threw && !session.destroyed
      modifies this`sessions, this`index, session
      ensures Valid() && session.View() == S.Step(gate, old(session.View()), S.Datagram(accept, read, cached))
      ensures View() == if session.destroyed then StopSession(old(View()), i) else old(View())
    {
      ghost var before := View();
      session.HandleDatagram(accept, read, cached);
      if session.destroyed {
        RemoveSession(session.clientEp);
        assert Entries() == StopSession(before, i).table;
      } else {
        assert Entries() == before.table;
      }
    }

    /** remove_session, the callback of a session that was just destroyed. */
    method RemoveSession(ep: Endpoint)
      requires Linked()
      modifies this`sessions, this`index
      ensures Linked() && sessions == old(sessions) - {ep} && index == old(index) - {ep}
    {
      sessions := sessions - {ep};
      index := index - {ep};
    }

    /** stop() of a session by anyone, at any time: the first call is followed by the callback, others do nothing. */
    method StopOne(session: S.DtlsServerSession, ghost i: nat)
      requires Valid() && InRange(View()) && i < |all| && all[i] == session && !session.threw
      modifies this`sessions, this`index, session
      ensures Valid() && View() == Step(old(View()), StopOf(i))
    {
      var again := session.destroyed;
      ghost var before := View();
      session.StopSession();
      if !again {
        RemoveSession(session.clientEp);
      }
      assert Entries() == Step(before, StopOf(i)).table;
    }

    /** stop(): the map is emptied first, then every session it held is stopped; the callbacks find nothing. */
    method Shutdown()
      requires Valid() && Inv(View()) && forall ep :: ep in sessions ==> !sessions[ep].threw
      modifies this, all
      ensures sessions == map[] && all == old(all)
      ensures forall i :: 0 <= i < |all| ==> all[i].destroyed && all[i].callbacks == 1
    {
      ghost var before := View();
      var held := sessions;
      sessions, index := map[], map[];
      forall ep | ep in held
        ensures held[ep] in all && held[ep].Valid() && held[ep].clientEp == ep && !held[ep].destroyed
      {
        assert held[ep] == all[before.sessions[ep]] && before.table[before.sessions[ep]].ep == ep;
      }
      StopAll(held);
      forall i | 0 <= i < |all|
        ensures all[i].destroyed && all[i].callbacks == 1
      {
        if !before.table[i].destroyed {
          assert before.sessions[before.table[i].ep] == i;
          assert held[before.table[i].ep] == all[i];
        }
      }
    }

    static method StopAll(held: map<Endpoint, S.DtlsServerSession>)
      requires forall ep :: ep in held ==>
                 held[ep].Valid() && held[ep].clientEp == ep && !held[ep].threw && !held[ep].destroyed
      modifies held.Values
      ensures forall ep :: ep in held ==> held[ep].destroyed && held[ep].callbacks == 1
    {
      var left := held.Keys;
      while left != {}
        invariant left <= held.Keys
        invariant forall ep :: ep in held ==> held[ep].Valid() && held[ep].clientEp == ep && !held[ep].threw
        invariant forall ep :: ep in held ==> (held[ep].destroyed <==> ep !in left)
        decreases left
      {
        var ep :| ep in left;
        held[ep].StopSession();
        left := left - {ep};
      }
    }
  }
}
