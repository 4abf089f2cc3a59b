/**
 The shared DNS cache (Shared/DnsCache.cpp) against a specification by history: what a lookup
 answers is determined by the latest store for the key, the time to live in force at that moment,
 and the clock. Removing expired entries is invisible.
 */
module DnsCaches {
  import opened Bytes

  type Key = seq<byte>

  datatype Proto = Udp | Tcp

  datatype Entry = Entry(endpoint: Endpoint, expires: int)

  datatype Cache = Cache(ttl: int, udp: map<Key, Entry>, tcp: map<Key, Entry>)
  {
    function Of(proto: Proto): map<Key, Entry> {
      if proto == Udp then udp else tcp
    }
  }

  const INITIAL := Cache(600, map[], map[])

  datatype Op =
    | SetTtl(ttl: int)
    | Put(proto: Proto, key: Key, endpoint: Endpoint, now: int)
    | Cleanup(now: int)

  function Alive(m: map<Key, Entry>, now: int): map<Key, Entry> {
    map key | key in m && now < m[key].expires :: m[key]
  }

  function Apply(c: Cache, op: Op): Cache {
    match op
    case SetTtl(ttl) => c.(ttl := ttl)
    case Put(Udp, key, ep, now) => c.(udp := c.udp[key := Entry(ep, now + c.ttl)])
    case Put(Tcp, key, ep, now) => c.(tcp := c.tcp[key := Entry(ep, now + c.ttl)])
    case Cleanup(now) => c.(udp := Alive(c.udp, now), tcp := Alive(c.tcp, now))
  }

  /** The cache after a history of operations. */
  function After(h: seq<Op>): Cache {
    if h == [] then INITIAL else Apply(After(h[..|h| - 1]), h[|h| - 1])
  }

  function Lookup(c: Cache, proto: Proto, key: Key, now: int): Option<Endpoint> {
    var m := c.Of(proto);
    if key in m && now < m[key].expires then Some(m[key].endpoint) else None
  }

  /** The time to live in force after a history. */
  function TtlAfter(h: seq<Op>): int {
    if h == [] then 600
    else if h[|h| - 1].SetTtl? then h[|h| - 1].ttl
    else TtlAfter(h[..|h| - 1])
  }

  /** The specification: the latest store for the key decides, and it decides alone. */
  function Answer(h: seq<Op>, proto: Proto, key: Key, now: int): Option<Endpoint> {
    if h == [] then None
    else
      var before, op := h[..|h| - 1], h[|h| - 1];
      if op.Put? && op.proto == proto && op.key == key then
        if now < op.now + TtlAfter(before) then Some(op.endpoint) else None
      else Answer(before, proto, key, now)
  }

  /** No cleanup in the history ran at a later time than `now`, as with a clock that never goes back. */
  predicate ClockReached(h: seq<Op>, now: int) {
    forall i :: 0 <= i < |h| && h[i].Cleanup? ==> h[i].now <= now
  }

  lemma {:induction false} TtlInForce(h: seq<Op>)
    ensures After(h).ttl == TtlAfter(h)
  {
    if h != [] {
      TtlInForce(h[..|h| - 1]);
    }
  }

  /** A lookup answers exactly what the history says, wherever cleanups happened in it. */
  lemma {:induction false} LookupAnswers(h: seq<Op>, proto: Proto, key: Key, now: int)
    requires ClockReached(h, now)
    ensures Lookup(After(h), proto, key, now) == Answer(h, proto, key, now)
  {
    if h != [] {
      var before := h[..|h| - 1];
      TtlInForce(before);
      LookupAnswers(before, proto, key, now);
    }
  }

  /** A cleanup inserted anywhere changes no later answer. */
  lemma {:induction false} CleanupUnanswered(h: seq<Op>, t: int, later: seq<Op>, proto: Proto, key: Key, now: int)
    ensures Answer(h + [Cleanup(t)] + later, proto, key, now) == Answer(h + later, proto, key, now)
    ensures TtlAfter(h + [Cleanup(t)] + later) == TtlAfter(h + later)
    decreases |later|
  {
    var long, short := h + [Cleanup(t)] + later, h + later;
    if later == [] {
      assert long[..|long| - 1] == h && short == h;
    } else {
      var front := later[..|later| - 1];
      assert long[..|long| - 1] == h + [Cleanup(t)] + front && short[..|short| - 1] == h + front;
      CleanupUnanswered(h, t, front, proto, key, now);
    }
  }

  lemma CleanupInvisible(h: seq<Op>, t: int, later: seq<Op>, proto: Proto, key: Key, now: int)
    requires ClockReached(h + [Cleanup(t)] + later, now)
    ensures Lookup(After(h + [Cleanup(t)] + later), proto, key, now) == Lookup(After(h + later), proto, key, now)
  {
    var long, short := h + [Cleanup(t)] + later, h + later;
    assert ClockReached(short, now) by {
      forall i | 0 <= i < |short| && short[i].Cleanup?
        ensures short[i].now <= now
      {
        assert short[i] == long[if i < |h| then i else i + 1];
      }
    }
    LookupAnswers(long, proto, key, now);
    LookupAnswers(short, proto, key, now);
    CleanupUnanswered(h, t, later, proto, key, now);
  }

  /** A store for one destination never answers for another: `host:port` keys do not collide. */
  lemma OtherDestinationUnaffected(h: seq<Op>, proto: Proto, host: seq<byte>, port: u16, ep: Endpoint, t: int,
                                   otherHost: seq<byte>, otherPort: u16, now: int)
    requires (host, port) != (otherHost, otherPort)
    ensures Answer(h + [Put(proto, HostPort(host, port), ep, t)], proto, HostPort(otherHost, otherPort), now)
            == Answer(h, proto, HostPort(otherHost, otherPort), now)
  {
    if HostPort(host, port) == HostPort(otherHost, otherPort) {
      HostPortInjective(host, port, otherHost, otherPort);
    }
    var longer := h + [Put(proto, HostPort(host, port), ep, t)];
    assert longer[..|longer| - 1] == h;
  }

  /** With a clock that goes back, a cleanup is visible exactly if the entry had expired then and is alive again now. */
  lemma CleanupVisibleIff(c: Cache, t: int, proto: Proto, key: Key, now: int)
    ensures Lookup(Apply(c, Cleanup(t)), proto, key, now) != Lookup(c, proto, key, now)
            <==> key in c.Of(proto) && now < c.Of(proto)[key].expires <= t
  {
    assert Apply(c, Cleanup(t)).Of(proto) == Alive(c.Of(proto), t);
  }

  /** The object behind the lock. */
  class DnsCacheManager {
    var defaultTtl: int
    var udpCache: map<Key, Entry>
    var tcpCache: map<Key, Entry>

    function View(): Cache
      reads this
    {
      Cache(defaultTtl, udpCache, tcpCache)
    }

    constructor ()
      ensures View() == After([])
    {
      defaultTtl, udpCache, tcpCache := 600, map[], map[];
    }

    method SetDefaultTtl(ttl: int)
      modifies this
      ensures View() == Apply(old(View()), SetTtl(ttl))
    {
      defaultTtl := ttl;
    }

    method GetUdp(key: Key, now: int) returns (ep: Option<Endpoint>)
      ensures ep == Lookup(View(), Udp, key, now)
    {
      if key in udpCache && now < udpCache[key].expires {
        return Some(udpCache[key].endpoint);
      }
      return None;
    }

    method GetTcp(key: Key, now: int) returns (ep: Option<Endpoint>)
      ensures ep == Lookup(View(), Tcp, key, now)
    {
      if key in tcpCache && now < tcpCache[key].expires {
        return Some(tcpCache[key].endpoint);
      }
      return None;
    }

    method PutUdp(key: Key, ep: Endpoint, now: int)
      modifies this
      ensures View() == Apply(old(View()), Put(Udp, key, ep, now))
    {
      udpCache := udpCache[key := Entry(ep, now + defaultTtl)];
    }

    method PutTcp(key: Key, ep: Endpoint, now: int)
      modifies this
      ensures View() == Apply(old(View()), Put(Tcp, key, ep, now))
    {
      tcpCache := tcpCache[key := Entry(ep, now + defaultTtl)];
    }

    method CleanupExpired(now: int)
      modifies this
      ensures View() == Apply(old(View()), Cleanup(now))
    {
      udpCache := EraseExpired(udpCache, now);
      tcpCache := EraseExpired(tcpCache, now);
    }

    /** The erase loop: it visits every entry once, in no particular order. */
    static method EraseExpired(cache: map<Key, Entry>, now: int) returns (left: map<Key, Entry>)
      ensures left == Alive(cache, now)
    {
      left := cache;
      var unseen := cache.Keys;
      while unseen != {}
        invariant unseen <= cache.Keys && left.Keys <= cache.Keys
        invariant forall key :: key in left ==> left[key] == cache[key]
        invariant forall key :: key in unseen ==> key in left
        invariant forall key :: key in cache.Keys - unseen ==> (key in left <==> now < cache[key].expires)
        decreases unseen
      {
        var key :| key in unseen;
        if now >= left[key].expires {
          left := left - {key};
        }
        unseen := unseen - {key};
      }
      assert left == Alive(cache, now);
    }
  }
}
