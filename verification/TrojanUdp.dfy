/**
 The Trojan UDP stream of a server session (Server/Session.cpp, udp_upstream_read,
 handle_trojan_udp_proxy and udp_async_bidirectional_read): `Reassembly` with UDPPacket::parse.
 */
module TrojanUdp {
  import opened Bytes
  import opened TrojanCodec
  import opened Reassembly

  /** UDPPacket::parse as a parser. */
  ghost const PARSER: Parser := imap s: seq<byte> | ReadPacket(s).Some? :: ReadPacket(s).value

  lemma ParserStable()
    ensures Stable(PARSER)
  {
    forall s, more
      ensures StableOn(PARSER, s, more)
    {
      if ReadPacket(s).Some? {
        ReadPacketStable(s, more);
      }
    }
  }

  /** The packets of a whole stream. */
  ghost function Packets(s: seq<byte>): seq<Packet> {
    ParserStable();
    Greedy(PARSER, s, 0)
  }

  /** The buffer after the reads `chunks`; the first of them is the payload of the request. */
  ghost function After(chunks: seq<seq<byte>>): (b: Buffer)
    ensures b.Valid()
  {
    ParserStable();
    Run(PARSER, EMPTY, chunks)
  }

  /** The packets taken fill the stream up to the buffer's rest exactly, unless the session was closed. */
  ghost predicate Reassembled(b: Buffer, s: seq<byte>) {
    ParserStable();
    Refines(PARSER, b, s)
  }

  /**
   No chunking makes a packet up, loses one, or changes their order; an open session has lost no
   byte, and its rest still parses to exactly the packets not taken yet.
   */
  lemma ReassemblyRefinesParsing(chunks: seq<seq<byte>>)
    ensures Reassembled(After(chunks), Concat(chunks))
    ensures After(chunks).taken <= Packets(Concat(chunks))
    ensures !After(chunks).closed ==> Packets(Concat(chunks)) == After(chunks).taken + Packets(After(chunks).Rest())
  {
    ParserStable();
    EmptyRefinesGreedy(PARSER, chunks);
    if !After(chunks).closed {
      RestParsesOn(PARSER, After(chunks), Concat(chunks));
    }
  }

  /** One attempt to take a packet, and one read. */
  ghost function TakeNext(b: Buffer): (r: Buffer)
    requires b.Valid()
    ensures r.Valid()
  {
    ParserStable();
    TakeOne(PARSER, b)
  }

  ghost function Read(b: Buffer, chunk: seq<byte>): (r: Buffer)
    requires b.Valid()
    ensures r.Valid()
  {
    ParserStable();
    OnChunk(PARSER, b, chunk)
  }

  /** What the code does with the result of UDPPacket::parse. */
  lemma TakeNextByCases(b: Buffer, parsed: Option<(Packet, nat)>)
    requires b.Valid() && parsed == ReadPacket(b.Rest())
    ensures parsed.None? ==> TakeNext(b) == b.(closed := |b.Rest()| > MAX_BUFF_SIZE)
    ensures parsed.Some? ==>
              && b.offset + parsed.value.1 <= |b.buff|
              && TakeNext(b) == Compact(b.(offset := b.offset + parsed.value.1, taken := b.taken + [parsed.value.0]))
  {
    ParserStable();
    LookupParses(b.Rest());
    TakeOneByCases(PARSER, b, parsed);
  }

  lemma LookupParses(s: seq<byte>)
    ensures Lookup(PARSER, s) == ReadPacket(s)
  {
  }

  predicate ValidList(ps: seq<Sent>) {
    forall i :: 0 <= i < |ps| ==> ValidSent(ps[i])
  }

  function PutEach(ps: seq<Sent>): (es: seq<seq<byte>>)
    requires ValidList(ps)
    ensures |es| == |ps| && forall i :: 0 <= i < |ps| ==> es[i] == PutPacket(ps[i])
  {
    seq(|ps|, i requires 0 <= i < |ps| => PutPacket(ps[i]))
  }

  function SeenEach(ps: seq<Sent>): (r: seq<Packet>)
    requires ValidList(ps)
    ensures |r| == |ps| && forall i :: 0 <= i < |ps| ==> r[i] == SeenPacket(ps[i])
  {
    seq(|ps|, i requires 0 <= i < |ps| => SeenPacket(ps[i]))
  }

  lemma PacketIsCodeword(p: Sent)
    requires ValidSent(p)
    ensures Codeword(PARSER, PutPacket(p)) && PARSER[PutPacket(p)].0 == SeenPacket(p)
  {
    ReadPutPacket(p);
  }

  /** A packet cut short is not recognised. */
  lemma CutPacketUnread(p: Sent, n: nat)
    requires ValidSent(p) && n < |PutPacket(p)|
    ensures ReadPacket(PutPacket(p)[..n]) == None
  {
    ParserStable();
    PacketIsCodeword(p);
    StrictPrefixUnread(PARSER, PutPacket(p), n);
  }

  /** Packets written one behind the other are parsed back as exactly the same list. */
  lemma PacketsOfList(ps: seq<Sent>)
    requires ValidList(ps)
    ensures Packets(Concat(PutEach(ps))) == SeenEach(ps)
  {
    ParserStable();
    forall i | 0 <= i < |ps|
      ensures Codeword(PARSER, PutEach(ps)[i]) && PARSER[PutEach(ps)[i]].0 == SeenEach(ps)[i]
    {
      PacketIsCodeword(ps[i]);
    }
    GreedyConcat(PARSER, [], PutEach(ps), SeenEach(ps));
    assert [] + Concat(PutEach(ps)) == Concat(PutEach(ps));
  }

  /**
   On a stream of well-formed packets, some way of cutting it into reads ends in "UDP packet too
   long" if and only if some packet is encoded in more than 65537 bytes.
   */
  lemma TooLongExactly(ps: seq<Sent>)
    requires ValidList(ps)
    ensures (exists payload, later :: Behind(PutEach(ps), payload, later) && After([payload] + later).closed)
            <==> (exists i :: 0 <= i < |ps| && |PutPacket(ps[i])| > LONGEST)
  {
    ParserStable();
    var es := PutEach(ps);
    forall i | 0 <= i < |ps|
      ensures Codeword(PARSER, es[i]) && |es[i]| == |PutPacket(ps[i])|
    {
      PacketIsCodeword(ps[i]);
    }
    TooLongBehindIff(PARSER, es);
    assert (exists payload, later :: Behind(es, payload, later) && After([payload] + later).closed)
           <==> TooLongBehind(PARSER, es);
  }

  /** The two fields of the session that hold the stream, and what came of it. */
  class UdpStream {
    var buff: seq<byte>
    var offset: nat
    var closed: bool
    ghost var taken: seq<Packet>

    ghost function View(): Buffer
      reads this
    {
      Buffer(buff, offset, taken, closed)
    }

    constructor (payload: seq<byte>)
      ensures View() == EMPTY.(buff := payload)
    {
      buff, offset, closed, taken := payload, 0, false, [];
    }

    /** handle_trojan_udp_proxy, and the same lines inside udp_async_bidirectional_read. */
    method HandlePacket() returns (packet: Option<Packet>)
      requires View().Valid() && !closed
      modifies this
      ensures View() == TakeNext(old(View()))
      ensures packet.Some? ==> taken == old(taken) + [packet.value]
      ensures packet.None? ==> taken == old(taken)
    {
      var remaining := buff[offset..];
      var parsed := ReadPacket(remaining);
      TakeNextByCases(View(), parsed);
      if parsed.None? {
        if |remaining| > MAX_BUFF_SIZE {
          closed := true;
        }
        return None;
      }
      Advance(parsed.value.0, parsed.value.1);
      return Some(parsed.value.0);
    }

    /** The offset moves past a packet, and the part before it is dropped now and then. */
    method Advance(ghost p: Packet, len: nat)
      requires offset + len <= |buff|
      modifies this
      ensures View() == Compact(old(View()).(offset := old(offset) + len, taken := old(taken) + [p]))
    {
      taken := taken + [p];
      offset := offset + len;
      if offset > MAX_BUFF_SIZE / 2 && offset < |buff| {
        buff, offset := buff[offset..], 0;
      }
    }

    /** The completion of a read on the stream: append, then try to take one packet. */
    method OnRead(chunk: seq<byte>) returns (packet: Option<Packet>)
      requires View().Valid() && !closed
      modifies this
      ensures View() == Read(old(View()), chunk)
      ensures packet.Some? ==> taken == old(taken) + [packet.value]
      ensures packet.None? ==> taken == old(taken)
    {
      buff := buff + chunk;
      packet := HandlePacket();
    }
  }
}
