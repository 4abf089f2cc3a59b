/**
 Packets reassembled from a byte stream, for any stable parser: an append-only buffer with a
 moving offset, at most one packet taken per read, and compaction now and then.

 The reference is `Greedy`, which parses a whole stream at once. A parser is stable when what it
 recognised, it recognises again after bytes are appended; nothing else about it matters here.
 */
module Reassembly {
  import opened Bytes
  import opened TrojanCodec

  const MAX_BUFF_SIZE := 0x1_0000

  /** A parser, as the inputs it recognises a packet at the front of, with the packet and its length. */
  type Parser = imap<seq<byte>, (Packet, nat)>

  ghost predicate Stable(parse: Parser) {
    && (forall s :: s in parse ==> 1 <= parse[s].1 <= |s|)
    && (forall s, more :: StableOn(parse, s, more))
  }

  ghost predicate StableOn(parse: Parser, s: seq<byte>, more: seq<byte>) {
    s in parse ==> s + more in parse && parse[s + more] == parse[s]
  }

  /** Every packet of a stream from `at` on, one behind the other, up to the first that is not recognised. */
  ghost function Greedy(parse: Parser, s: seq<byte>, at: nat): seq<Packet>
    requires Stable(parse) && at <= |s|
    decreases |s| - at
  {
    if s[at..] in parse then [parse[s[at..]].0] + Greedy(parse, s, at + parse[s[at..]].1) else []
  }

  /** The buffer, the offset of the unparsed rest, the packets taken, and whether the session was closed. */
  datatype Buffer = Buffer(buff: seq<byte>, offset: nat, taken: seq<Packet>, closed: bool)
  {
    predicate Valid() {
      offset <= |buff|
    }

    function Rest(): seq<byte>
      requires Valid()
    {
      buff[offset..]
    }
  }

  /** Drop the parsed part once it is long, but not when nothing follows it. */
  function Compact(b: Buffer): (r: Buffer)
    requires b.Valid()
    ensures r.Valid() && r.Rest() == b.Rest() && r.taken == b.taken && r.closed == b.closed
    ensures r.offset <= MAX_BUFF_SIZE / 2 || r.Rest() == []
    ensures b.Rest() == [] ==> r.buff == b.buff
  {
    if b.offset > MAX_BUFF_SIZE / 2 && b.offset < |b.buff| then b.(buff := b.buff[b.offset..], offset := 0) else b
  }

  /** One attempt to take a packet off the front of the rest. */
  ghost function TakeOne(parse: Parser, b: Buffer): (r: Buffer)
    requires Stable(parse) && b.Valid()
    ensures r.Valid()
  {
    if b.Rest() in parse then
      var (p, len) := parse[b.Rest()];
      Compact(b.(offset := b.offset + len, taken := b.taken + [p]))
    else b.(closed := |b.Rest()| > MAX_BUFF_SIZE)
  }

  /** The same, by what the parser returned. */
  lemma TakeOneByCases(parse: Parser, b: Buffer, parsed: Option<(Packet, nat)>)
    requires Stable(parse) && b.Valid() && parsed == Lookup(parse, b.Rest())
    ensures parsed.None? ==> TakeOne(parse, b) == b.(closed := |b.Rest()| > MAX_BUFF_SIZE)
    ensures parsed.Some? ==>
              && b.offset + parsed.value.1 <= |b.buff|
              && TakeOne(parse, b)
                 == Compact(b.(offset := b.offset + parsed.value.1, taken := b.taken + [parsed.value.0]))
  {
  }

  ghost function Lookup(parse: Parser, s: seq<byte>): Option<(Packet, nat)> {
    if s in parse then Some(parse[s]) else None
  }

  /** A completed read of `chunk`. */
  ghost function OnChunk(parse: Parser, b: Buffer, chunk: seq<byte>): (r: Buffer)
    requires Stable(parse) && b.Valid()
    ensures r.Valid()
  {
    if b.closed then b else TakeOne(parse, b.(buff := b.buff + chunk))
  }

  ghost function Run(parse: Parser, b: Buffer, chunks: seq<seq<byte>>): (r: Buffer)
    requires Stable(parse) && b.Valid()
    ensures r.Valid()
    decreases |chunks|
  {
    if chunks == [] then b else Run(parse, OnChunk(parse, b, chunks[0]), chunks[1..])
  }

  function Concat(chunks: seq<seq<byte>>): seq<byte> {
    if chunks == [] then [] else chunks[0] + Concat(chunks[1..])
  }

  /** From `at` to `end` the stream holds exactly the packets `ps`. */
  ghost predicate Holds(parse: Parser, s: seq<byte>, at: nat, ps: seq<Packet>, end: nat)
    requires Stable(parse) && at <= |s|
    decreases |ps|
  {
    if ps == [] then at == end
    else s[at..] in parse && parse[s[at..]].0 == ps[0] && Holds(parse, s, at + parse[s[at..]].1, ps[1..], end)
  }

  /** Packets already there are still there when the stream grows. */
  lemma {:induction false} HoldsStable(parse: Parser, s: seq<byte>, more: seq<byte>, at: nat, ps: seq<Packet>, end: nat)
    requires Stable(parse) && at <= |s| && Holds(parse, s, at, ps, end)
    ensures end <= |s| && Holds(parse, s + more, at, ps, end)
    decreases |ps|
  {
    if ps != [] {
      assert StableOn(parse, s[at..], more);
      assert (s + more)[at..] == s[at..] + more;
      HoldsStable(parse, s, more, at + parse[s[at..]].1, ps[1..], end);
    }
  }

  /** One packet further. */
  lemma {:induction false} HoldsNext(parse: Parser, s: seq<byte>, at: nat, ps: seq<Packet>, end: nat)
    requires Stable(parse) && at <= |s| && Holds(parse, s, at, ps, end) && end <= |s| && s[end..] in parse
    ensures Holds(parse, s, at, ps + [parse[s[end..]].0], end + parse[s[end..]].1)
    decreases |ps|
  {
    var (p, len) := parse[s[end..]];
    if ps == [] {
      assert Holds(parse, s, end + len, [], end + len);
    } else {
      HoldsNext(parse, s, at + parse[s[at..]].1, ps[1..], end);
      assert (ps + [p])[1..] == ps[1..] + [p];
    }
  }

  /** The whole-stream parse continues exactly where those packets end. */
  lemma {:induction false} HoldsGreedy(parse: Parser, s: seq<byte>, at: nat, ps: seq<Packet>, end: nat)
    requires Stable(parse) && at <= |s| && Holds(parse, s, at, ps, end) && end <= |s|
    ensures Greedy(parse, s, at) == ps + Greedy(parse, s, end)
    decreases |ps|
  {
    if ps != [] {
      HoldsGreedy(parse, s, at + parse[s[at..]].1, ps[1..], end);
      var rest := Greedy(parse, s, end);
      assert [ps[0]] + (ps[1..] + rest) == ps + rest;
    }
  }

  /** The buffer agrees with the stream received so far: taken packets in front, the rest behind. */
  ghost predicate Agrees(parse: Parser, b: Buffer, s: seq<byte>)
    requires Stable(parse)
  {
    && b.Valid() && |b.Rest()| <= |s|
    && s[|s| - |b.Rest()|..] == b.Rest()
    && Holds(parse, s, 0, b.taken, |s| - |b.Rest()|)
  }

  lemma OnChunkAgrees(parse: Parser, b: Buffer, s: seq<byte>, chunk: seq<byte>)
    requires Stable(parse) && !b.closed && Agrees(parse, b, s)
    ensures Agrees(parse, OnChunk(parse, b, chunk), s + chunk)
  {
    var grown := b.(buff := b.buff + chunk);
    var end := |s| - |b.Rest()|;
    HoldsStable(parse, s, chunk, 0, b.taken, end);
    assert grown.Rest() == b.Rest() + chunk == (s + chunk)[end..];
    TakeOneAgrees(parse, grown, s + chunk);
  }

  lemma TakeOneAgrees(parse: Parser, b: Buffer, s: seq<byte>)
    requires Stable(parse) && Agrees(parse, b, s)
    ensures Agrees(parse, TakeOne(parse, b), s)
  {
    var end := |s| - |b.Rest()|;
    if b.Rest() in parse {
      var len := parse[b.Rest()].1;
      HoldsNext(parse, s, 0, b.taken, end);
      assert b.buff[b.offset + len..] == s[end + len..];
    }
  }

  lemma {:induction false} ClosedStays(parse: Parser, b: Buffer, chunks: seq<seq<byte>>)
    requires Stable(parse) && b.Valid() && b.closed
    ensures Run(parse, b, chunks) == b
    decreases |chunks|
  {
    if chunks != [] {
      ClosedStays(parse, b, chunks[1..]);
    }
  }

  /** What a buffer that agrees says about the whole-stream parse, now and whatever else arrives. */
  lemma AgreesMeans(parse: Parser, b: Buffer, s: seq<byte>, more: seq<byte>)
    requires Stable(parse) && Agrees(parse, b, s)
    ensures b.taken <= Greedy(parse, s + more, 0)
    ensures Greedy(parse, s, 0) == b.taken + Greedy(parse, s, |s| - |b.Rest()|)
  {
    var end := |s| - |b.Rest()|;
    HoldsStable(parse, s, more, 0, b.taken, end);
    HoldsGreedy(parse, s + more, 0, b.taken, end);
    HoldsGreedy(parse, s, 0, b.taken, end);
  }

  /** The packets taken begin the whole-stream parse, and an open buffer holds exactly what is left of it. */
  ghost predicate Refines(parse: Parser, b: Buffer, s: seq<byte>)
    requires Stable(parse)
  {
    b.taken <= Greedy(parse, s, 0) && (!b.closed ==> Agrees(parse, b, s))
  }

  /** Reassembly refines whole-stream parsing for every way of cutting the stream into reads. */
  lemma {:induction false} RunRefinesGreedy(parse: Parser, b: Buffer, s: seq<byte>, chunks: seq<seq<byte>>)
    requires Stable(parse) && Agrees(parse, b, s)
    ensures Refines(parse, Run(parse, b, chunks), s + Concat(chunks))
    decreases |chunks|
  {
    if chunks == [] {
      AgreesRefines(parse, b, s, []);
    } else if b.closed {
      AgreesRefines(parse, b, s, Concat(chunks));
      ClosedStays(parse, b, chunks);
    } else {
      var next, sofar, later := OnChunk(parse, b, chunks[0]), s + chunks[0], chunks[1..];
      OnChunkAgrees(parse, b, s, chunks[0]);
      ConcatFirst(s, chunks);
      RunRefinesGreedy(parse, next, sofar, later);
      assert Run(parse, b, chunks) == Run(parse, next, later);
    }
  }

  lemma ConcatFirst(s: seq<byte>, chunks: seq<seq<byte>>)
    requires chunks != []
    ensures s + Concat(chunks) == s + chunks[0] + Concat(chunks[1..])
  {
  }

  lemma AgreesRefines(parse: Parser, b: Buffer, s: seq<byte>, more: seq<byte>)
    requires Stable(parse) && Agrees(parse, b, s) && (b.closed || more == [])
    ensures Refines(parse, b, s + more)
  {
    AgreesMeans(parse, b, s, more);
    assert s + [] == s;
  }

  const EMPTY := Buffer([], 0, [], false)

  lemma SliceOfSlice(s: seq<byte>, start: nat, at: nat)
    requires start + at <= |s|
    ensures s[start + at..] == s[start..][at..]
  {
  }

  /** Parsing from the middle of a stream is parsing the stream's end. */
  lemma {:induction false} GreedyFrom(parse: Parser, s: seq<byte>, start: nat, at: nat)
    requires Stable(parse) && start + at <= |s|
    ensures Greedy(parse, s, start + at) == Greedy(parse, s[start..], at)
    decreases |s| - start - at
  {
    SliceOfSlice(s, start, at);
    var rest := s[start + at..];
    if rest in parse {
      var len := parse[rest].1;
      assert start + at + len == start + (at + len);
      GreedyFrom(parse, s, start, at + len);
    }
  }

  /** What a buffer has not taken yet, its rest still parses to. */
  lemma RestParsesOn(parse: Parser, b: Buffer, s: seq<byte>)
    requires Stable(parse) && Agrees(parse, b, s)
    ensures Greedy(parse, s, 0) == b.taken + Greedy(parse, b.Rest(), 0)
  {
    var end := |s| - |b.Rest()|;
    HoldsGreedy(parse, s, 0, b.taken, end);
    GreedyFrom(parse, s, end, 0);
  }

  lemma EmptyAgrees(parse: Parser)
    requires Stable(parse)
    ensures Agrees(parse, EMPTY, [])
  {
  }

  /** From an empty buffer. */
  lemma EmptyRefinesGreedy(parse: Parser, chunks: seq<seq<byte>>)
    requires Stable(parse)
    ensures Refines(parse, Run(parse, EMPTY, chunks), Concat(chunks))
  {
    EmptyAgrees(parse);
    RunRefinesGreedy(parse, EMPTY, [], chunks);
    assert [] + Concat(chunks) == Concat(chunks);
  }

  /** `e` is one whole packet for the parser. */
  ghost predicate Codeword(parse: Parser, e: seq<byte>) {
    e in parse && parse[e].1 == |e|
  }

  /** A packet cut short is not recognised: recognition would have to outlive the missing bytes. */
  lemma StrictPrefixUnread(parse: Parser, e: seq<byte>, n: nat)
    requires Stable(parse) && Codeword(parse, e) && n < |e|
    ensures e[..n] !in parse
  {
    assert e == e[..n] + e[n..];
    assert StableOn(parse, e[..n], e[n..]);
  }

  /** A rest that begins with a whole packet loses exactly that packet. */
  lemma TakesFirst(parse: Parser, b: Buffer, e: seq<byte>)
    requires Stable(parse) && b.Valid() && Codeword(parse, e) && e <= b.Rest()
    ensures var r := TakeOne(parse, b);
            && r.Rest() == b.Rest()[|e|..] && r.closed == b.closed
            && r.taken == b.taken + [parse[e].0]
  {
    var rest := b.Rest()[|e|..];
    assert b.Rest() == e + rest;
    assert StableOn(parse, e, rest);
    assert b.buff[b.offset + |e|..] == rest;
  }

  /** Whole packets one behind the other are read back as the same list. */
  lemma {:induction false} GreedyConcat(parse: Parser, before: seq<byte>, es: seq<seq<byte>>, ps: seq<Packet>)
    requires Stable(parse) && |es| == |ps|
    requires forall i :: 0 <= i < |es| ==> Codeword(parse, es[i]) && parse[es[i]].0 == ps[i]
    ensures Greedy(parse, before + Concat(es), |before|) == ps
    decreases |es|
  {
    var s := before + Concat(es);
    if es == [] {
      assert s[|before|..] == [];
    } else {
      var rest := Concat(es[1..]);
      ThirdOf(before, es[0], rest);
      assert StableOn(parse, es[0], rest);
      GreedyConcat(parse, before + es[0], es[1..], ps[1..]);
      assert Greedy(parse, s, |before|) == [ps[0]] + Greedy(parse, s, |before| + |es[0]|);
      assert [ps[0]] + ps[1..] == ps;
    }
  }

  lemma ThirdOf(a: seq<byte>, b: seq<byte>, c: seq<byte>)
    ensures a + (b + c) == a + b + c && (a + (b + c))[|a|..] == b + c
  {
  }

  /** The longest packet that survives every chunking. */
  const LONGEST := MAX_BUFF_SIZE + 1

  /** The next packet of the stream is complete: a read takes it, and the stream goes on behind it. */
  lemma WholePacketTaken(parse: Parser, b: Buffer, chunk: seq<byte>, later: seq<byte>, es: seq<seq<byte>>)
    requires Stable(parse) && b.Valid() && !b.closed && es != [] && Codeword(parse, es[0])
    requires b.Rest() + chunk + later <= Concat(es) && |es[0]| <= |b.Rest() + chunk|
    ensures var r := OnChunk(parse, b, chunk);
            !r.closed && r.taken == b.taken + [parse[es[0]].0] && r.Rest() + later <= Concat(es[1..])
  {
    var grown := b.(buff := b.buff + chunk);
    assert grown.Rest() == b.Rest() + chunk;
    FrontOfStream(grown.Rest(), later, es);
    TakesFirst(parse, grown, es[0]);
  }

  /** Bytes that begin a stream of packets and reach past the first begin, behind it, the stream of the others. */
  lemma FrontOfStream(rest: seq<byte>, later: seq<byte>, es: seq<seq<byte>>)
    requires es != [] && rest + later <= Concat(es) && |es[0]| <= |rest|
    ensures es[0] <= rest && rest[|es[0]|..] + later <= Concat(es[1..])
  {
    var e, all := es[0], rest + later;
    assert e == Concat(es)[..|e|] == all[..|e|] == rest[..|e|];
    assert rest[|e|..] + later == all[|e|..];
    assert Concat(es)[|e|..] == Concat(es[1..]);
  }

  /** The next packet is not complete: a read only grows the buffer, or finds it too long. */
  lemma PartialPacketWaits(parse: Parser, b: Buffer, chunk: seq<byte>, es: seq<seq<byte>>)
    requires Stable(parse) && b.Valid() && !b.closed
    requires es != [] ==> Codeword(parse, es[0]) && |b.Rest() + chunk| < |es[0]|
    requires b.Rest() + chunk <= Concat(es)
    ensures OnChunk(parse, b, chunk) == b.(buff := b.buff + chunk, closed := |b.Rest() + chunk| > MAX_BUFF_SIZE)
  {
    var rest := b.Rest() + chunk;
    assert b.(buff := b.buff + chunk).Rest() == rest;
    if es != [] {
      assert rest == Concat(es)[..|rest|] == es[0][..|rest|];
      StrictPrefixUnread(parse, es[0], |rest|);
    }
  }

  /** Received is the beginning of a stream of whole packets, none longer than `LONGEST`: no read closes the session. */
  lemma {:induction false} NeverTooLong(parse: Parser, b: Buffer, es: seq<seq<byte>>, chunks: seq<seq<byte>>)
    requires Stable(parse) && b.Valid() && !b.closed
    requires forall i :: 0 <= i < |es| ==> Codeword(parse, es[i]) && |es[i]| <= LONGEST
    requires b.Rest() + Concat(chunks) <= Concat(es)
    ensures !Run(parse, b, chunks).closed
    decreases |chunks|
  {
    if chunks != [] {
      var chunk, later := chunks[0], Concat(chunks[1..]);
      assert b.Rest() + Concat(chunks) == b.Rest() + chunk + later;
      var next := OnChunk(parse, b, chunk);
      if es != [] && |es[0]| <= |b.Rest() + chunk| {
        WholePacketTaken(parse, b, chunk, later, es);
        NeverTooLong(parse, next, es[1..], chunks[1..]);
      } else {
        PartialPacketWaits(parse, b, chunk, es);
        assert next.Rest() == b.Rest() + chunk;
        NeverTooLong(parse, next, es, chunks[1..]);
      }
    }
  }

  /** A cut of a packet into reads of at most a full buffer; of an overlong one only the beginning. */
  /** Reads that bring one packet each: every one of them is taken, in order. */
  lemma {:induction false} OnePerRead(parse: Parser, b: Buffer, es: seq<seq<byte>>, ps: seq<Packet>)
    requires Stable(parse) && b.Valid() && !b.closed && b.Rest() == [] && |es| == |ps|
    requires forall i :: 0 <= i < |es| ==> Codeword(parse, es[i]) && parse[es[i]].0 == ps[i]
    ensures var r := Run(parse, b, es); !r.closed && r.Rest() == [] && r.taken == b.taken + ps
    decreases |es|
  {
    if es != [] {
      var next := OnChunk(parse, b, es[0]);
      FirstRead(parse, b, es);
      OnePerRead(parse, next, es[1..], ps[1..]);
      assert Run(parse, b, es) == Run(parse, next, es[1..]);
      assert b.taken + [ps[0]] + ps[1..] == b.taken + ps;
    }
  }

  lemma FirstRead(parse: Parser, b: Buffer, es: seq<seq<byte>>)
    requires Stable(parse) && b.Valid() && !b.closed && b.Rest() == [] && es != [] && Codeword(parse, es[0])
    ensures var r := OnChunk(parse, b, es[0]); !r.closed && r.Rest() == [] && r.taken == b.taken + [parse[es[0]].0]
  {
    assert b.Rest() + es[0] + [] == es[0] == Concat([es[0]]);
    WholePacketTaken(parse, b, es[0], [], [es[0]]);
    assert Concat([es[0]][1..]) == [];
  }

  /** The read erases the parsed part of the buffer. */
  ghost predicate Erases(parse: Parser, b: Buffer, chunk: seq<byte>)
    requires Stable(parse) && b.Valid()
  {
    |OnChunk(parse, b, chunk).buff| < |b.buff| + (if b.closed then 0 else |chunk|)
  }

  ghost function Erasures(parse: Parser, b: Buffer, chunks: seq<seq<byte>>): nat
    requires Stable(parse) && b.Valid()
    decreases |chunks|
  {
    if chunks == [] then 0
    else (if Erases(parse, b, chunks[0]) then 1 else 0) + Erasures(parse, OnChunk(parse, b, chunks[0]), chunks[1..])
  }

  /** What a read adds to the parsed part and to the bytes received. */
  lemma OnChunkParses(parse: Parser, b: Buffer, chunk: seq<byte>)
    requires Stable(parse) && b.Valid() && !b.closed
    ensures var r := OnChunk(parse, b, chunk);
            r.offset - b.offset + (if Erases(parse, b, chunk) then 0x8001 else 0)
            <= |b.Rest()| + |chunk| - |r.Rest()|
  {
    var grown := b.(buff := b.buff + chunk);
    assert grown.Rest() == b.Rest() + chunk;
  }

  /**
   Erasing is rare: between two erasures more than 32768 bytes are parsed, so a stream of any length,
   cut in any way, is moved a bounded number of times.
   */
  lemma {:induction false} ErasuresAreRare(parse: Parser, b: Buffer, chunks: seq<seq<byte>>)
    requires Stable(parse) && b.Valid()
    ensures var r := Run(parse, b, chunks);
            r.offset - b.offset + 0x8001 * Erasures(parse, b, chunks)
            <= |b.Rest()| + |Concat(chunks)| - |r.Rest()|
    decreases |chunks|, 1
  {
    if chunks != [] {
      if b.closed {
        ClosedStays(parse, b, chunks);
        ClosedErasesNothing(parse, b, chunks);
      } else {
        RareNext(parse, b, chunks, OnChunk(parse, b, chunks[0]));
      }
    }
  }

  lemma {:induction false} RareNext(parse: Parser, b: Buffer, chunks: seq<seq<byte>>, next: Buffer)
    requires Stable(parse) && b.Valid() && !b.closed && chunks != [] && next == OnChunk(parse, b, chunks[0])
    ensures var r := Run(parse, b, chunks);
            r.offset - b.offset + 0x8001 * Erasures(parse, b, chunks)
            <= |b.Rest()| + |Concat(chunks)| - |r.Rest()|
    decreases |chunks|, 0
  {
    OnChunkParses(parse, b, chunks[0]);
    ErasuresAreRare(parse, next, chunks[1..]);
    assert Run(parse, b, chunks) == Run(parse, next, chunks[1..]);
    assert Erasures(parse, b, chunks)
        == (if Erases(parse, b, chunks[0]) then 1 else 0) + Erasures(parse, next, chunks[1..]);
    assert |Concat(chunks)| == |chunks[0]| + |Concat(chunks[1..])|;
  }

  lemma {:induction false} ClosedErasesNothing(parse: Parser, b: Buffer, chunks: seq<seq<byte>>)
    requires Stable(parse) && b.Valid() && b.closed
    ensures Erasures(parse, b, chunks) == 0
    decreases |chunks|
  {
    if chunks != [] {
      ClosedErasesNothing(parse, b, chunks[1..]);
    }
  }

  function Cut(e: seq<byte>): seq<seq<byte>> {
    if |e| <= MAX_BUFF_SIZE then [e] else [e[..MAX_BUFF_SIZE], e[MAX_BUFF_SIZE..LONGEST]]
  }

  /** Whole packets one after the other, then the beginning of the first overlong one. */
  function ClosingChunks(es: seq<seq<byte>>): (chunks: seq<seq<byte>>)
    ensures forall i :: 0 <= i < |chunks| ==> |chunks[i]| <= MAX_BUFF_SIZE
    ensures Concat(chunks) <= Concat(es)
  {
    if es == [] then []
    else if |es[0]| > LONGEST then
      CutConcat(es[0]);
      Cut(es[0])
    else
      CutConcat(es[0]);
      ConcatAppend(Cut(es[0]), ClosingChunks(es[1..]));
      Cut(es[0]) + ClosingChunks(es[1..])
  }

  lemma CutConcat(e: seq<byte>)
    ensures Concat(Cut(e)) == if |e| <= LONGEST then e else e[..LONGEST]
  {
    if |e| <= MAX_BUFF_SIZE {
      assert Cut(e)[1..] == [];
    } else {
      var first, second := e[..MAX_BUFF_SIZE], e[MAX_BUFF_SIZE..LONGEST];
      assert Cut(e)[1..] == [second] && Cut(e)[1..][1..] == [];
      assert Concat(Cut(e)[1..]) == second;
      assert Concat(Cut(e)) == first + second == e[..LONGEST];
    }
  }

  lemma {:induction false} ConcatAppend(a: seq<seq<byte>>, b: seq<seq<byte>>)
    ensures Concat(a + b) == Concat(a) + Concat(b)
  {
    if a == [] {
      assert a + b == b;
    } else {
      ConcatAppend(a[1..], b);
      assert (a + b)[1..] == a[1..] + b && (a + b)[0] == a[0];
      var front, middle, back := a[0], Concat(a[1..]), Concat(b);
      assert front + (middle + back) == front + middle + back;
    }
  }

  lemma {:induction false} RunAppend(parse: Parser, b: Buffer, first: seq<seq<byte>>, second: seq<seq<byte>>)
    requires Stable(parse) && b.Valid()
    ensures Run(parse, b, first + second) == Run(parse, Run(parse, b, first), second)
    decreases |first|
  {
    if first == [] {
      assert first + second == second;
    } else {
      var next := OnChunk(parse, b, first[0]);
      assert (first + second)[1..] == first[1..] + second;
      RunAppend(parse, next, first[1..], second);
    }
  }

  /** Reading the cut of one packet takes it, or finds it too long: the cut is as bad as can be. */
  lemma RunCut(parse: Parser, b: Buffer, e: seq<byte>)
    requires Stable(parse) && b.Valid() && !b.closed && b.Rest() == [] && Codeword(parse, e)
    ensures var r := Run(parse, b, Cut(e));
            if |e| <= LONGEST then !r.closed && r.Rest() == [] else r.closed
  {
    if |e| <= MAX_BUFF_SIZE {
      OneChunk(e);
      assert b.Rest() + e == e;
      WholePacketTaken(parse, b, e, [], [e]);
      assert Cut(e)[1..] == [];
    } else {
      RunLongCut(parse, b, e);
    }
  }

  lemma OneChunk(e: seq<byte>)
    ensures Concat([e]) == e && [e][1..] == []
    ensures e + [] == e
  {
  }

  lemma RunLongCut(parse: Parser, b: Buffer, e: seq<byte>)
    requires Stable(parse) && b.Valid() && !b.closed && b.Rest() == [] && Codeword(parse, e) && |e| > MAX_BUFF_SIZE
    ensures var r := Run(parse, b, Cut(e));
            if |e| <= LONGEST then !r.closed && r.Rest() == [] else r.closed
  {
    var first, second := e[..MAX_BUFF_SIZE], e[MAX_BUFF_SIZE..LONGEST];
    OneChunk(e);
    assert b.Rest() + first == first <= e;
    PartialPacketWaits(parse, b, first, [e]);
    var mid := OnChunk(parse, b, first);
    assert mid.Rest() == first && !mid.closed;
    SecondChunk(parse, mid, e);
    assert Cut(e)[1..] == [second] && Cut(e)[1..][1..] == [];
    assert Run(parse, b, Cut(e)) == Run(parse, mid, Cut(e)[1..]) == OnChunk(parse, mid, second);
  }

  /** With a full buffer of the packet held, one more byte completes it or is one too many. */
  lemma SecondChunk(parse: Parser, b: Buffer, e: seq<byte>)
    requires Stable(parse) && Codeword(parse, e) && |e| > MAX_BUFF_SIZE
    requires b.Valid() && !b.closed && b.Rest() == e[..MAX_BUFF_SIZE]
    ensures var r := OnChunk(parse, b, e[MAX_BUFF_SIZE..LONGEST]);
            if |e| <= LONGEST then !r.closed && r.Rest() == [] else r.closed
  {
    var second := e[MAX_BUFF_SIZE..LONGEST];
    OneChunk(e);
    assert b.Rest() + second == e[..LONGEST];
    if |e| == LONGEST {
      assert e[..LONGEST] == e && e + [] == e;
      WholePacketTaken(parse, b, second, [], [e]);
    } else {
      PartialPacketWaits(parse, b, second, [e]);
    }
  }

  /** One packet longer than `LONGEST` is enough for some chunking to close the session. */
  lemma {:induction false} SomeChunkingCloses(parse: Parser, b: Buffer, es: seq<seq<byte>>)
    requires Stable(parse) && b.Valid() && !b.closed && b.Rest() == []
    requires forall i :: 0 <= i < |es| ==> Codeword(parse, es[i])
    requires exists i :: 0 <= i < |es| && |es[i]| > LONGEST
    ensures Run(parse, b, ClosingChunks(es)).closed
    decreases |es|
  {
    RunCut(parse, b, es[0]);
    if |es[0]| <= LONGEST {
      RunAppend(parse, b, Cut(es[0]), ClosingChunks(es[1..]));
      var i :| 0 <= i < |es| && |es[i]| > LONGEST;
      assert es[1..][i - 1] == es[i];
      SomeChunkingCloses(parse, Run(parse, b, Cut(es[0])), es[1..]);
    }
  }

  /**
   For a stream of whole packets: some way of cutting it into reads closes the session as "too
   long" if and only if some packet is longer than `LONGEST`.
   */
  lemma TooLongIff(parse: Parser, b: Buffer, es: seq<seq<byte>>)
    requires Stable(parse) && b.Valid() && !b.closed && b.Rest() == []
    requires forall i :: 0 <= i < |es| ==> Codeword(parse, es[i])
    ensures (exists chunks :: Fed(es, chunks) && Run(parse, b, chunks).closed)
            <==> (exists i :: 0 <= i < |es| && |es[i]| > LONGEST)
  {
    if exists i :: 0 <= i < |es| && |es[i]| > LONGEST {
      SomeChunkingCloses(parse, b, es);
      assert Fed(es, ClosingChunks(es));
    } else {
      forall chunks | Fed(es, chunks)
        ensures !Run(parse, b, chunks).closed
      {
        assert b.Rest() + Concat(chunks) == Concat(chunks);
        NeverTooLong(parse, b, es, chunks);
      }
    }
  }

  /** Reads that bring nothing do nothing. */
  lemma EmptyFirst(parse: Parser, chunks: seq<seq<byte>>)
    requires Stable(parse)
    ensures Run(parse, EMPTY, [[]] + chunks) == Run(parse, EMPTY, chunks)
  {
    assert ([[]] + chunks)[1..] == chunks;
    assert EMPTY.Rest() == [];
    assert EMPTY.(buff := EMPTY.buff + []) == EMPTY;
  }

  /** The witness has no empty read. */
  lemma {:induction false} ClosingChunksBring(es: seq<seq<byte>>)
    requires forall i :: 0 <= i < |es| ==> es[i] != []
    ensures forall i :: 0 <= i < |ClosingChunks(es)| ==> ClosingChunks(es)[i] != []
    decreases |es|
  {
    if es != [] {
      assert forall i :: 0 <= i < |Cut(es[0])| ==> Cut(es[0])[i] != [];
      ClosingChunksBring(es[1..]);
    }
  }

  /** Reads of at most a full buffer each that together are the beginning of the stream. */
  predicate Fed(es: seq<seq<byte>>, chunks: seq<seq<byte>>) {
    (forall i :: 0 <= i < |chunks| ==> |chunks[i]| <= MAX_BUFF_SIZE) && Concat(chunks) <= Concat(es)
  }

  /**
   What the server can see of a stream: the payload that came with the request, in a read it shared
   with the request, and then reads of at least one byte and at most a full buffer.
   */
  predicate Behind(es: seq<seq<byte>>, payload: seq<byte>, later: seq<seq<byte>>) {
    && |payload| < MAX_BUFF_SIZE && Fed(es, [payload] + later)
    && forall i :: 0 <= i < |later| ==> later[i] != []
  }

  ghost predicate TooLongBehind(parse: Parser, es: seq<seq<byte>>)
    requires Stable(parse)
  {
    exists payload, later :: Behind(es, payload, later) && Run(parse, EMPTY, [payload] + later).closed
  }

  /** The closing reads, after a request that came with no payload. */
  lemma ClosesBehind(parse: Parser, es: seq<seq<byte>>)
    requires Stable(parse) && forall i :: 0 <= i < |es| ==> Codeword(parse, es[i])
    requires exists i :: 0 <= i < |es| && |es[i]| > LONGEST
    ensures TooLongBehind(parse, es)
  {
    var later := ClosingChunks(es);
    SomeChunkingCloses(parse, EMPTY, es);
    EmptyFirst(parse, later);
    ClosingChunksBring(es);
    FedBehind(es, later);
    assert Behind(es, [], later);
  }

  lemma FedBehind(es: seq<seq<byte>>, later: seq<seq<byte>>)
    requires Fed(es, later)
    ensures Fed(es, [[]] + later)
  {
    assert ([[]] + later)[1..] == later;
    assert Concat([[]] + later) == [] + Concat(later) == Concat(later);
  }

  lemma TooLongBehindIff(parse: Parser, es: seq<seq<byte>>)
    requires Stable(parse) && forall i :: 0 <= i < |es| ==> Codeword(parse, es[i])
    ensures TooLongBehind(parse, es) <==> exists i :: 0 <= i < |es| && |es[i]| > LONGEST
  {
    if exists i :: 0 <= i < |es| && |es[i]| > LONGEST {
      ClosesBehind(parse, es);
    } else {
      TooLongIff(parse, EMPTY, es);
    }
  }
}
