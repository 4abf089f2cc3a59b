/**
 One direction of the server's TCP relay as a step system (Server/Session.cpp, from
 async_bidirectional_read to do_send_up).

 A run is a sequence of completion handlers. The environment chooses how many bytes each
 read returns, how many each send takes, and how much of the queue each send is offered
 (the contiguous part of the ring). The sockets are the logs `received` and `delivered`.

 The handler copies into the ring whatever fits and silently drops the rest, and a send
 completion removes `k` bytes without looking at what was sent. That nothing is ever lost,
 repeated or reordered is therefore a property of whole runs.
 */
module Relay {
  import opened Bytes

  datatype Pipe = Pipe(
    queue: seq<byte>,               // the bytes held in the ring
    sending: bool,
    pausing: bool,
    pendingReads: nat,              // read operations outstanding on the source socket
    offered: Option<seq<byte>>,     // the buffer of the outstanding send, if there is one
    received: seq<byte>,            // everything read from the source socket
    delivered: seq<byte>)           // everything written to the destination socket

  /** `offer` is the size of the contiguous region that a send started by the handler is given. */
  datatype Event = ReadDone(chunk: seq<byte>, offer: nat) | SendDone(k: nat, offer: nat)

  /** The state in which forwarding begins: one read is outstanding. */
  const START := Pipe([], false, false, 1, None, [], [])

  function Min(a: nat, b: nat): nat {
    if a < b then a else b
  }

  /** What the copy loop adds to a ring of `cap` bytes: the part that fits. */
  function Enqueue(cap: nat, queue: seq<byte>, chunk: seq<byte>): seq<byte> {
    queue + chunk[..Min(|chunk|, if |queue| < cap then cap - |queue| else 0)]
  }

  /** do_send: stop when the ring is empty, resuming a paused reader; otherwise send its front. */
  function DoSend(p: Pipe, offer: nat): Pipe {
    if p.queue == [] then
      p.(sending := false, pausing := false, offered := None,
         pendingReads := if p.pausing then p.pendingReads + 1 else p.pendingReads)
    else
      p.(offered := Some(p.queue[..Min(offer, |p.queue|)]))
  }

  /** After a read: read again if another full buffer would fit, otherwise pause. */
  function Rearm(cap: nat, max: nat, p: Pipe): Pipe {
    if |p.queue| + max <= cap then p.(pendingReads := p.pendingReads + 1) else p.(pausing := true)
  }

  /** The handler of a completed read of `chunk`. */
  function OnRead(cap: nat, max: nat, p: Pipe, chunk: seq<byte>, offer: nat): Pipe
    requires p.pendingReads >= 1
  {
    var q := p.(pendingReads := p.pendingReads - 1, received := p.received + chunk,
                queue := Enqueue(cap, p.queue, chunk));
    Rearm(cap, max, if q.sending then q else DoSend(q.(sending := true), offer))
  }

  /** The handler of a completed send that took `k` bytes. */
  function OnSent(p: Pipe, k: nat, offer: nat): Pipe
    requires p.offered.Some? && k <= |p.offered.value|
  {
    DoSend(p.(delivered := p.delivered + p.offered.value[..k], queue := p.queue[Min(k, |p.queue|)..]), offer)
  }

  /**
   The completions that can arrive: of an outstanding operation, within its buffer. A new send gets
   the front of the queue.
   */
  predicate Enabled(cap: nat, max: nat, p: Pipe, ev: Event) {
    match ev
    case ReadDone(chunk, offer) =>
      && p.pendingReads >= 1 && |chunk| <= max
      && (!p.sending && Enqueue(cap, p.queue, chunk) != [] ==> 1 <= offer <= |Enqueue(cap, p.queue, chunk)|)
    case SendDone(k, offer) =>
      && p.offered.Some? && k <= |p.offered.value|
      && (k < |p.queue| ==> 1 <= offer <= |p.queue| - k)
  }

  function Step(cap: nat, max: nat, p: Pipe, ev: Event): Pipe
    requires Enabled(cap, max, p, ev)
  {
    match ev
    case ReadDone(chunk, offer) => OnRead(cap, max, p, chunk, offer)
    case SendDone(k, offer) => OnSent(p, k, offer)
  }

  /** Everything that holds between handlers. */
  ghost predicate Inv(cap: nat, max: nat, p: Pipe) {
    // conservation: nothing lost, repeated or reordered
    && p.received == p.delivered + p.queue
    // flag protocol: exactly one of a read outstanding and paused
    && p.pendingReads == (if p.pausing then 0 else 1)
    // an outstanding read always has room for a full buffer
    && |p.queue| <= cap && (p.pendingReads == 1 ==> |p.queue| + max <= cap)
    // sending, a send outstanding, and a non-empty ring are the same thing
    && (p.sending <==> p.queue != []) && (p.offered.Some? <==> p.queue != [])
    // the outstanding send holds the front of the queue
    && (p.offered.Some? ==> p.offered.value != [] && p.offered.value <= p.queue)
    // backpressure never blocks an idle direction
    && (p.pausing ==> p.queue != [])
  }

  /** `q` is what the handler of `ev` makes of `p`. */
  ghost predicate Takes(cap: nat, max: nat, p: Pipe, ev: Event, q: Pipe) {
    Enabled(cap, max, p, ev) && q == Step(cap, max, p, ev)
  }

  ghost predicate Legal(cap: nat, max: nat, p: Pipe, evs: seq<Event>)
    decreases |evs|
  {
    evs == [] || (Enabled(cap, max, p, evs[0]) && Legal(cap, max, Step(cap, max, p, evs[0]), evs[1..]))
  }

  ghost function Run(cap: nat, max: nat, p: Pipe, evs: seq<Event>): Pipe
    requires Legal(cap, max, p, evs)
    decreases |evs|
  {
    if evs == [] then p else Run(cap, max, Step(cap, max, p, evs[0]), evs[1..])
  }

  /** A completed read never meets a full ring: the branch that drops bytes is not taken. */
  lemma NothingDropped(cap: nat, max: nat, p: Pipe, chunk: seq<byte>)
    requires Inv(cap, max, p) && p.pendingReads >= 1 && |chunk| <= max
    ensures Enqueue(cap, p.queue, chunk) == p.queue + chunk
  {
    assert chunk[..|chunk|] == chunk;
  }

  /** Otherwise the ring would be filled up with the beginning of the chunk. */
  lemma TakesWhatFits(cap: nat, queue: seq<byte>, chunk: seq<byte>)
    requires |queue| <= cap
    ensures queue <= Enqueue(cap, queue, chunk) <= queue + chunk
    ensures |Enqueue(cap, queue, chunk)| == Min(cap, |queue| + |chunk|)
  {
  }

  lemma ReadKeepsInv(cap: nat, max: nat, p: Pipe, chunk: seq<byte>, offer: nat)
    requires 1 <= max <= cap && Inv(cap, max, p) && Enabled(cap, max, p, ReadDone(chunk, offer))
    ensures Inv(cap, max, OnRead(cap, max, p, chunk, offer))
  {
    NothingDropped(cap, max, p, chunk);
    var q := OnRead(cap, max, p, chunk, offer);
    assert q.queue == p.queue + chunk;
    assert q.received == p.received + chunk == p.delivered + q.queue;
    assert p.queue <= q.queue;
  }

  lemma SentKeepsInv(cap: nat, max: nat, p: Pipe, k: nat, offer: nat)
    requires 1 <= max <= cap && Inv(cap, max, p) && Enabled(cap, max, p, SendDone(k, offer))
    ensures Inv(cap, max, OnSent(p, k, offer))
  {
    var q := OnSent(p, k, offer);
    assert p.offered.value[..k] == p.queue[..k];
    assert p.queue == p.queue[..k] + p.queue[k..];
    assert q.received == q.delivered + q.queue;
  }

  lemma StepKeepsInv(cap: nat, max: nat, p: Pipe, ev: Event)
    requires 1 <= max <= cap && Inv(cap, max, p) && Enabled(cap, max, p, ev)
    ensures Inv(cap, max, Step(cap, max, p, ev))
  {
    match ev
    case ReadDone(chunk, offer) => ReadKeepsInv(cap, max, p, chunk, offer);
    case SendDone(k, offer) => SentKeepsInv(cap, max, p, k, offer);
  }

  /** What a step does to the two logs. */
  ghost predicate Logs(p: Pipe, ev: Event, q: Pipe) {
    match ev
    case ReadDone(chunk, _) => q.received == p.received + chunk && q.delivered == p.delivered
    case SendDone(k, _) =>
      q.received == p.received && p.offered.Some? && k <= |p.offered.value|
        && q.delivered == p.delivered + p.offered.value[..k]
  }

  lemma StepLogs(cap: nat, max: nat, p: Pipe, ev: Event)
    requires 1 <= max <= cap && Inv(cap, max, p) && Enabled(cap, max, p, ev)
    ensures Logs(p, ev, Step(cap, max, p, ev)) && Inv(cap, max, Step(cap, max, p, ev))
  {
    StepKeepsInv(cap, max, p, ev);
  }

  /** Conservation, the flag protocol and the ring bound hold in every reachable state. */
  lemma {:induction false} EveryRunKeepsInv(cap: nat, max: nat, p: Pipe, evs: seq<Event>)
    requires 1 <= max <= cap && Inv(cap, max, p) && Legal(cap, max, p, evs)
    ensures Inv(cap, max, Run(cap, max, p, evs))
    decreases |evs|
  {
    if evs != [] {
      StepKeepsInv(cap, max, p, evs[0]);
      EveryRunKeepsInv(cap, max, Step(cap, max, p, evs[0]), evs[1..]);
    }
  }

  /** From the start of forwarding, what was delivered is a prefix of what was read, for every run. */
  lemma DeliveredIsPrefix(cap: nat, max: nat, evs: seq<Event>)
    requires 1 <= max <= cap && Legal(cap, max, START, evs)
    ensures var p := Run(cap, max, START, evs);
            && p.delivered <= p.received
            && p.received[|p.delivered|..] == p.queue
            && |p.received| - |p.delivered| <= cap
  {
    EveryRunKeepsInv(cap, max, START, evs);
  }

  /** No direction deadlocks: some completion is always to come. */
  lemma SomethingOutstanding(cap: nat, max: nat, evs: seq<Event>)
    requires 1 <= max <= cap && Legal(cap, max, START, evs)
    ensures var p := Run(cap, max, START, evs); p.pendingReads + (if p.offered.Some? then 1 else 0) >= 1
    ensures Run(cap, max, START, evs).pendingReads <= 1
  {
    EveryRunKeepsInv(cap, max, START, evs);
  }

  /** Backpressure: a completed read pauses its direction exactly if another full buffer would not fit. */
  lemma PausesIff(cap: nat, max: nat, p: Pipe, chunk: seq<byte>, offer: nat)
    requires 1 <= max <= cap && Inv(cap, max, p) && Enabled(cap, max, p, ReadDone(chunk, offer))
    ensures Step(cap, max, p, ReadDone(chunk, offer)).pausing <==> |p.queue| + |chunk| + max > cap
  {
    NothingDropped(cap, max, p, chunk);
  }

  /** A paused direction reads again exactly when a completed send has emptied its ring. */
  lemma ResumesIff(cap: nat, max: nat, p: Pipe, k: nat, offer: nat)
    requires 1 <= max <= cap && Inv(cap, max, p) && p.pausing && Enabled(cap, max, p, SendDone(k, offer))
    ensures Step(cap, max, p, SendDone(k, offer)).pendingReads == 1 <==> k == |p.queue|
  {
  }

  /** Every send completion in the run took at least one byte. */
  predicate Progressing(evs: seq<Event>) {
    forall i :: 0 <= i < |evs| && evs[i].SendDone? ==> evs[i].k >= 1
  }

  /** A paused direction reads again after at most as many send completions as bytes queued. */
  lemma {:induction false} PausedResumes(cap: nat, max: nat, p: Pipe, evs: seq<Event>)
    requires 1 <= max <= cap && Inv(cap, max, p)
    requires Legal(cap, max, p, evs) && Progressing(evs) && |evs| >= |p.queue|
    ensures exists i :: 0 <= i <= |p.queue| && ResumedAfter(cap, max, p, evs, i)
    decreases |evs|
  {
    if !p.pausing {
      assert evs[..0] == [];
      assert ResumedAfter(cap, max, p, evs, 0);
    } else {
      var next := Step(cap, max, p, evs[0]);
      StepKeepsInv(cap, max, p, evs[0]);
      PausedResumes(cap, max, next, evs[1..]);
      var i :| 0 <= i <= |next.queue| && ResumedAfter(cap, max, next, evs[1..], i);
      assert evs[..i + 1][1..] == evs[1..][..i];
      assert ResumedAfter(cap, max, p, evs, i + 1);
    }
  }

  /** After the first `i` events, all of them send completions, a read is outstanding again. */
  ghost predicate ResumedAfter(cap: nat, max: nat, p: Pipe, evs: seq<Event>, i: nat) {
    && i <= |evs| && Legal(cap, max, p, evs[..i])
    && (forall j :: 0 <= j < i ==> evs[j].SendDone?)
    && !Run(cap, max, p, evs[..i]).pausing && Run(cap, max, p, evs[..i]).pendingReads == 1
  }

  /** With reads withheld, sends that progress deliver everything within |queue| completions. */
  lemma {:induction false} SendsDrain(cap: nat, max: nat, p: Pipe, evs: seq<Event>)
    requires 1 <= max <= cap && Inv(cap, max, p)
    requires Legal(cap, max, p, evs) && Progressing(evs) && forall i :: 0 <= i < |evs| ==> evs[i].SendDone?
    ensures |evs| <= |p.queue|
    ensures var q := Run(cap, max, p, evs); q.received == p.received && (q.offered.None? ==> q.delivered == p.received)
    decreases |evs|
  {
    if evs != [] {
      StepKeepsInv(cap, max, p, evs[0]);
      SendsDrain(cap, max, Step(cap, max, p, evs[0]), evs[1..]);
    }
  }
}
