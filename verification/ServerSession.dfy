/**
 The forwarding half of the server's session (Server/Session.cpp, Server/Session.h,
 Server/TlsSession.cpp): two directions, each a ring with its flags, and the completion
 handlers that move bytes through them.

 Each handler is proved to take exactly the step of `Relay`, although a send that is still
 outstanding holds a region of the live ring while later reads are copied into it.
 */
module ServerSessions {
  import opened Bytes
  import opened SessionBuffers
  import opened Relay

  method Memcpy(dst: array<byte>, at: nat, src: seq<byte>)
    requires at + |src| <= dst.Length
    modifies dst
    ensures dst[at..at + |src|] == src
    ensures forall i :: 0 <= i < dst.Length && !(at <= i < at + |src|) ==> dst[i] == old(dst[i])
  {
    for j := 0 to |src|
      invariant dst[at..at + j] == src[..j]
      invariant forall i :: 0 <= i < dst.Length && !(at <= i < at + j) ==> dst[i] == old(dst[i])
    {
      dst[at + j] := src[j];
    }
  }

  lemma TakeMore(data: seq<byte>, offset: nat, n: nat)
    requires offset + n <= |data|
    ensures data[..offset + n] == data[..offset] + data[offset..][..n]
  {
  }

  datatype State = Handshake | Forward | Destroy

  /** The fields of one direction: the ring, `sending_*`, `pausing_*`, and the operations in flight. */
  class Direction {
    const ring: SessionBuffer
    const max: nat                           // the size of the read buffer
    var sending: bool
    var pausing: bool
    ghost var pendingReads: nat
    ghost var region: Option<(nat, nat)>     // position and size of the buffer being sent
    ghost var received: seq<byte>
    ghost var delivered: seq<byte>

    ghost predicate Valid()
      reads this, ring
    {
      && ring.Valid() && 1 <= max <= ring.buf.Length
      && (region.Some? ==>
            && region.value.0 == ring.readPos
            && region.value.1 <= ring.used
            && region.value.0 + region.value.1 <= ring.buf.Length)
    }

    /** What holds even after the ring's count has wrapped around. */
    ghost predicate Safe()
      reads this, ring
    {
      ring.InBuffer() && 1 <= max <= ring.buf.Length && (ring.Valid() ==> Valid())
    }

    /** The objects that handlers write to. */
    ghost function Parts(): set<object> {
      {this, ring, ring.buf}
    }

    /** What holds of a direction between handlers, by the state of its session. */
    ghost predicate Fits(state: State)
      reads this, ring, ring.buf
    {
      match state
      case Handshake => Valid()
      case Forward => Valid() && Inv(ring.buf.Length, max, View())
      case Destroy => Safe() && !pausing
    }

    ghost function View(): Pipe
      requires Valid()
      reads this, ring, ring.buf
    {
      Pipe(ring.Contents(), sending, pausing, pendingReads,
           if region.None? then None
           else Some(ring.buf[region.value.0..region.value.0 + region.value.1]),
           received, delivered)
    }

    constructor (cap: nat, max: nat)
      requires 1 <= max <= cap <= MAX_CAPACITY
      ensures Valid() && View() == START && this.max == max
      ensures fresh(ring) && fresh(ring.buf) && ring.buf.Length == cap
    {
      ring := new SessionBuffer(cap);
      this.max := max;
      sending, pausing, pendingReads, region, received, delivered := false, false, 1, None, [], [];
    }

    /** The bytes a send holds are the front of the queue for as long as it is outstanding. */
    lemma OfferedIsFront()
      requires Valid() && region.Some?
      ensures View().offered == Some(ring.Contents()[..region.value.1])
    {
      var (pos, n) := region.value;
      assert ring.buf[pos..pos + n] == ring.Contents()[..n];
    }

    /**
     The copy loop of enqueue_write: the queue grows by what fits, at most two copies are
     made, bytes are dropped exactly when they do not fit, and no byte already held moves.
     */
    method CopyIn(data: seq<byte>) returns (ghost copies: nat, ghost dropped: bool)
      requires Valid()
      modifies ring`used, ring.buf
      ensures Valid()
      ensures ring.Contents() == Enqueue(ring.buf.Length, old(ring.Contents()), data)
      ensures copies <= 2
      ensures dropped <==> old(ring.used) + |data| > ring.buf.Length
    {
      copies, dropped := 0, false;
      var remaining: nat, offset: nat := |data|, 0;
      ghost var held := ring.Contents();
      while remaining > 0
        invariant offset + remaining == |data| && Valid() && copies <= 2 && !dropped
        invariant ring.used == old(ring.used) + offset
        invariant ring.Contents() == held + data[..offset]
        invariant copies == 0 ==> offset == 0
        invariant copies == 1 ==> remaining == 0 || ring.used == ring.buf.Length || Front() == 0
        invariant copies == 2 ==> remaining == 0 || ring.used == ring.buf.Length
        decreases remaining
      {
        var n := CopyChunk(data[offset..]);
        if n == 0 {
          dropped := true;
          break;
        }
        TakeMore(data, offset, n);
        copies, offset, remaining := copies + 1, offset + n, remaining - n;
      }
    }

    /** The next free slot: a copy that starts at slot 0 meets the wrap-around only when the ring is full. */
    ghost function Front(): nat
      requires ring.Valid()
      reads this, ring
    {
      Slot(ring.readPos, ring.used, ring.buf.Length)
    }

    /** One round of the loop: prepare, copy, commit. It stops short only when full or at the wrap. */
    method CopyChunk(rest: seq<byte>) returns (n: nat)
      requires Valid()
      modifies ring`used, ring.buf
      ensures Valid() && n <= |rest| && ring.used == old(ring.used) + n
      ensures ring.Contents() == old(ring.Contents()) + rest[..n]
      ensures n == 0 <==> rest == [] || old(ring.used) == ring.buf.Length
      ensures n == |rest| || ring.used == ring.buf.Length || (Front() == 0 && old(Front()) != 0)
    {
      var wpos;
      wpos, n := ring.Prepare(|rest|);
      if n > 0 {
        assert Slot(ring.readPos, ring.used, ring.buf.Length) == wpos;
        Store(wpos, rest[..n]);
      }
    }

    /** memcpy into a prepared region, and commit: the queue grows by exactly the bytes copied. */
    method Store(wpos: nat, chunk: seq<byte>)
      requires Valid() && ring.used + |chunk| <= ring.buf.Length && wpos + |chunk| <= ring.buf.Length
      requires forall k :: ring.used <= k < ring.used + |chunk| ==>
               Slot(ring.readPos, k, ring.buf.Length) == wpos + k - ring.used
      requires forall i :: 0 <= i < ring.used ==> !(wpos <= Slot(ring.readPos, i, ring.buf.Length) < wpos + |chunk|)
      modifies ring`used, ring.buf
      ensures Valid() && ring.used == old(ring.used) + |chunk|
      ensures ring.Contents() == old(ring.Contents()) + chunk
    {
      Memcpy(ring.buf, wpos, chunk);
      HeldBytesStay(old(ring.buf[..]), ring.buf[..], ring.readPos, ring.used, wpos, |chunk|);
      WrittenBytesFollow(ring.buf[..], ring.readPos, ring.used, wpos, chunk);
      ring.Commit(|chunk|);
    }

    /**
     do_send_down and do_send_up. The step of the step system, if the ring is valid; and in any case
     a send is started exactly if the ring is not empty, of all the bytes that lie in one piece.
     */
    method StartSend() returns (ghost offer: nat)
      requires Safe()
      modifies this
      ensures Safe() && (old(ring.Valid()) ==> View() == DoSend(old(View()), offer))
      ensures ring.used > 0 ==> Offers(offer) && 1 <= offer <= ring.used && Spans(offer)
      ensures ring.used == 0 ==> region.None? && !sending
      ensures received == old(received) && delivered == old(delivered)
      ensures !old(pausing) ==> !pausing && pendingReads == old(pendingReads)
    {
      if ring.used == 0 {
        sending, region, offer := false, None, 0;
        if pausing {
          pausing := false;
          pendingReads := pendingReads + 1;
        }
      } else {
        var pos, n := ring.Peek();
        region, offer := Some((pos, n)), n;
      }
    }

    /** A send of `n` bytes of the buffer is outstanding. */
    ghost predicate Offers(n: nat)
      reads this
    {
      region.Some? && region.value.1 == n && region.value.0 + n <= ring.buf.Length
    }

    /** The oldest `n` bytes are the whole queue, or all of it up to the end of the buffer. */
    ghost predicate Spans(n: nat)
      reads ring
    {
      n == ring.used || ring.readPos + n == ring.buf.Length
    }

    /** enqueue_write: copy, and start a send unless one is outstanding. The bytes being sent stay put. */
    method EnqueueWrite(data: seq<byte>) returns (ghost offer: nat, ghost copies: nat)
      requires Valid() && Inv(ring.buf.Length, max, View())
      requires pendingReads >= 1 && |data| <= max
      modifies this, ring`used, ring.buf
      ensures Valid() && copies <= 2
      ensures var q := old(View()).(queue := old(View()).queue + data);
              View() == if q.sending then q else DoSend(q.(sending := true), offer)
      ensures !old(sending) && ring.used > 0 ==> Offers(offer) && 1 <= offer <= ring.used && Spans(offer)
    {
      NothingDropped(ring.buf.Length, max, View(), data);
      if region.Some? { OfferedIsFront(); }
      ghost var dropped: bool;
      copies, dropped := CopyIn(data);
      offer := 0;
      if region.Some? {
        OfferedIsFront();
        assert ring.Contents()[..region.value.1] == old(ring.Contents())[..region.value.1];
      }
      assert View() == old(View()).(queue := old(View()).queue + data);
      if !sending {
        sending := true;
        offer := StartSend();
      }
    }

    /**
     The handler of a completed read (async_bidirectional_write). Between handlers nothing is
     ever dropped, and the step taken is the one of the step system.
     */
    method ReadCompleted(data: seq<byte>) returns (ghost offer: nat, ghost copies: nat)
      requires Valid() && Inv(ring.buf.Length, max, View())
      requires pendingReads >= 1 && |data| <= max
      modifies this, ring`used, ring.buf
      ensures Valid() && copies <= 2
      ensures Takes(ring.buf.Length, max, old(View()), ReadDone(data, offer), View())
      ensures View().queue == old(View()).queue + data && Fits(Forward)
      ensures !old(sending) && ring.used > 0 ==> Offers(offer) && Spans(offer)
    {
      ghost var p := View();
      NothingDropped(ring.buf.Length, max, p, data);
      offer, copies := EnqueueWrite(data);
      pendingReads, received := pendingReads - 1, received + data;
      ReadAgain();
      assert View() == Step(ring.buf.Length, max, p, ReadDone(data, offer));
      ReadKeepsInv(ring.buf.Length, max, p, data, offer);
    }

    /** Read again if another full buffer would fit, otherwise pause. */
    method ReadAgain()
      requires Valid()
      modifies this`pendingReads, this`pausing
      ensures Valid() && View() == Rearm(ring.buf.Length, max, old(View()))
    {
      if ring.HasSpace(max) {
        pendingReads := pendingReads + 1;
      } else {
        pausing := true;
      }
    }

    /**
     The handler of a completed send: the destination got the first `k` bytes of the region as it
     is in the ring now, however many reads were copied in since the send began.
     */
    method SendCompleted(k: nat) returns (ghost offer: nat)
      requires Valid() && Inv(ring.buf.Length, max, View())
      requires region.Some? && k <= region.value.1
      modifies this, ring
      ensures Valid()
      ensures Takes(ring.buf.Length, max, old(View()), SendDone(k, offer), View()) && Fits(Forward)
      ensures ring.used == old(ring.used) - k && (ring.used > 0 ==> Offers(offer) && Spans(offer))
      ensures k == old(region.value.1) && old(Spans(k)) ==> ring.used == 0 || offer == ring.used
    {
      ghost var p := View();
      delivered := delivered + ring.buf[region.value.0..region.value.0 + k];
      region := None;
      ring.Consume(k);
      assert View() == p.(delivered := p.delivered + p.offered.value[..k], queue := p.queue[k..], offered := None);
      offer := StartSend();
      SentKeepsInv(ring.buf.Length, max, p, k, offer);
    }

    /**
     Two sends in a row that the destination takes whole, with nothing copied in between: the first
     took the queue up to the end of the buffer, the second takes the rest, and the ring is empty.
     */
    method TwoFullSends(first: nat, second: nat)
      requires Valid() && Inv(ring.buf.Length, max, View())
      requires region.Some? && first == region.value.1 && Spans(first) && second == ring.used - first
      modifies this, ring
      ensures Fits(Forward) && Valid() && ring.used == 0 && !sending
      ensures delivered == old(delivered) + old(ring.Contents())
    {
      ghost var offer := SendCompleted(first);
      if second > 0 {
        ghost var last := SendCompleted(second);
      }
    }

    /**
     The same handler after destroy(), whose state it does not look at: it consumes from the emptied
     ring, or from one that an earlier such completion has broken. If a byte was taken off nothing, the
     ring's count wraps around, and bytes that are no longer queued are sent once more, on a socket
     that is closed. The buffer is never left.
     */
    method SendCompletedLate(k: nat)
      requires Safe() && !pausing && k <= ring.buf.Length
      modifies this, ring
      ensures Fits(Destroy) && ring.used == SizeMinus(old(ring.used), k)
      ensures if ring.used == 0 then Idle() else region.Some? && region.value.1 >= 1 && Offers(region.value.1)
      ensures old(Valid() && Idle()) ==> (Valid() <==> k == 0)
      ensures received == old(received) && delivered == old(delivered) && pendingReads == old(pendingReads)
    {
      region := None;
      ring.Consume(k);
      ghost var offer := StartSend();
    }

    /** Nothing is queued and nothing is being sent. */
    ghost predicate Idle()
      reads this, ring
    {
      ring.used == 0 && region.None? && !sending && !pausing
    }

    /** What destroy() does to one direction. */
    method Clear()
      requires Valid()
      modifies this, ring
      ensures Valid() && Idle()
      ensures received == old(received) && delivered == old(delivered)
    {
      region := None;
      ring.Reset();
      sending, pausing := false, false;
    }
  }

  datatype Way = Down | Up

  /** A forwarding session: client to target (down) and target to client (up). */
  class Session {
    const down: Direction
    const up: Direction
    var state: State

    function Of(way: Way): Direction {
      if way == Down then down else up
    }

    /** The objects of a direction that handlers write to. */
    ghost function Objects(way: Way): set<object> {
      Of(way).Parts()
    }

    /** What holds in every state, also after completions that were handled late. */
    ghost predicate Sane()
      reads this, Objects(Down), Objects(Up)
    {
      && Objects(Down) !! Objects(Up) && this as object !in Objects(Down) + Objects(Up)
      && forall way :: Of(way).Fits(state)
    }

    ghost predicate Valid()
      reads this, Objects(Down), Objects(Up)
    {
      Sane() && (state == Destroy ==> down.Valid() && down.Idle() && up.Valid() && up.Idle())
    }

    constructor (cap: nat, max: nat)
      requires 1 <= max <= cap <= MAX_CAPACITY
      ensures Valid() && state == Forward && down.View() == START && up.View() == START
      ensures forall way :: fresh(Objects(way))
    {
      down := new Direction(cap, max);
      up := new Direction(cap, max);
      state := Forward;
    }

    /** The completion of a read in one direction; `None` is an error, and ends the session. */
    method OnRead(way: Way, result: Option<seq<byte>>) returns (ghost offer: nat)
      requires Sane() && state != Handshake
      requires state == Forward && result.Some? ==> Of(way).pendingReads >= 1 && |result.value| <= Of(way).max
      modifies this, Objects(Down), Objects(Up)
      ensures Sane() && (old(Valid()) ==> Valid())
      ensures state == if old(state) == Forward && result.Some? then Forward else Destroy
      ensures old(state) == Destroy ==> unchanged(Objects(Down)) && unchanged(Objects(Up))
      ensures state == Forward && way == Down ==> unchanged(up, up.ring, up.ring.buf)
      ensures state == Forward && way == Up ==> unchanged(down, down.ring, down.ring.buf)
      ensures state == Forward ==>
                && Of(way).Valid() && old(Of(way).Valid())
                && Takes(Of(way).ring.buf.Length, Of(way).max, old(Of(way).View()), ReadDone(result.value, offer),
                         Of(way).View())
    {
      offer := 0;
      if state == Destroy { return; }
      if result.None? {
        EndSession();
      } else {
        offer := ReadForward(way, result.value);
      }
    }

    method ReadForward(way: Way, data: seq<byte>) returns (ghost offer: nat)
      requires Sane() && state == Forward && Of(way).pendingReads >= 1 && |data| <= Of(way).max
      modifies Objects(way)
      ensures Sane()
      ensures && Of(way).Valid() && old(Of(way).Valid())
              && Takes(Of(way).ring.buf.Length, Of(way).max, old(Of(way).View()), ReadDone(data, offer), Of(way).View())
    {
      if way == Down {
        offer := ReadBeside(down, up, data);
      } else {
        offer := ReadBeside(up, down, data);
      }
    }

    /** One direction moves and the other stays as it is. */
    static method ReadBeside(dir: Direction, other: Direction, data: seq<byte>) returns (ghost offer: nat)
      requires dir.Parts() !! other.Parts() && dir.Fits(Forward) && other.Fits(Forward)
      requires dir.pendingReads >= 1 && |data| <= dir.max
      modifies dir.Parts()
      ensures dir.Fits(Forward) && other.Fits(Forward)
      ensures Takes(dir.ring.buf.Length, dir.max, old(dir.View()), ReadDone(data, offer), dir.View())
    {
      ghost var copies;
      offer, copies := dir.ReadCompleted(data);
    }

    /**
     The completion of a send in one direction, in any state. The handler does not look at the state:
     one that succeeded before destroy() and is handled after it breaks the session exactly if it took
     a byte. Whatever else is handled after that, the rings stay inside their buffers.
     */
    method OnSent(way: Way, result: Option<nat>) returns (ghost offer: nat)
      requires Sane() && state != Handshake
      requires state == Forward && result.Some? ==> Of(way).region.Some? && result.value <= Of(way).region.value.1
      requires state == Destroy && result.Some? ==> result.value <= Of(way).ring.buf.Length
      modifies this, Objects(Down), Objects(Up)
      ensures state == if old(state) == Forward && result.Some? then Forward else Destroy
      ensures Sane() && (old(Valid()) ==> (Valid() <==> !(old(state) == Destroy && result.Some? && result.value > 0)))
      ensures result.Some? && way == Down ==> unchanged(up, up.ring, up.ring.buf)
      ensures result.Some? && way == Up ==> unchanged(down, down.ring, down.ring.buf)
      ensures state == Forward ==>
                && Of(way).Valid() && old(Of(way).Valid())
                && Takes(Of(way).ring.buf.Length, Of(way).max, old(Of(way).View()), SendDone(result.value, offer),
                         Of(way).View())
      ensures old(state) == Destroy && result.Some? ==>
                Of(way).ring.used == SizeMinus(old(Of(way).ring.used), result.value)
      ensures state == Destroy ==>
                NothingMoved(old(down.received), old(down.delivered), old(up.received), old(up.delivered))
    {
      offer := 0;
      if result.None? {
        EndSession();
      } else if state == Destroy {
        SentLate(way, result.value);
      } else {
        offer := SentForward(way, result.value);
      }
    }

    method SentForward(way: Way, k: nat) returns (ghost offer: nat)
      requires Sane() && state == Forward && Of(way).region.Some? && k <= Of(way).region.value.1
      modifies Objects(way)
      ensures Sane()
      ensures && Of(way).Valid() && old(Of(way).Valid())
              && Takes(Of(way).ring.buf.Length, Of(way).max, old(Of(way).View()), SendDone(k, offer), Of(way).View())
    {
      if way == Down {
        offer := down.SendCompleted(k);
      } else {
        offer := up.SendCompleted(k);
      }
    }

    method SentLate(way: Way, k: nat)
      requires Sane() && state == Destroy && k <= Of(way).ring.buf.Length
      modifies Objects(way)
      ensures Sane() && (old(Valid()) ==> (Valid() <==> k == 0))
      ensures Of(way).ring.used == SizeMinus(old(Of(way).ring.used), k)
      ensures NothingMoved(old(down.received), old(down.delivered), old(up.received), old(up.delivered))
    {
      if way == Down {
        down.SendCompletedLate(k);
      } else {
        up.SendCompletedLate(k);
      }
    }

    /** The logs of both directions. */
    ghost predicate NothingMoved(r1: seq<byte>, d1: seq<byte>, r2: seq<byte>, d2: seq<byte>)
      reads down, up
    {
      down.received == r1 && down.delivered == d1 && up.received == r2 && up.delivered == d2
    }

    /** destroy(): idempotent, and nothing more is received or delivered by it. */
    method EndSession()
      requires Sane()
      modifies this, Objects(Down), Objects(Up)
      ensures Sane() && state == Destroy && (old(state) != Destroy || old(Valid()) ==> Valid())
      ensures old(state) == Destroy ==> unchanged(Objects(Down)) && unchanged(Objects(Up))
      ensures NothingMoved(old(down.received), old(down.delivered), old(up.received), old(up.delivered))
    {
      if state == Destroy { return; }
      state := Destroy;
      down.Clear();
      up.Clear();
    }
  }
}
