/**
 The circular byte buffer of one relay direction (Server/Session.h, class SessionBuffer).

 The bytes it holds are a FIFO queue, `Contents()`. Every operation is specified by what it
 does to that queue, for every position of the read pointer, so the wrap-around never shows.
 */
module SessionBuffers {
  import opened Bytes

  const SIZE_T := 0x1_0000_0000_0000_0000
  const MAX_CAPACITY := 0x7FFF_FFFF_FFFF_FFFF

  /** Subtraction of `size_t` values wraps around below zero. */
  function SizeMinus(a: nat, b: nat): nat
    requires b <= SIZE_T
  {
    if b <= a then a - b else SIZE_T + a - b
  }

  /** The index of the `i`-th byte after `start` in a circle of `cap` bytes. */
  function Slot(start: nat, i: nat, cap: nat): (at: nat)
    requires start < cap && i <= cap
    ensures at < cap
  {
    if start + i < cap then start + i else start + i - cap
  }

  /** The source computes it as a remainder. */
  lemma SlotIsRemainder(start: nat, i: nat, cap: nat)
    requires start < cap && i <= cap
    ensures Slot(start, i, cap) == (start + i) % cap
  {
    if start + i >= cap {
      assert start + i == cap * 1 + (start + i - cap);
    }
  }

  /** The `used` bytes from `start` onwards, in the order they will leave. */
  ghost function Unrolled(raw: seq<byte>, start: nat, used: nat): (s: seq<byte>)
    requires start < |raw| && used <= |raw|
    ensures |s| == used
    ensures forall i :: 0 <= i < used ==> s[i] == raw[Slot(start, i, |raw|)]
  {
    seq(used, i requires 0 <= i < used => raw[Slot(start, i, |raw|)])
  }

  /** Bytes written outside the held slots do not change the queue. */
  lemma HeldBytesStay(raw: seq<byte>, wrote: seq<byte>, start: nat, used: nat, wpos: nat, n: nat)
    requires start < |raw| == |wrote| && used <= |raw|
    requires forall i :: 0 <= i < |raw| && !(wpos <= i < wpos + n) ==> wrote[i] == raw[i]
    requires forall i :: 0 <= i < used ==> !(wpos <= Slot(start, i, |raw|) < wpos + n)
    ensures Unrolled(wrote, start, used) == Unrolled(raw, start, used)
  {
    forall i | 0 <= i < used
      ensures Unrolled(wrote, start, used)[i] == Unrolled(raw, start, used)[i]
    {
      assert wrote[Slot(start, i, |raw|)] == raw[Slot(start, i, |raw|)];
    }
  }

  /** Bytes written into the slots that follow the queue are what joins it. */
  lemma WrittenBytesFollow(wrote: seq<byte>, start: nat, used: nat, wpos: nat, chunk: seq<byte>)
    requires start < |wrote| && used + |chunk| <= |wrote| && wpos + |chunk| <= |wrote|
    requires forall k :: used <= k < used + |chunk| ==> Slot(start, k, |wrote|) == wpos + k - used
    requires wrote[wpos..wpos + |chunk|] == chunk
    ensures Unrolled(wrote, Slot(start, used, |wrote|), |chunk|) == chunk
  {
    var from := Slot(start, used, |wrote|);
    forall j | 0 <= j < |chunk|
      ensures Unrolled(wrote, from, |chunk|)[j] == chunk[j]
    {
      assert Slot(from, j, |wrote|) == Slot(start, used + j, |wrote|) == wpos + j;
      assert wrote[wpos..wpos + |chunk|][j] == chunk[j];
    }
  }

  class SessionBuffer {
    const buf: array<byte>
    var readPos: nat
    var used: nat

    ghost predicate Valid()
      reads this
    {
      InBuffer() && used <= buf.Length
    }

    /** What holds even after the count has wrapped around. */
    ghost predicate InBuffer()
      reads this
    {
      readPos < buf.Length <= MAX_CAPACITY && used < SIZE_T
    }

    ghost function Contents(): (s: seq<byte>)
      requires Valid()
      reads this, buf
      ensures |s| == used
    {
      Unrolled(buf[..], readPos, used)
    }

    constructor (cap: nat)
      requires 0 < cap <= MAX_CAPACITY
      ensures Valid() && fresh(buf)
      ensures buf.Length == cap && Contents() == []
    {
      buf := new byte[cap](_ => 0);
      readPos, used := 0, 0;
    }

    /**
     The contiguous free region for the next write. It continues the contents, it is disjoint
     from every byte held, and it is empty only when nothing was asked for or the buffer is full.
     */
    method Prepare(len: nat) returns (wpos: nat, n: nat)
      requires Valid()
      ensures wpos + n <= buf.Length && used + n <= buf.Length
      ensures forall k :: used <= k < used + n ==> Slot(readPos, k, buf.Length) == wpos + k - used
      ensures forall i :: 0 <= i < used ==> !(wpos <= Slot(readPos, i, buf.Length) < wpos + n)
      ensures n == 0 <==> len == 0 || used == buf.Length
      ensures n == len || used + n == buf.Length || wpos + n == buf.Length
      ensures n <= len
    {
      var avail := buf.Length - used;
      if avail == 0 { return 0, 0; }
      n := if len < avail then len else avail;
      wpos := (readPos + used) % buf.Length;
      SlotIsRemainder(readPos, used, buf.Length);
      if buf.Length - wpos < n { n := buf.Length - wpos; }
    }

    /** The `n` bytes written into the prepared region join the queue. */
    method Commit(n: nat)
      requires Valid() && used + n <= buf.Length
      modifies this`used
      ensures Valid() && used == old(used) + n
      ensures Contents() == old(Contents()) + Unrolled(buf[..], Slot(readPos, old(used), buf.Length), n)
    {
      used := used + n;
      ghost var start := Slot(readPos, old(used), buf.Length);
      assert forall j :: 0 <= j < n ==> Slot(start, j, buf.Length) == Slot(readPos, old(used) + j, buf.Length);
    }

    /**
     The contiguous region holding the oldest bytes, as large as it can be: the whole queue, or all up
     to the buffer's end. It is never outside the buffer, whatever the count says.
     */
    method Peek() returns (pos: nat, n: nat)
      requires InBuffer()
      ensures pos == readPos && pos + n <= buf.Length && n <= used
      ensures n == used || pos + n == buf.Length
      ensures n == 0 <==> used == 0
      ensures Valid() ==> buf[pos..pos + n] == Contents()[..n]
    {
      pos := readPos;
      n := if used < buf.Length - readPos then used else buf.Length - readPos;
    }

    /**
     The oldest `n` bytes leave the queue. The count is unsigned: taking more than is held
     wraps it around, and the buffer is valid afterwards if and only if that did not happen.
     */
    method Consume(n: nat)
      requires InBuffer() && n <= buf.Length
      modifies this
      ensures InBuffer() && used == SizeMinus(old(used), n) && readPos == Slot(old(readPos), n, buf.Length)
      ensures old(Valid()) ==> (Valid() <==> n <= old(used))
      ensures old(Valid()) && n <= old(used) ==> Contents() == old(Contents())[n..]
    {
      var next := (readPos + n) % buf.Length;
      SlotIsRemainder(readPos, n, buf.Length);
      readPos, used := next, SizeMinus(used, n);
      assert old(Valid()) && n <= old(used) ==>
          forall i :: 0 <= i < used ==> Slot(readPos, i, buf.Length) == Slot(old(readPos), n + i, buf.Length);
    }

    predicate HasSpace(n: nat)
      reads this
    {
      used + n <= buf.Length
    }

    method Reset()
      requires Valid()
      modifies this
      ensures Valid() && Contents() == [] && readPos == 0 && used == 0
    {
      readPos, used := 0, 0;
    }
  }
}
