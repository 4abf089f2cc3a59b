/**
 Fixed-width integers (Shared/Coding.cpp) together with htonl, htons and their inverses on a
 little-endian host. The encoder writes the least significant byte first, the swap reverses
 the bytes, and what reaches the wire is network order.
 */
module Coding {
  import opened Bytes

  type u32 = x: int | 0 <= x < 0x1_0000_0000

  /** Network order: the number stored most significant byte first at `s[at..at + 4]`. */
  function GetU32(s: seq<byte>, at: nat): u32
    requires at + 4 <= |s|
  {
    0x100_0000 * s[at] as int + 0x1_0000 * s[at + 1] as int + 0x100 * s[at + 2] as int + s[at + 3] as int
  }

  /** The four bytes of `v` in network order. */
  ghost function PutU32(v: u32): (s: seq<byte>)
    ensures |s| == 4 && GetU32(s, 0) == v
  {
    assert exists s: seq<byte> :: |s| == 4 && GetU32(s, 0) == v by { OctetsExist(v); }
    var s: seq<byte> :| |s| == 4 && GetU32(s, 0) == v;
    s
  }

  lemma OctetsExist(v: u32)
    ensures exists s: seq<byte> :: |s| == 4 && GetU32(s, 0) == v
  {
    var s: seq<byte> := [v / 0x100 / 0x100 / 0x100, v / 0x100 / 0x100 % 0x100, v / 0x100 % 0x100, v % 0x100];
    assert GetU32(s, 0) == v;
  }

  /** EncodeFixed32: the least significant byte first; each shift by eight is a division. */
  function EncodeFixed32(v: u32): (s: seq<byte>)
    ensures |s| == 4
  {
    [v % 0x100, v / 0x100 % 0x100, v / 0x100 / 0x100 % 0x100, v / 0x100 / 0x100 / 0x100]
  }

  function DecodeFixed32(s: seq<byte>): u32
    requires |s| == 4
  {
    s[0] as int + 0x100 * s[1] as int + 0x1_0000 * s[2] as int + 0x100_0000 * s[3] as int
  }

  /** htonl and ntohl on a little-endian host: the bytes in the opposite order. */
  function Swap32(v: u32): u32 {
    var s := EncodeFixed32(v);
    GetU32(s, 0)
  }

  function EncodeFixed16(v: u16): (s: seq<byte>)
    ensures |s| == 2
  {
    [v % 0x100, v / 0x100]
  }

  function DecodeFixed16(s: seq<byte>): u16
    requires |s| == 2
  {
    s[0] as int + 0x100 * s[1] as int
  }

  function Swap16(v: u16): u16 {
    0x100 * (v % 0x100) + v / 0x100
  }

  lemma DecodeEncodeFixed32(v: u32)
    ensures DecodeFixed32(EncodeFixed32(v)) == v
  {
  }

  /** EncodeFixed32 of a sum of bytes is those bytes. */
  lemma EncodeDecodeFixed32(s: seq<byte>)
    requires |s| == 4
    ensures EncodeFixed32(DecodeFixed32(s)) == s
  {
    var v := DecodeFixed32(s);
    assert v % 0x100 == s[0] && v / 0x100 == s[1] as int + 0x100 * s[2] as int + 0x1_0000 * s[3] as int;
    var w := v / 0x100;
    assert w % 0x100 == s[1] && w / 0x100 == s[2] as int + 0x100 * s[3] as int;
    var x := w / 0x100;
    assert x % 0x100 == s[2] && x / 0x100 == s[3];
  }

  /** EncodeFixed32 writes the least significant byte first, and htonl turns the four bytes around. */
  lemma SwapReverses(v: u32)
    ensures var s, t := EncodeFixed32(v), EncodeFixed32(Swap32(v));
            && v == s[0] as int + 0x100 * s[1] as int + 0x1_0000 * s[2] as int + 0x100_0000 * s[3] as int
            && t == [s[3], s[2], s[1], s[0]]
  {
    var s := EncodeFixed32(v);
    DecodeEncodeFixed32(v);
    EncodeDecodeFixed32([s[3], s[2], s[1], s[0]]);
  }

  /** Four bytes are determined by the number they denote. */
  lemma OctetsUnique(s: seq<byte>, t: seq<byte>)
    requires |s| == |t| == 4 && GetU32(s, 0) == GetU32(t, 0)
    ensures s == t
  {
    var u, v := [s[3], s[2], s[1], s[0]], [t[3], t[2], t[1], t[0]];
    EncodeDecodeFixed32(u);
    EncodeDecodeFixed32(v);
    assert u == v;
  }

  /** EncodeFixed32 after htonl writes network order. */
  lemma HtonlThenEncode(v: u32)
    ensures EncodeFixed32(Swap32(v)) == PutU32(v)
  {
    var t := EncodeFixed32(v);
    var r := [t[3], t[2], t[1], t[0]];
    EncodeDecodeFixed32(r);
    DecodeEncodeFixed32(v);
    assert Swap32(v) == GetU32(t, 0) == DecodeFixed32(r);
    assert GetU32(r, 0) == DecodeFixed32(t) == v;
    OctetsUnique(r, PutU32(v));
  }

  /** ntohl after DecodeFixed32 reads network order. */
  lemma DecodeThenNtohl(s: seq<byte>)
    requires |s| == 4
    ensures Swap32(DecodeFixed32(s)) == GetU32(s, 0)
  {
    EncodeDecodeFixed32(s);
  }

  /** The same for sixteen bits. */
  lemma HtonsThenEncode(v: u16)
    ensures EncodeFixed16(Swap16(v)) == PutU16(v)
  {
    assert (0x100 * (v % 0x100) + v / 0x100) / 0x100 == v % 0x100;
  }

  lemma DecodeThenNtohs(s: seq<byte>)
    requires |s| == 2
    ensures Swap16(DecodeFixed16(s)) == GetU16(s, 0)
  {
  }
}
