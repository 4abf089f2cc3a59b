/**
 The first message of the V protocol (Protocol/VProtocal/VRequest.cpp) over the fixed-width
 integers of Shared/Coding.cpp:

   "v protocol", version, length of all this, then user name, password and address, each
   preceded by its length, then the port.
 */
module VRequests {
  import opened Bytes
  import opened Coding

  datatype Request = Request(version: byte, userName: seq<byte>, password: seq<byte>, address: seq<byte>, port: u16)

  const IDENTIFIER: seq<byte> := [0x76, 0x20, 0x70, 0x72, 0x6F, 0x74, 0x6F, 0x63, 0x6F, 0x6C]  // "v protocol"
  const HEADER := 15

  function TotalLength(r: Request): nat {
    29 + |r.userName| + |r.password| + |r.address|
  }

  /** The lengths fit the C `int` they are read back into. */
  predicate WellFormed(r: Request) {
    TotalLength(r) < 0x8000_0000
  }

  /** A length is stored modulo 2^32. */
  function Length(n: nat): (len: u32)
    ensures n < 0x1_0000_0000 ==> len == n
  {
    n % 0x1_0000_0000
  }

  ghost function Str(s: seq<byte>): seq<byte> {
    PutU32(Length(|s|)) + s
  }

  ghost function Header(r: Request): seq<byte> {
    IDENTIFIER + [r.version] + PutU32(Length(TotalLength(r)))
  }

  /** What stream() appends. */
  ghost function Encode(r: Request): (s: seq<byte>)
    ensures |s| == TotalLength(r)
  {
    Header(r) + Str(r.userName) + Str(r.password) + Str(r.address) + PutU16(r.port)
  }

  /**
   A length-prefixed string at `at`, and the position after it; `None` if the walk leaves the buffer,
   or if the length is negative as the C `int` it becomes.
   */
  function ReadStr(buf: seq<byte>, at: nat): Option<(seq<byte>, nat)> {
    if at + 4 > |buf| || GetU32(buf, at) >= 0x8000_0000 || at + 4 + GetU32(buf, at) > |buf| then None
    else
      var end := at + 4 + GetU32(buf, at);
      Some((buf[at + 4..end], end))
  }

  /** The three strings of a request and the position of the port behind them. */
  datatype Strings = Strings(userName: seq<byte>, password: seq<byte>, address: seq<byte>, end: nat)

  function ReadStrings(buf: seq<byte>, at: nat): Option<Strings> {
    var user := ReadStr(buf, at);
    if user.None? then None else
      var password := ReadStr(buf, user.value.1);
      if password.None? then None else
        var address := ReadStr(buf, password.value.1);
        if address.None? then None
        else Some(Strings(user.value.0, password.value.0, address.value.0, address.value.1))
  }

  /** `OutOfBounds`: inner lengths that point outside the buffer, which unstream() does not check. */
  datatype Outcome = Rejected | Accepted(request: Request, packed: seq<byte>) | OutOfBounds

  /** unstream(). */
  function Decode(buf: seq<byte>): Outcome {
    if |buf| < HEADER || GetU32(buf, 11) > |buf| then Rejected else
      var extra, strings := |buf| - GetU32(buf, 11), ReadStrings(buf, HEADER);
      if strings.None? || strings.value.end + 2 + extra > |buf| then OutOfBounds else
        var Strings(user, password, address, end) := strings.value;
        Accepted(Request(buf[10], user, password, address, GetU16(buf, end)), buf[end + 2..end + 2 + extra])
  }

  /** A string is read back from where it was written, and the walk goes on behind it. */
  lemma ReadStrAt(buf: seq<byte>, at: nat, s: seq<byte>, rest: seq<byte>)
    requires |s| < 0x8000_0000 && at <= |buf| && buf[at..] == Str(s) + rest
    ensures ReadStr(buf, at) == Some((s, at + 4 + |s|))
    ensures buf[at + 4 + |s|..] == rest
  {
    var len := PutU32(Length(|s|));
    assert buf[at] == buf[at..][0] == len[0] && buf[at + 1] == buf[at..][1] == len[1];
    assert buf[at + 2] == buf[at..][2] == len[2] && buf[at + 3] == buf[at..][3] == len[3];
    assert buf[at + 4..at + 4 + |s|] == buf[at..][4..4 + |s|] == s;
    assert buf[at + 4 + |s|..] == buf[at..][4 + |s|..] == rest;
  }

  lemma Reassociate(h: seq<byte>, u: seq<byte>, p: seq<byte>, a: seq<byte>, q: seq<byte>, e: seq<byte>)
    ensures (h + u + p + a + q + e)[|h|..] == u + (p + (a + (q + e)))
  {
  }

  /** The header of an encoded request, whole or cut short, announces the whole length. */
  lemma HeaderAnnounces(r: Request, buf: seq<byte>)
    requires WellFormed(r) && |buf| >= HEADER && (buf <= Encode(r) || Encode(r) <= buf)
    ensures GetU32(buf, 11) == |Encode(r)|
    ensures buf[10] == r.version && buf[..10] == IDENTIFIER
  {
    var whole := Encode(r);
    assert whole[11..15] == PutU32(Length(TotalLength(r)));
    assert buf[..HEADER] == whole[..HEADER];
    assert buf[11..15] == buf[..HEADER][11..15] && whole[11..15] == whole[..HEADER][11..15];
  }

  lemma ReadStringsAt(buf: seq<byte>, r: Request, rest: seq<byte>)
    requires WellFormed(r) && HEADER <= |buf|
    requires buf[HEADER..] == Str(r.userName) + (Str(r.password) + (Str(r.address) + rest))
    ensures var end := TotalLength(r) - 2;
            ReadStrings(buf, HEADER) == Some(Strings(r.userName, r.password, r.address, end)) && buf[end..] == rest
  {
    var u, p, a := r.userName, r.password, r.address;
    var second := HEADER + 4 + |u|;
    var third := second + 4 + |p|;
    ReadStrAt(buf, HEADER, u, Str(p) + (Str(a) + rest));
    ReadStrAt(buf, second, p, Str(a) + rest);
    ReadStrAt(buf, third, a, rest);
    Together(buf, HEADER, (u, second), (p, third), (a, third + 4 + |a|));
  }

  lemma Together(buf: seq<byte>, at: nat, user: (seq<byte>, nat), password: (seq<byte>, nat), address: (seq<byte>, nat))
    requires ReadStr(buf, at) == Some(user) && ReadStr(buf, user.1) == Some(password)
             && ReadStr(buf, password.1) == Some(address)
    ensures ReadStrings(buf, at) == Some(Strings(user.0, password.0, address.0, address.1))
  {
  }

  /** Every field comes back, and whatever arrived with the request is kept as the first payload. */
  lemma DecodeEncode(r: Request, extra: seq<byte>)
    requires WellFormed(r)
    ensures Decode(Encode(r) + extra) == Accepted(r, extra)
  {
    var buf := Encode(r) + extra;
    var port := PutU16(r.port);
    HeaderAnnounces(r, buf);
    Reassociate(Header(r), Str(r.userName), Str(r.password), Str(r.address), port, extra);
    ReadStringsAt(buf, r, port + extra);
    var end := TotalLength(r) - 2;
    assert GetU16(buf, end) == GetU16(buf[end..], 0) == GetU16(port, 0);
    assert buf[end + 2..] == buf[end..][2..] == extra;
  }

  /**
   The layout of a request: the identifier, the version, the whole length, then user name, password and
   address in this order, each behind its length, and the port; all numbers in network order.
   */
  lemma Layout(r: Request)
    requires WellFormed(r)
    ensures var s, password := Encode(r), 19 + |r.userName|;
            var address := password + 4 + |r.password|;
            && s[..10] == [0x76, 0x20, 0x70, 0x72, 0x6F, 0x74, 0x6F, 0x63, 0x6F, 0x6C] && s[10] == r.version
            && GetU32(s, 11) == |s| == address + 4 + |r.address| + 2
            && GetU32(s, 15) == |r.userName| && s[19..password] == r.userName
            && GetU32(s, password) == |r.password| && s[password + 4..address] == r.password
            && GetU32(s, address) == |r.address| && s[address + 4..|s| - 2] == r.address
            && GetU16(s, |s| - 2) == r.port
  {
    var s := Encode(r);
    HeaderAnnounces(r, s);
    Reassociate(Header(r), Str(r.userName), Str(r.password), Str(r.address), PutU16(r.port), []);
    assert s + [] == s && PutU16(r.port) + [] == PutU16(r.port);
    StringsAt(s, r, PutU16(r.port));
  }

  lemma StringsAt(s: seq<byte>, r: Request, port: seq<byte>)
    requires WellFormed(r) && HEADER <= |s| && |port| == 2
    requires s[HEADER..] == Str(r.userName) + (Str(r.password) + (Str(r.address) + port))
    ensures var password := 19 + |r.userName|;
            var address := password + 4 + |r.password|;
            && |s| == address + 4 + |r.address| + 2
            && GetU32(s, 15) == |r.userName| && s[19..password] == r.userName
            && GetU32(s, password) == |r.password| && s[password + 4..address] == r.password
            && GetU32(s, address) == |r.address| && s[address + 4..|s| - 2] == r.address
            && GetU16(s, |s| - 2) == GetU16(port, 0)
  {
    var second := HEADER + 4 + |r.userName|;
    var third := second + 4 + |r.password|;
    ReadStringsAt(s, r, port);
    StringsThere(s, Strings(r.userName, r.password, r.address, TotalLength(r) - 2));
    StrParts(s, HEADER, r.userName);
    StrParts(s, second, r.password);
    StrParts(s, third, r.address);
    PortAt(s, port);
  }

  lemma PortAt(s: seq<byte>, port: seq<byte>)
    requires |s| >= 2 == |port| && s[|s| - 2..] == port
    ensures GetU16(s, |s| - 2) == GetU16(port, 0)
  {
    assert s[|s| - 2] == port[0] && s[|s| - 1] == port[1];
  }

  lemma StrParts(buf: seq<byte>, at: nat, s: seq<byte>)
    requires |s| < 0x8000_0000 && at + 4 + |s| <= |buf| && buf[at..at + 4 + |s|] == Str(s)
    ensures GetU32(buf, at) == |s| && buf[at + 4..at + 4 + |s|] == s
  {
    var there, len := buf[at..at + 4 + |s|], PutU32(Length(|s|));
    assert there[0] == len[0] && there[1] == len[1] && there[2] == len[2] && there[3] == len[3];
    assert buf[at + 4..at + 4 + |s|] == there[4..] == s;
  }

  /** A request cut short is never accepted: its own header gives it away. */
  lemma StrictPrefixRejected(r: Request, n: nat)
    requires WellFormed(r) && n < |Encode(r)|
    ensures Decode(Encode(r)[..n]) == Rejected
  {
    if n >= HEADER {
      HeaderAnnounces(r, Encode(r)[..n]);
    }
  }

  /** unstream() returns false exactly for a buffer that is shorter than the header or than the header says. */
  lemma RejectedIff(buf: seq<byte>)
    ensures Decode(buf) == Rejected <==> |buf| < HEADER || GetU32(buf, 11) > |buf|
  {
  }

  /** Four bytes of a buffer are the number they denote, in network order. */
  lemma OctetsAt(buf: seq<byte>, at: nat)
    requires at + 4 <= |buf|
    ensures PutU32(GetU32(buf, at)) == buf[at..at + 4]
  {
    OctetsUnique(PutU32(GetU32(buf, at)), buf[at..at + 4]);
  }

  /** A string that was read stands there as it would have been written. */
  lemma StrThere(buf: seq<byte>, at: nat)
    requires ReadStr(buf, at).Some?
    ensures var (s, end) := ReadStr(buf, at).value;
            |s| < 0x8000_0000 && at <= end <= |buf| && buf[at..end] == Str(s)
  {
    var (s, end) := ReadStr(buf, at).value;
    OctetsAt(buf, at);
    assert buf[at..end] == buf[at..at + 4] + buf[at + 4..end];
  }

  /**
   The other way round: an accepted buffer with the identifier in front, whose header announces the length of
   the request read from it, begins with the encoding of that request, and the rest is the payload.
   */
  lemma AcceptedIsEncoded(buf: seq<byte>)
    requires IsVProtocol(buf) && Decode(buf).Accepted?
    ensures var r := Decode(buf).request;
            && |r.userName| < 0x8000_0000 && |r.password| < 0x8000_0000 && |r.address| < 0x8000_0000
            && (GetU32(buf, 11) == TotalLength(r) ==> buf == Encode(r) + Decode(buf).packed)
  {
    var r, strings := Decode(buf).request, ReadStrings(buf, HEADER).value;
    StringsThere(buf, strings);
    if GetU32(buf, 11) == TotalLength(r) {
      HeaderThere(buf, r);
      Rebuilt(buf, r, strings);
    }
  }

  lemma Rebuilt(buf: seq<byte>, r: Request, strings: Strings)
    requires strings == Strings(r.userName, r.password, r.address, TotalLength(r) - 2)
    requires HEADER <= |buf| && buf[..HEADER] == Header(r) && ReadStrings(buf, HEADER) == Some(strings)
    requires strings.end + 2 <= |buf| && GetU16(buf, strings.end) == r.port
    ensures buf == Encode(r) + buf[strings.end + 2..]
  {
    StringsThere(buf, strings);
    PutGetU16(buf, strings.end);
    Pieces(buf, Header(r), Str(r.userName), Str(r.password), Str(r.address), PutU16(r.port));
  }

  lemma StringsThere(buf: seq<byte>, strings: Strings)
    requires ReadStrings(buf, HEADER) == Some(strings)
    ensures var second := HEADER + 4 + |strings.userName|;
            var third := second + 4 + |strings.password|;
            && third + 4 + |strings.address| == strings.end <= |buf|
            && |strings.userName| < 0x8000_0000 && |strings.password| < 0x8000_0000 && |strings.address| < 0x8000_0000
            && buf[HEADER..second] == Str(strings.userName) && buf[second..third] == Str(strings.password)
            && buf[third..strings.end] == Str(strings.address)
  {
    var second := ReadStr(buf, HEADER).value.1;
    var third := ReadStr(buf, second).value.1;
    StrThere(buf, HEADER);
    StrThere(buf, second);
    StrThere(buf, third);
  }

  lemma HeaderThere(buf: seq<byte>, r: Request)
    requires IsVProtocol(buf) && |buf| >= HEADER && buf[10] == r.version && GetU32(buf, 11) == TotalLength(r)
    ensures buf[..HEADER] == Header(r)
  {
    OctetsAt(buf, 11);
    assert buf[..HEADER] == buf[..10] + [buf[10]] + buf[11..15];
  }

  /** Pieces that stand one behind the other from the beginning of a buffer. */
  lemma Pieces(buf: seq<byte>, h: seq<byte>, u: seq<byte>, p: seq<byte>, a: seq<byte>, q: seq<byte>)
    requires var second, third, end := |h| + |u|, |h| + |u| + |p|, |h| + |u| + |p| + |a|;
             && end + |q| <= |buf| && buf[..|h|] == h && buf[|h|..second] == u && buf[second..third] == p
             && buf[third..end] == a && buf[end..end + |q|] == q
    ensures buf == h + u + p + a + q + buf[|h| + |u| + |p| + |a| + |q|..]
  {
    var second, third, end := |h| + |u|, |h| + |u| + |p|, |h| + |u| + |p| + |a|;
    assert buf[..second] == h + u;
    assert buf[..third] == h + u + p;
    assert buf[..end] == h + u + p + a;
    assert buf[..end + |q|] == h + u + p + a + q;
  }

  /** is_v_protocol on a zero-filled buffer that received `chunk`. */
  predicate IsVProtocol(chunk: seq<byte>) {
    |chunk| >= 10 && chunk[..10] == IDENTIFIER
  }

  /** The object: stream() appends to a buffer, unstream() walks a pointer and assigns fields. */
  class VRequest {
    var version: byte
    var headerLen: u32
    var userName: seq<byte>
    var password: seq<byte>
    var address: seq<byte>
    var port: u16
    var packedBuff: seq<byte>

    function Fields(): Request
      reads this
    {
      Request(version, userName, password, address, port)
    }

    method Stream(buf: seq<byte>) returns (out: seq<byte>)
      modifies this`headerLen
      ensures headerLen == Length(|Encode(Fields())|)
      ensures out == buf + Encode(Fields())
    {
      headerLen := Length(5 + 10 + |password| + 4 + |userName| + 4 + |address| + 4 + 2);
      out := buf + IDENTIFIER;
      out := out + [version];
      out := AppendU32(out, headerLen);
      ghost var written := Header(Fields());
      out, written := AppendStr(buf, written, out, userName), written + Str(userName);
      out, written := AppendStr(buf, written, out, password), written + Str(password);
      out, written := AppendStr(buf, written, out, address), written + Str(address);
      HtonsThenEncode(port);
      out := out + EncodeFixed16(Swap16(port));
    }

    static function AppendStr(ghost buf: seq<byte>, ghost written: seq<byte>, dst: seq<byte>, s: seq<byte>)
      : (out: seq<byte>)
      requires dst == buf + written
      ensures out == buf + (written + Str(s))
    {
      AppendU32(dst, Length(|s|)) + s
    }

    static function AppendU32(dst: seq<byte>, v: u32): (out: seq<byte>)
      ensures out == dst + PutU32(v)
    {
      HtonlThenEncode(v);
      dst + EncodeFixed32(Swap32(v))
    }

    static method NextU32(buf: seq<byte>, ptr: nat) returns (v: u32)
      requires ptr + 4 <= |buf|
      ensures v == GetU32(buf, ptr)
    {
      DecodeThenNtohl(buf[ptr..ptr + 4]);
      v := Swap32(DecodeFixed32(buf[ptr..ptr + 4]));
    }

    static method NextU16(buf: seq<byte>, ptr: nat) returns (v: u16)
      requires ptr + 2 <= |buf|
      ensures v == GetU16(buf, ptr)
    {
      DecodeThenNtohs(buf[ptr..ptr + 2]);
      v := Swap16(DecodeFixed16(buf[ptr..ptr + 2]));
    }

    /** The walk: each field moves the pointer past what it read. */
    method Unstream(buf: seq<byte>) returns (r: Outcome)
      modifies this
      ensures r == Decode(buf)
      ensures r.Accepted? ==> Fields() == r.request
      ensures packedBuff == if r.Accepted? && r.packed != [] then r.packed else old(packedBuff)
    {
      if |buf| < HEADER { return Rejected; }
      var ptr := 10;
      version := buf[ptr];
      ptr := ptr + 1;
      headerLen := NextU32(buf, ptr);
      if headerLen > |buf| { return Rejected; }
      ptr := ptr + 4;
      var ok;
      ok, ptr := NextStrings(buf, ptr);
      if !ok { return OutOfBounds; }
      r := NextPort(buf, ptr);
    }

    /** The rest of the walk: the port, and whatever follows the announced length. */
    method NextPort(buf: seq<byte>, ptr: nat) returns (r: Outcome)
      requires |buf| >= HEADER && version == buf[10] && headerLen == GetU32(buf, 11) <= |buf|
      requires ReadStrings(buf, HEADER) == Some(Strings(userName, password, address, ptr))
      modifies this`port, this`packedBuff
      ensures r == Decode(buf)
      ensures r.Accepted? ==> Fields() == r.request
      ensures packedBuff == if r.Accepted? && r.packed != [] then r.packed else old(packedBuff)
    {
      if ptr + 2 > |buf| { return OutOfBounds; }
      port := NextU16(buf, ptr);
      if |buf| > headerLen {
        if ptr + 2 + (|buf| - headerLen) > |buf| { return OutOfBounds; }
        packedBuff := buf[ptr + 2..ptr + 2 + (|buf| - headerLen)];
        return Accepted(Fields(), packedBuff);
      }
      return Accepted(Fields(), []);
    }

    method NextStrings(buf: seq<byte>, start: nat) returns (ok: bool, ptr: nat)
      modifies this`userName, this`password, this`address
      ensures ok <==> ReadStrings(buf, start).Some?
      ensures ok ==> ReadStrings(buf, start).value == Strings(userName, password, address, ptr)
    {
      ok, userName, ptr := NextStr(buf, start, userName);
      if !ok { return; }
      ok, password, ptr := NextStr(buf, ptr, password);
      if !ok { return; }
      ok, address, ptr := NextStr(buf, ptr, address);
    }

    static method NextStr(buf: seq<byte>, ptr: nat, unset: seq<byte>) returns (ok: bool, s: seq<byte>, next: nat)
      ensures ok <==> ReadStr(buf, ptr).Some?
      ensures ok ==> ReadStr(buf, ptr).value == (s, next)
    {
      if ptr + 4 > |buf| { return false, unset, ptr; }
      var len := NextU32(buf, ptr);
      if len >= 0x8000_0000 || ptr + 4 + len > |buf| { return false, unset, ptr; }
      return true, buf[ptr + 4..ptr + 4 + len], ptr + 4 + len;
    }
  }
}
