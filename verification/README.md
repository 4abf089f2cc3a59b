# Overplus: a verified model of the proxy's data paths

Overplus is an event-driven proxy. A local client accepts SOCKS5, carries TCP streams to a server
inside TLS and UDP datagrams inside one shared DTLS channel; the server connects to the targets.
Each session lives on one `io_context` that one thread runs, and the DNS cache is behind a mutex, so
a run is a sequence of completion handlers: a read returned `n` bytes, a send took `k` bytes, a
handshake attempt returned, a timer fired, something failed. This project models those handlers,
lets the environment choose every size, order and failure, and proves what holds in every run.

`dafny verify dfyconfig.toml` checks the whole project (Dafny 4.11).

## What is modelled

| files | what |
|---|---|
| `Bytes.dfy`, `Coding.dfy` | bytes, network-order integers, decimal text, `host:port` keys |
| `VRequest.dfy` | the first message of the V protocol |
| `AddressText.dfy`, `TrojanCodec.dfy` | Trojan addresses, their text, UDP packets and requests |
| `UdpRequest.dfy`, `UdpFrame.dfy` | the SOCKS5 UDP header (section 7 of RFC 1928) and the tunnel's frame |
| `SessionBuffer.dfy`, `Relay.dfy`, `ServerSession.dfy` | the ring buffer, one relay direction as a step system, the session object |
| `StreamTunnel.dfy` | application, client, TLS stream, server and target together, both directions |
| `Reassembly.dfy`, `TrojanUdp.dfy` | UDP packets cut out of a byte stream |
| `DtlsServerSession.dfy`, `DtlsListener.dfy` | the server's end of the DTLS tunnel and its table of sessions |
| `UdpRelay.dfy`, `ClientUdp.dfy`, `ClientObjects.dfy` | the client's relays, channel and registry, as a step system and as objects |
| `DatagramTunnel.dfy`, `RoundTrip.dfy` | both ends of the UDP tunnel over a network that loses, reorders and repeats: what never happens, and what does |
| `DnsCache.dfy` | the DNS cache against its history |

Objects the source updates in place are classes. Their methods are proved to take exactly the step
of a step system over values (`View() == Step(old(View()), event)`), and the whole-run theorems are
about that step system. Parsers are methods that advance a pointer, proved equal to a function on
byte sequences. Builders of byte strings without branching are functions.

Sockets, OpenSSL, the resolver and the clock are environment: arguments and events. The password
digest is an arbitrary predicate on the password line. Bytes handed to a socket are kept in logs.

## Where the code departs from the obvious statement

- The request must be in the server's first read as a whole: a cut one ends the session, and one longer
  than the read buffer can never be served (`StreamTunnel.FirstReadHoldsRequest`, `StreamTunnel.CanArriveIff`).
- The domain arm of the frame parser counts the length byte twice. A frame to a name loses the first
  byte of its payload, and an empty payload makes `std::string::assign` throw
  (`UdpFrame.ReadGenerated`, `UdpRelays.NamedDatagramCarried`). `UdpFrame.RoundTripIff` is the exact condition.
- The tunnel's IPv6 type is 0x06, that of SOCKS5 is 0x04: an application can read a reply back
  exactly if it comes from an IPv4 target (`UdpRelays.ReplyReadableIff`).
- The authentication buffer is cleared before every record, so the password line must arrive in one
  record (`DtlsServer.LinesAreNotJoined`), and a frame that overtakes it is taken for a password line,
  because the magic number contains a newline (`DtlsServer.FrameReadInAuth`).
- Session ids wrap to 0 at the 65536th session. That session is never unregistered
  (`ClientUdp.RegistryExactIff`), and it is handed every datagram from a target that nobody has sent
  to, because the server tags those with 0 (`DatagramTunnel.SolicitedIff`).
- Ids repeat after that. A live relay whose entry in the registry was taken over before the channel
  got ready is not flushed: its queue waits for good while its later frames go out
  (`ClientUdp.AllSubmittedIff`, `ClientUdp.OvertakenForGood`).
- The table of askers is keyed by address bytes and port without the address type. A later request for
  a host whose name is spelled with the bytes of an address takes over the answers from that address
  (`UdpRelays.AnswerGoesToAsker`, `UdpRelays.NameTakesAnswer`). A request by name is remembered under the
  name, so the answer, which comes from an address, goes to whoever spoke last (`UdpRelays.AnswerGoesTo`).
- An empty datagram to a name ends the server's event loop; nothing ends the client's
  (`DatagramTunnel.ServerThrowsOnlyOnEmpty`, `DatagramTunnel.ClientNeverThrows`).
- A send that completed before `destroy` but is handled after it consumes from an emptied ring
  (`ServerSessions.Session.OnSent`).
- A password line that is itself two bytes and a frame is taken for a datagram if a frame with the
  same first two bytes overtakes it (`DatagramTunnel.SoundIffHarmless`). Reordering is enough; no
  record has to be read twice.
- `docs/UDP_PROXY_DESIGN.md` describes the authentication as a length byte and the password, and
  `docs/UDP_PROXY_FLOW.md` says session ids never repeat; the code sends the password and a newline
  and has a 16-bit counter. `docs/PROJECT_STATUS.md` gives the DNS time to live as 300 seconds, the
  code starts with 600. The model follows the code.

## Model

| member | source | states |
|---|---|---|
| `Bytes.HostPortInjective` | Server/Session.cpp:115 | the text `host:port` determines host and port, even if the host contains colons |
| `Coding.HtonlThenEncode` | Shared/Coding.cpp:18-26 | `EncodeFixed32` after `htonl` writes the most significant byte first |
| `Coding.DecodeThenNtohl` | Shared/Coding.cpp:47-53 | `ntohl` after `DecodeFixed32` reads it back |
| `Coding.HtonsThenEncode` | Shared/Coding.cpp:10-16 | the same for sixteen bits |
| `Coding.DecodeThenNtohs` | Shared/Coding.cpp:42-45 | and back |
| `Coding.EncodeDecodeFixed32` | Shared/Coding.cpp:18-53 | encoding inverts decoding on every four bytes |
| `Coding.SwapReverses` | Shared/Coding.cpp:18-26 | the encoder puts the least significant byte first, and `htonl` on a little-endian host turns the four bytes around |
| `VRequests.VRequest.Stream` | Protocol/VProtocal/VRequest.cpp:15-34 | appends exactly the encoding, for requests of any size, and `header.len` is its length modulo 2^32 |
| `VRequests.VRequest.Unstream` | Protocol/VProtocal/VRequest.cpp:36-70 | the pointer walk decodes as specified; an accepted request is in the fields, and what follows it in packed_buff, which otherwise keeps its old value |
| `VRequests.HeaderAnnounces` | Protocol/VProtocal/VRequest.cpp:44-51 | any buffer that begins an encoded request, or that it begins, announces the request's full length in its header |
| `VRequests.DecodeEncode` | Protocol/VProtocal/VRequest.cpp:36-70 | decoding an encoded request (shorter than 2^31 bytes) followed by any bytes gives every field back and exactly those bytes as payload |
| `VRequests.StrictPrefixRejected` | Protocol/VProtocal/VRequest.cpp:37-51 | every strict prefix of an encoded request is rejected |
| `VRequests.RejectedIff` | Protocol/VProtocal/VRequest.cpp:37-51 | a buffer is rejected if and only if it is shorter than the header, or than the header says |
| `VRequests.Layout` | Protocol/VProtocal/VRequest.cpp:15-34 | where each part of a request stands: identifier, version, whole length, then user name, password and address in this order behind their lengths, and the port |
| `VRequests.AcceptedIsEncoded` | Protocol/VProtocal/VRequest.cpp:36-70 | the other way round: an accepted buffer whose header announces the length of what was read from it is the encoding of that request followed by the payload |
| `SessionBuffers.SessionBuffer.constructor` | Server/Session.h:39 | a new buffer holds the empty queue |
| `SessionBuffers.SessionBuffer.Prepare` | Server/Session.h:41-49 | the region continues the queue, overlaps no held byte, is maximal, and is empty only if nothing was asked for or the buffer is full |
| `SessionBuffers.SessionBuffer.Commit` | Server/Session.h:51 | the queue grows by the bytes in the prepared region |
| `SessionBuffers.SessionBuffer.Peek` | Server/Session.h:53-56 | the region is inside the buffer whatever the count says, is the whole queue or reaches the end of the buffer, is empty only if the count is zero, and holds the front of the queue |
| `SessionBuffers.SessionBuffer.Consume` | Server/Session.h:58-61 | the count drops modulo 2^64 and the read position moves on around the buffer; a valid buffer loses the front of its queue, and stays valid if and only if no more than it held was taken |
| `SessionBuffers.SessionBuffer.Reset` | Server/Session.h:68 | the queue is empty and begins at the start of the buffer |
| `SessionBuffers.HeldBytesStay` | Server/Session.cpp:429-432 | bytes copied into a prepared region change nothing that is queued or being sent |
| `SessionBuffers.WrittenBytesFollow` | Server/Session.cpp:429-432 | bytes copied into a prepared region are what the queue grows by |
| `Relay.NothingDropped` | Server/Session.cpp:425-435 | between handlers a completed read always fits: the branch that drops bytes is not taken |
| `Relay.TakesWhatFits` | Server/Session.cpp:425-435 | if it did not fit, the ring would be filled up with the beginning of the data |
| `Relay.StepKeepsInv` | Server/Session.cpp:358-502 | every completion handler, at any size, keeps the invariant of the next row |
| `Relay.EveryRunKeepsInv` | Server/Session.cpp:358-502 | in every reachable state received = delivered ++ queued; exactly one of read outstanding and paused; sending, send outstanding and ring non-empty coincide; an outstanding read has room for a full buffer |
| `Relay.DeliveredIsPrefix` | Server/Session.cpp:397-471 | for every run, what was delivered is a prefix of what was read, and the difference is exactly the ring and at most its capacity |
| `Relay.SomethingOutstanding` | Server/Session.cpp:358-395 | in every run at most one read is outstanding, and some operation always is: no deadlock |
| `Relay.PausesIff` | Server/Session.cpp:397-417 | a completed read pauses its direction if and only if another full buffer would not fit |
| `Relay.ResumesIff` | Server/Session.cpp:446-453 | a completed send makes a paused direction read again if and only if it empties the ring |
| `Relay.PausedResumes` | Server/Session.cpp:446-453 | a paused direction reads again after at most as many send completions as bytes queued |
| `Relay.SendsDrain` | Server/Session.cpp:444-502 | with reads withheld, at most as many progressing sends can complete as bytes were queued, and once none is outstanding everything read has been delivered |
| `ServerSessions.Direction.CopyIn` | Server/Session.cpp:425-435 | the queue grows by what fits, at most two copies are made, bytes are dropped if and only if they do not fit |
| `ServerSessions.Direction.StartSend` | Server/Session.cpp:444-458 | the step of the step system on a valid ring; on any ring a send is started exactly if the count is not zero, of the whole queue or of all up to the end of the buffer |
| `ServerSessions.Direction.OfferedIsFront` | Server/Session.cpp:456-458 | the region an outstanding send holds is the front of the queue, whatever was copied in since |
| `ServerSessions.Direction.EnqueueWrite` | Server/Session.cpp:420-441 | all of the data is queued in at most two copies, and the bytes being sent stay put |
| `ServerSessions.Direction.ReadCompleted` | Server/Session.cpp:397-417 | the handler takes the step of the step system, loses nothing, and keeps the invariant |
| `ServerSessions.Direction.SendCompleted` | Server/Session.cpp:458-470 | the destination gets the right bytes although they are read from the live ring at completion; the invariant is kept; the next send is offered all that lies in one piece, and that is everything if the send before it was taken whole and nothing was copied in meanwhile |
| `ServerSessions.Direction.TwoFullSends` | Server/Session.cpp:444-471 | two consecutive sends that are taken whole, with nothing copied in between, empty the ring, and the destination has got the whole queue |
| `ServerSessions.Direction.SendCompletedLate` | Server/Session.cpp:459-470 | after destroy, in any state of the ring: an idle direction stays valid if and only if k is 0; a send is started again exactly if the count is not zero, inside the buffer; nothing counts as delivered |
| `ServerSessions.Session.OnRead` | Server/Session.cpp:362-394 | one direction takes its step and the other is untouched; an error destroys; nothing happens after destroy, whatever completions came late |
| `ServerSessions.Session.OnSent` | Server/Session.cpp:459-501 | a send completion in any state, also after earlier late ones: while forwarding, the step of the step system and the other direction untouched; an error destroys; a valid session stays valid unless a successful completion of at least one byte is handled after destroy; the rings never leave their buffers |
| `ServerSessions.Session.EndSession` | Server/TlsSession.cpp:70-86 | destroy is idempotent, empties rings and flags, and neither receives nor delivers anything |
| `StreamTunnel.FirstReadHoldsRequest` | Server/Session.cpp:26-74 | for every beginning of the client's stream: the server connects, with that request and the bytes behind it, if and only if the read holds the whole request and the password is allowed; otherwise the session ends |
| `StreamTunnel.TrojanRequestDecides` | Server/Session.cpp:43-60 | a Trojan request, told apart by its first ten bytes, is taken if and only if its password is allowed |
| `StreamTunnel.ConnectedWasAllowed` | Server/Session.cpp:49-64 | in every run the server has connected only if the password is allowed and its first read returned the whole request |
| `StreamTunnel.OpeningReaches` | Server/Session.cpp:321-357 | the run without failures that opens the streams, for every number of the application's bytes that arrive with the request: both sessions forward, and those bytes are the first the target gets |
| `StreamTunnel.CanFlowIff` | Server/Session.cpp:26-74 | some run gets both sessions to forward if and only if the password is allowed and one read can hold the request |
| `StreamTunnel.CanArriveIff` | Client/Session.cpp:183-350 | some run brings both streams to their ends whole if and only if that holds, or there is nothing to carry |
| `StreamTunnel.RunKeeps` | Client/Session.cpp:183-350 | the invariant tying application, client, TLS stream, server rings and target together holds in every run |
| `StreamTunnel.EndToEnd` | Client/Session.cpp:183-350 | for every chunking, partial write and failure, and for bytes that still arrive after a session ended, the target has a prefix of what the application sent, the application a prefix of what the target sent, the server connected only to the requested host and port, and neither of them got anything before that |
| `StreamTunnel.EveryByteAccountedFor` | Client/Session.cpp:283-350 | while both sessions forward, every byte read from the application, and every byte the server read from the target, is, in order, delivered, in the ring, in the TLS stream or being written |
| `StreamTunnel.StepMoves` | Server/Session.cpp:397-471 | while both sessions forward, every event that moves a byte brings the streams nearer to their end |
| `StreamTunnel.EverythingArrives` | Client/Session.cpp:283-350 | while both sessions forward and nothing fails: the number of events that move a byte is bounded by what is left to carry; when no byte that was read can move, all of them have arrived; when none at all can move, both streams have arrived whole |
| `StreamTunnel.ServerLateArrives` | Server/TlsSession.cpp:70-86 | in whatever state the server's session ends, any part of what it had handed to a socket can still arrive |
| `StreamTunnel.ClientLateArrives` | Client/Session.cpp:357-382 | the same for the client's session |
| `TrojanCodec.ReadAddressStable` | Protocol/trojan/TrojanReq.cpp:4-51 | an address once recognised is recognised unchanged when bytes are appended |
| `TrojanCodec.ReadPutAddress` | Protocol/trojan/TrojanReq.cpp:53-76 | a written address is read back, literal ones as the text that the rows below give a meaning; an unspecified endpoint comes back as 0.0.0.0 with port 0 |
| `AddressText.DottedDenotes` | Protocol/trojan/TrojanReq.cpp:13 | split at its dots, the text of an IPv4 address is four decimal numbers, without needless zeros, and these are the four bytes in order |
| `AddressText.GroupsDenote` | Protocol/trojan/TrojanReq.cpp:36-42 | read as groups of four hexadecimal digits between colons, the text of an IPv6 address is its sixteen bytes in order |
| `TrojanCodec.LiteralDenotes` | Protocol/trojan/TrojanReq.cpp:11-49 | every literal address that is read denotes the endpoint with the bytes and the port it was sent as |
| `TrojanCodec.EndpointReadBack` | Protocol/trojan/TrojanReq.cpp:53-76 | every endpoint that is written is read back as a text that denotes that endpoint; an unspecified one as 0.0.0.0 with port 0 |
| `TrojanCodec.AddressIsLaid` | Protocol/trojan/TrojanReq.cpp:4-51 | only addresses laid out as type 1, 3 or 4, address and port are read, to their end |
| `TrojanCodec.ReadPacketStable` | Protocol/trojan/UDPPacket.cpp:5-21 | the same stability for whole UDP packets |
| `TrojanCodec.ReadPutPacket` | Protocol/trojan/UDPPacket.cpp:23-43 | a written packet is read back whole, with its length |
| `TrojanCodec.PacketIsLaid` | Protocol/trojan/UDPPacket.cpp:5-21 | only packets laid out as address, length, line break and payload are recognised, and their length is exact |
| `TrojanCodec.FindCrlf` | Protocol/trojan/TrojanReq.cpp:79 | the first line break, or none |
| `TrojanCodec.ParseRequest` | Protocol/trojan/TrojanReq.cpp:77-96 | the parser that takes parts off the front returns the specified request |
| `TrojanCodec.NoCrlfNoRequest` | Protocol/trojan/TrojanReq.cpp:79-82 | data without a line break is never a request |
| `TrojanCodec.ReadPutRequest` | Protocol/trojan/TrojanReq.cpp:77-113 | for any name: password, command, name, port and payload come back if and only if the password contains no line break and the name has 1 to 255 bytes |
| `TrojanCodec.RequestIsLaid` | Protocol/trojan/TrojanReq.cpp:77-96 | only requests laid out as a password without a line break, a line break, command 1 or 3, an address, a line break and the payload are recognised |
| `Reassembly.RunRefinesGreedy` | Server/Session.cpp:182-230 | for any stable parser and any chunking: the packets taken are a prefix of the packets of the whole stream, and an open buffer holds exactly the bytes behind them |
| `Reassembly.RestParsesOn` | Server/Session.cpp:187-197 | what a buffer has not taken yet, its unparsed rest still parses to |
| `Reassembly.OnePerRead` | Server/Session.cpp:187-197 | reads that bring one packet each: every packet is taken, in order |
| `Reassembly.ErasuresAreRare` | Server/Session.cpp:107-111 | for every chunking, more than 32768 bytes are parsed for each time the parsed part is erased |
| `Reassembly.NeverTooLong` | Server/Session.cpp:223-227 | on a stream of packets of at most 65537 bytes no chunking closes the session |
| `Reassembly.SomeChunkingCloses` | Server/Session.cpp:223-227 | one packet longer than 65537 bytes is enough for some chunking to close it |
| `Reassembly.TooLongIff` | Server/Session.cpp:223-227 | for any stable parser: some chunking of a stream of packets closes the session if and only if some packet is longer than 65537 bytes |
| `TrojanUdp.ParserStable` | Protocol/trojan/UDPPacket.cpp:5-21 | UDPPacket::parse is a stable parser, so all of the above applies to it |
| `TrojanUdp.CutPacketUnread` | Protocol/trojan/UDPPacket.cpp:5-21 | no strict prefix of a written packet is taken for a packet |
| `TrojanUdp.ReassemblyRefinesParsing` | Server/Session.cpp:76-112 | for every chunking: the packets taken are a prefix of the packets of the stream and fill it exactly up to the buffer's rest; while the session is open, taken packets followed by the packets of the rest are all packets of the stream |
| `TrojanUdp.PacketsOfList` | Protocol/trojan/UDPPacket.cpp:23-43 | packets written one behind the other are parsed back as exactly the same list |
| `TrojanUdp.TooLongExactly` | Server/Session.cpp:99-104 | some run of reads, after whatever payload came with the request, ends in "too long" on a stream of well-formed packets if and only if some packet is encoded in more than 65537 bytes |
| `TrojanUdp.UdpStream.HandlePacket` | Server/Session.cpp:92-112 | one attempt: a packet is taken or the buffer waits or closes, and compaction leaves the unparsed rest as it was |
| `TrojanUdp.UdpStream.OnRead` | Server/Session.cpp:187-197 | a completed read is the specified append and attempt |
| `UdpRequest.Parse` | Protocol/socks5/UdpRequest.cpp:6-45 | the pointer walk accepts exactly the specified datagrams and returns their parts |
| `UdpRequest.Layout` | Protocol/socks5/UdpRequest.cpp:47-67 | where each part of a well-formed request stands, as section 7 of RFC 1928 says |
| `UdpRequest.LayoutOfOthers` | Protocol/socks5/UdpRequest.cpp:47-67 | an address type that RFC 1928 does not know, as in a reply from an IPv6 target, is written with no address at all |
| `UdpRequest.SerializeThenRead` | Protocol/socks5/UdpRequest.cpp:47-67 | serialising then parsing is the identity on exactly the well-formed requests |
| `UdpRequest.ReadThenSerialize` | Protocol/socks5/UdpRequest.cpp:6-67 | an accepted datagram is well formed and serialises back byte for byte |
| `UdpRequest.DestEndpoint` | Protocol/socks5/UdpRequest.cpp:69-82 | the endpoint has the address bytes and the port of the request |
| `UdpFrame.Parse` | Protocol/UdpFrame.cpp:18-34 | the parser returns the specified outcome, including the exception |
| `UdpFrame.ParseBody` | Protocol/UdpFrame.cpp:36-80 | the rest of it, for each address type, with its unsigned byte count |
| `UdpFrame.Layout` | Protocol/UdpFrame.cpp:82-126 | where each part of a frame stands: CR LF, length modulo 2^16, type 1, 3 or 6, the length of a name, address, port, payload |
| `UdpFrame.ReadGenerated` | Protocol/UdpFrame.cpp:82-126 | what a generated frame of at most 65535 bytes parses to: a literal one to itself, a named one to itself without the first payload byte, a named empty one to an exception |
| `UdpFrame.ReadOverlong` | Protocol/UdpFrame.cpp:103-105 | a literal frame whose length does not fit 16 bits is rejected or loses at least 65536 bytes of payload |
| `UdpFrame.RoundTripIff` | Protocol/UdpFrame.cpp:18-126 | parse inverts generate if and only if the address is literal and the frame is at most 65535 bytes |
| `UdpFrame.ReadThenGenerate` | Protocol/UdpFrame.cpp:18-109 | every accepted literal frame is byte for byte one that generate writes |
| `UdpFrame.NamedThenGenerate` | Protocol/UdpFrame.cpp:18-126 | every accepted frame to a name is one that generate writes for that name and a payload with one more byte in front |
| `UdpFrame.RestIgnored` | Protocol/UdpFrame.cpp:18-34 | what follows a frame in its record changes nothing |
| `UdpRelays.FrameOneLonger` | Client/UdpRelay.cpp:131-136 | a frame is one byte longer than the SOCKS5 datagram it carries, for every address type |
| `UdpRelays.LiteralDatagramCarried` | Client/UdpRelay.cpp:123-136 | the server parses address, port and payload of any literal datagram unchanged, or rejects the one length that wraps |
| `UdpRelays.NamedDatagramCarried` | Client/UdpRelay.cpp:132-133 | a datagram to a name loses its first payload byte; an empty one makes the server's parser throw; the one length that wraps is rejected |
| `UdpRelays.ReplyReadableIff` | Client/UdpRelay.cpp:78-83 | of a reply the relay parsed, the application can read address, port and data back if and only if the target is IPv4 and the frame fits 16 bits; an IPv6 reply is rejected by every SOCKS5 parser |
| `UdpRelays.DeskRemembers` | Client/UdpRelay.cpp:85-91 | after any history the table holds exactly the askers the history names, by the address bytes and the port of a request, which is all the key says |
| `UdpRelays.AnswerGoesTo` | Client/UdpRelay.cpp:85-94 | every answer goes to whoever asked last under its address bytes and port, and if nobody is remembered, to whoever spoke last |
| `UdpRelays.AnswerGoesToAsker` | Client/UdpRelay.cpp:85-94 | by endpoint: an answer from an endpoint that was asked for goes to the one who asked for it last, if and only if nobody else asked later for a host whose name has the bytes of that address; an answer from an endpoint nobody asked for goes to whoever spoke last |
| `UdpRelays.NameTakesAnswer` | Client/UdpRelay.cpp:129 | the history that shows it, for every IPv4 address and port: one application asks for the address, then another for the name spelled with its four bytes, and gets the answer |
| `DtlsServer.PhaseNeverBack` | Server/DtlsServerSession.cpp:36-98 | over any run the session never returns to an earlier phase |
| `DtlsServer.PhaseIff` | Server/DtlsServerSession.cpp:36-204 | in every run the session is over if and only if it was stopped, its handshake failed, the client closed it or a line failed the password check; it forwards if and only if a line passed and none of that happened |
| `DtlsServer.LinesAreNotJoined` | Server/DtlsServerSession.cpp:120-153 | after a record without a newline the next one is read as if it were the first |
| `DtlsServer.ActiveIsAuthenticated` | Server/DtlsServerSession.cpp:110-188 | a session that proxies, has sent or replied, or has a send waiting for the resolver, is behind an accepted password line |
| `DtlsServer.SendsOnlyAfterAuth` | Server/DtlsServerSession.cpp:110-188 | every send to a target is strictly preceded by one record, read in AUTH, whose text before its first newline passes the password check |
| `DtlsServer.SentAtOnce` | Server/DtlsServerSession.cpp:154-188 | a frame to an address, or to a name that is cached, is sent once, there, with payload, id and name of its record |
| `DtlsServer.ResolvingIs` | Server/DtlsServerSession.cpp:226-246 | in every run what waits for the resolver is what the records of certain events asked for, each of them once and in order |
| `DtlsServer.ResolvedOnce` | Server/DtlsServerSession.cpp:236-245 | in every run a resolution that finishes with an endpoint adds exactly one send, to that endpoint, with payload, id, name and port of the record with which it began; a failed one adds none; either way that record waits no longer and all others still do |
| `DtlsServer.FramesAccountedFor` | Server/DtlsServerSession.cpp:154-246 | in every run each accepted frame was sent once, waits for the resolver, or had a name that did not resolve |
| `DtlsServer.SilentUnlessProxy` | Server/DtlsServerSession.cpp:60-75 | a session that does not forward neither takes a record for a frame nor frames anything for its client |
| `DtlsServer.ThrowsIff` | Server/DtlsServerSession.cpp:166-168 | a handler throws if and only if the session forwards and the frame in a record makes the frame parser throw |
| `DtlsServer.RoutesAreLatest` | Server/DtlsServerSession.cpp:248-253 | in every run the routing table gives, for each endpoint, the id of the latest send to it under a non-zero id |
| `DtlsServer.ReplyGoesToLatestSender` | Server/DtlsServerSession.cpp:297-313 | a datagram from a target is framed for the session id that last sent to it, 0 if there is none |
| `DtlsServer.FrameReadInAuth` | Server/DtlsServerSession.cpp:120-153 | a frame read in AUTH is taken for a line of at most three bytes, and the session leaves AUTH |
| `DtlsServer.FindNewline` | Server/DtlsServerSession.cpp:123 | the first newline |
| `DtlsServer.DtlsServerSession.StopSession` | Server/DtlsServerSession.cpp:36-58 | stop is idempotent and calls back at most once |
| `DtlsServer.DtlsServerSession.HandleDatagram` | Server/DtlsServerSession.cpp:60-98 | the handler takes the step of the step system |
| `DtlsServer.DtlsServerSession.TryReadAppData` | Server/DtlsServerSession.cpp:110-204 | the same for a read record, in AUTH and in PROXY |
| `DtlsServer.DtlsServerSession.ReadLine` | Server/DtlsServerSession.cpp:120-153 | a record read in AUTH is the whole line or nothing, and leads to PROXY or DESTROY |
| `DtlsServer.DtlsServerSession.HandleFrame` | Server/DtlsServerSession.cpp:166-191 | a parsed frame is sent, sent to its cached endpoint, or left to the resolver; others change nothing |
| `DtlsServer.DtlsServerSession.DoSendToTarget` | Server/DtlsServerSession.cpp:248-272 | the send is logged and the route recorded unless the id is zero |
| `DtlsServer.DtlsServerSession.HandleResolved` | Server/DtlsServerSession.cpp:236-245 | a finished resolution takes the step of the step system, of which `DtlsServer.ResolvedOnce` says what is sent |
| `DtlsServer.DtlsServerSession.HandleFromTarget` | Server/DtlsServerSession.cpp:281-315 | a datagram from a target takes the step of the step system |
| `DtlsListeners.StepKeepsInv` | Server/DtlsListener.cpp:80-112 | the map holds exactly the undestroyed sessions, each under its own endpoint |
| `DtlsListeners.EveryRunKeepsInv` | Server/DtlsListener.cpp:80-112 | and so in every run |
| `DtlsListeners.OneSessionPerSender` | Server/DtlsListener.cpp:80-106 | in every run a datagram goes to the session of its sender, a new one only if there is none; the sender has a session afterwards if and only if that one did not end over it; nothing else changes |
| `DtlsListeners.StopEvictsNoOther` | Server/DtlsListener.cpp:108-112 | in every run stopping a session, again or late, removes at most its own entry |
| `DtlsListeners.StopStops` | Server/DtlsServerSession.cpp:36-58 | in every run a stop, first or late, leaves the session destroyed, called back once and out of the map, and no other session changed |
| `DtlsListeners.CallbackOnce` | Server/DtlsServerSession.cpp:36-58 | in every run a session calls back at most once and is not in the map afterwards |
| `DtlsListeners.DtlsListener.OnReceive` | Server/DtlsListener.cpp:80-106 | the listener takes the step of the step system, the session of the sender, new or old, that of its own; no other session is touched |
| `DtlsListeners.DtlsListener.StopOne` | Server/DtlsServerSession.cpp:36-58 | a stop of any session at any time, and its callback, take the step of the step system |
| `DtlsListeners.DtlsListener.Shutdown` | Server/DtlsListener.cpp:61-78 | the map is empty, and every session ever created is stopped and has called back exactly once |
| `ClientUdp.EveryRunKeepsInv` | Client/Server.cpp:32-83 | channel, ids, registry, queues, logs and desks keep their invariants in every run |
| `ClientUdp.ChannelOrder` | Shared/DtlsChannel.cpp:70-122 | in every run: success is reported at most once; the password line is submitted first, and every other record belongs to one session and carries its id; no registered relay has anything waiting once ready; the frames a session made are, in order, those that wait there and then those it submitted; a live session that shares its id with no other has submitted all of them once ready |
| `ClientUdp.ReportsAre` | Shared/DtlsChannel.cpp:70-122 | in every run that did not throw, the callback was told of every failed attempt up to the first that succeeded, then of that one, and of nothing else |
| `ClientUdp.AllSubmittedIff` | Client/Server.cpp:49-52 | a session has submitted every frame it made if and only if, when the channel got ready, it was not open yet, or was registered, or had made no frame |
| `ClientUdp.BecameReady` | Shared/DtlsChannel.cpp:113-121 | in every run with a ready channel, some event made it ready |
| `ClientUdp.OvertakenForGood` | Client/Server.cpp:62-65 | the run that shows it: a live session whose id the 65537th session took over before the channel got ready keeps its first frame while its second one goes out |
| `ClientUdp.FlushAllKeeps` | Client/Server.cpp:49-52 | the ready callback empties every queue it visits, in any order, and keeps per-session order |
| `ClientUdp.RegistryExactIff` | Client/Server.h:27-49 | the registry is exact in every run with n sessions if and only if n is at most 65535 |
| `ClientUdp.OpenAndCloseReaches` | Client/Session.cpp:375-377 | after n sessions opened and closed the registry is empty up to 65535 of them, and holds the relay with id 0 from then on |
| `ClientUdp.DispatchedToOwner` | Client/Server.cpp:72-83 | in every run a record touches only a live session with the id in front of it; with at most 65535 sessions, ids are non-zero and distinct |
| `ClientUdp.DeliveredIff` | Client/Server.cpp:72-83 | in every run a record is handed to a session that shares its id with no other if and only if the channel is ready, the session is alive, and the record carries its id and a frame that parses; then one datagram goes to its application and no other session changes |
| `ClientUdp.SeenIs` | Client/UdpRelay.cpp:62-151 | in every run a session has seen, in order, exactly what its application sent and what was registered as its own, while it was alive |
| `ClientUdp.AliveIff` | Client/Session.cpp:357-382 | in every run that did not throw, a session is alive if and only if no event has closed it |
| `ClientUdp.RecordThrowsIff` | Client/UdpRelay.cpp:62-71 | a record ends the client's event loop if and only if it is handed to a live relay and makes its frame parser throw |
| `ClientObjects.DtlsChannel.DoHandshake` | Shared/DtlsChannel.cpp:70-122 | takes the step of the step system, and reports success exactly when the handshake completes now |
| `ClientObjects.DtlsChannel.Send` | Shared/DtlsChannel.cpp:196-217 | submits only on a usable, running channel after the handshake |
| `ClientObjects.UdpRelay.FlushPending` | Client/UdpRelay.cpp:48-60 | the loop submits the waiting frames in order and empties the queue, or does nothing |
| `ClientObjects.UdpRelay.ReceiveLocal` | Client/UdpRelay.cpp:100-151 | a request is remembered and its frame submitted or queued |
| `ClientObjects.UdpRelay.OnDtlsData` | Client/UdpRelay.cpp:62-98 | a parsed frame is delivered once, to the remembered endpoint; others change nothing |
| `ClientObjects.Server.Associate` | Client/Session.cpp:405-417 | a new session with the next id is registered; takes the step of the step system |
| `ClientObjects.Server.RegisterRelay` | Client/Server.cpp:62-65 | the entry under the id, and nothing else |
| `ClientObjects.Server.CloseSession` | Client/Session.cpp:357-382 | takes the step of the step system, which unregisters non-zero ids only |
| `ClientObjects.Server.OnLocal` | Client/UdpRelay.cpp:100-151 | the relay's step seen from the registry: no other session changes |
| `ClientObjects.Server.OnDtlsData` | Client/Server.cpp:72-83 | dispatch takes the step of the step system, of which `ClientUdp.DeliveredIff` says when a record is delivered |
| `ClientObjects.Server.OnReady` | Client/Server.cpp:49-52 | the loop flushes every registered relay once |
| `ClientObjects.Server.Handshake` | Client/Server.cpp:45-56 | a handshake attempt and its callback take the step of the step system |
| `DatagramTunnel.NoNewlineIsHarmless` | Shared/DtlsChannel.cpp:117-118 | a password without a newline is never taken for a frame |
| `DatagramTunnel.RecordWasAsked` | Client/UdpRelay.cpp:138-147 | every record submitted after the password line is a session's id and the frame of a datagram that session saw |
| `DatagramTunnel.EveryRunKeepsInv` | Server/DtlsServerSession.cpp:281-315 | routes, replies and deliveries of both ends keep their invariant in every run, whatever the password |
| `DatagramTunnel.SendsAreSound` | Server/DtlsServerSession.cpp:154-188 | for a password line that does not parse as a frame, over a network that loses, reorders and repeats: every send carries a datagram an application gave to a relay with that id, literal ones to the same address with the same payload, named ones to what the same name and port resolved to, without the first payload byte |
| `DatagramTunnel.SoundIffHarmless` | Server/DtlsServerSession.cpp:154-188 | for an accepted password, soundness holds in every run if and only if the password line does not parse as a frame; the same if only runs count in which no record is read twice |
| `DatagramTunnel.LineTakenForFrame` | Server/DtlsServerSession.cpp:120-188 | the run that shows it, for every such line, application and resolved endpoint: a frame overtakes the line and passes for it, and then the line, read once, is sent as a datagram nobody asked for |
| `DatagramTunnel.HeardHappened` | Server/DtlsServerSession.cpp:281-315 | what the tunnel is said to have heard from targets is what they sent in the run, each after that many sends |
| `DatagramTunnel.AnswersAreSolicited` | Client/UdpRelay.cpp:62-98 | in every run, every datagram that a relay with a non-zero id hands to an application carries exactly what a target sent at some event of the run, and before that event the server had sent to that target under this relay's id |
| `DatagramTunnel.SolicitedIff` | Server/DtlsServerSession.cpp:297-304 | for an accepted password, that holds of the i-th session in every run if and only if its id did not wrap to zero |
| `DatagramTunnel.StrayDelivered` | Server/DtlsServerSession.cpp:297-313 | the run that shows it: any datagram from any target nobody has sent to, as long as its frame fits 16 bits, is tagged with 0 and handed to the session with that id |
| `DatagramTunnel.AnswerReachesAsker` | Client/UdpRelay.cpp:85-94 | in every run, a record that changes a session is one with its id, is delivered once, and goes to whoever asked last under the address bytes and the port in its frame, or else to whoever spoke last; by endpoint, to the one who asked for it last under the exact condition of `UdpRelays.AnswerGoesToAsker` |
| `DatagramTunnel.ClientNeverThrows` | Client/UdpRelay.cpp:62-71 | in every run the client's frame parser never throws |
| `DatagramTunnel.ServerThrowsOnlyOnEmpty` | Server/DtlsServerSession.cpp:166-168 | in every run, if the password line itself does not make the frame parser throw, the server throws only after an application sent an empty datagram to a name |
| `DatagramTunnel.EmptyToNameThrows` | Server/DtlsServerSession.cpp:166-168 | and any such datagram, from any application, makes it throw in some run |
| `DatagramTunnel.CalmIff` | Server/DtlsServerSession.cpp:154-168 | for an accepted password, the server throws over nothing else in any run if and only if the password line does not make the parser throw |
| `RoundTrips.OpenIsReady` | Shared/DtlsChannel.cpp:113-121 | in every run in which the server forwards, the client's channel is ready |
| `RoundTrips.ReplyDelivered` | Client/Server.cpp:72-83 | in every run of the tunnel, a record is handed to a session that shares its id with no other exactly under the condition of `ClientUdp.DeliveredIff`, and then one datagram goes to the application endpoint of `DatagramTunnel.AnswerReachesAsker` and no other session changes |
| `RoundTrips.AddressReached` | Client/UdpRelay.cpp:100-151 | in every run with an open tunnel: a datagram below 65535 bytes that a live session gets for an address is submitted, and once read leads to exactly one send, to that address, with its payload and the session's id |
| `RoundTrips.NameReached` | Server/DtlsServerSession.cpp:226-246 | the same for a name that is not cached, with a payload: exactly one send, to what it resolves to, without the first byte of the payload |
| `RoundTrips.AnswerComesBack` | Server/DtlsServerSession.cpp:281-315 | in every run with an open tunnel: what a target answers is handed to a live session, once, if that was the last to send there; if another was, this one gets nothing |
| `RoundTrips.RoundTrip` | Client/UdpRelay.cpp:62-151 | in every run with an open tunnel: a datagram from an application to an address, its send, the answer from there, and its record bring that application the answer, once; the only exception is a session whose id wrapped to zero, when another session has sent to that target |
| `RoundTrips.TunnelOpens` | Server/DtlsServerSession.cpp:120-153 | for an accepted password there is a run that opens the tunnel, and it serves each of up to 65536 sessions |
| `DnsCaches.LookupAnswers` | Shared/DnsCache.cpp:15-65 | at a time no earlier than any cleanup, a lookup answers exactly what the latest store for the key, the time to live then in force and the clock say, wherever cleanups happened |
| `DnsCaches.CleanupInvisible` | Shared/DnsCache.cpp:49-65 | at a time no earlier than any cleanup, a cleanup inserted anywhere in the history changes no answer |
| `DnsCaches.CleanupVisibleIff` | Shared/DnsCache.cpp:49-65 | for any two times, a cleanup changes an answer if and only if the entry expires after the lookup's time and no later than the cleanup's |
| `DnsCaches.TtlInForce` | Shared/DnsCache.cpp:9-13 | the time to live is that of the latest change, whatever else happened |
| `DnsCaches.OtherDestinationUnaffected` | Server/Session.cpp:298-312 | a store for one host and port never answers for another |
| `DnsCaches.DnsCacheManager.EraseExpired` | Shared/DnsCache.cpp:53-58 | the erase loop leaves exactly the live entries |
| `DnsCaches.DnsCacheManager.GetUdp` | Shared/DnsCache.cpp:15-24 | the specified lookup |
| `DnsCaches.DnsCacheManager.GetTcp` | Shared/DnsCache.cpp:32-41 | the specified lookup |
| `DnsCaches.DnsCacheManager.PutUdp` | Shared/DnsCache.cpp:26-30 | the specified store, with the time to live in force; the TCP cache is untouched |
| `DnsCaches.DnsCacheManager.PutTcp` | Shared/DnsCache.cpp:43-47 | the specified store; the UDP cache is untouched |
| `DnsCaches.DnsCacheManager.SetDefaultTtl` | Shared/DnsCache.cpp:9-13 | later stores use the new time to live, stored entries keep theirs |
| `DnsCaches.DnsCacheManager.CleanupExpired` | Shared/DnsCache.cpp:49-65 | both caches keep exactly their live entries |

## Left out

- TLS, DTLS and WebSocket internals, OpenSSL BIOs, SHA-224: an oracle for handshakes and reads, a reliable byte stream, a record channel, an arbitrary predicate on password lines.
- What follows an exception that leaves a handler: `threw` ends the modelled run of that object.
- Asio sockets, resolver and timers, and the lifetime of buffers during asynchronous operations: environment events.
- VRequests.DecodeEncode: for encoded requests below 2^31 bytes, because lengths are read back into a C `int`.
- VRequests.VRequest.Unstream: inner lengths that point outside the buffer are an outcome of their own (`OutOfBounds`); what the code reads there is not modelled.
- The TCP relay of Client/Session.cpp is a step system over values in `StreamTunnel.dfy`, not a class: each direction holds one buffer that is read and then written whole. Straight-line builders of byte strings are functions.
- HTTP CONNECT, the SOCKS5 greeting and request, and the replies to them: they run before the streams that are carried here begin. The end-to-end theorem starts from the request they result in.
- Trojan UDP replies: the code copies the sender's address before it is filled in, so the header it writes carries none.
- Stopping and restarting the DTLS channel while relays are alive: relays keep a pointer to the old channel. One lifetime is modelled. A closed relay that is still in the registry stays a stopped relay in the model; the source has freed it.
- The endpoint a name resolves to: the resolver's choice. That a send to a name carries the right payload is proved, its address is not constrained.
- Eventual delivery of Trojan UDP packets: only one buffered packet is parsed per read, so packets may wait for bytes that never come.
- A 64-bit `time_t` and overflow of the expiry time; IPv6 scope ids; statistics, logging, configuration, the GUI and the installers.
