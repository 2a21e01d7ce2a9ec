# Verified model of SCFT

SCFT is a small chat and file relay. Clients frame messages with a length header and a
CRC-32, a server room sends every frame on to the other members, and each client checks,
logs and stores what it receives. This project models that behaviour in Dafny and proves
what users of the relay depend on. `dafny verify dfyconfig.toml` verifies all of it.

## How it is organised

Bottom up, one module per file:

| file | content |
|---|---|
| `Wrappers`, `Bytes` | optional values; bytes, little-endian fields, C strings, decimal numbers |
| `Numbers`, `Polynomial`, `CrcTable`, `Crc32`, `CrcTheory`, `CrcPeriod`, `CrcStream` | prime factors, GF(2) polynomials, the 256-entry table, both checksum loops, and what the checksum means and detects |
| `Frame`, `Codec`, `Message` | the frame layout, the round trips and acceptance conditions, and the message object that fills its buffer in place |
| `Framing` | the header/body reader that reuses one buffer, and the frames of a byte stream |
| `Endpoint`, `Relay` | the writer queue, a member, the room as a value; clients, wires and room as a system that moves by single handler steps |
| `RelayInvariant`, `Posts`, `Notices`, `RelayTheorems`, `Drain`, `Runs` | what every step keeps; what users posted; where the notices stand; ordered delivery, total order, membership; a measure that every step forward decreases; what can happen and what must |
| `Server`, `RoomView`, `Client`, `ClientView` | the member, room and client objects, each method proved against the functions above, and the proofs that the room and the clients of the system are those of the objects |
| `Delivery` | from one user to the other: texts in the log, files written |
| `ScrollingLog`, `Shell` | the wrapping, bounded log and the quote-aware argument splitter |

The main results are these.

* **Checksum.** The table loop computes the bit-serial register for 0xEDB88320 from any start
  value, and the register value is the one remainder of the message polynomial modulo the
  generator. Two equal-length messages collide exactly when the generator divides their
  shifted difference. Differences inside 32 consecutive bits are always seen, and 33 is too
  many: every five bytes have a partner that collides. Two flipped bits go unnoticed exactly
  at distances that are multiples of 2^32 - 1, the order of x modulo the generator.
* **Framing.** Accepted frames can be told apart in any concatenation, and the reader yields
  exactly them however the stream is cut.
* **Relay.** In every state of every run the member queues hold the broadcast log of the
  member's stay, filtered by origin; what a client decoded is a prefix of it, each frame one
  entry of the log: a notice of a join or leave that happened, or a frame of one sender. What
  the room broadcast for a sender is a prefix of what its user posted in the run. Two
  clients never disagree about the order of two broadcasts, and intact frames arrive intact.
  Without new sends, joins and failures at most `Measure` more steps happen, both prefixes are
  then the whole lists, and files and texts have reached the users. From every reached state,
  whatever is posted next arrives in the end.

## Reading of the source

* One thread runs each event loop, so one handler runs at a time, and a handler never runs
  inside the call that started its operation. Reads deliver all the bytes asked for or fail,
  writes complete or fail; bytes travel in order, in pieces of any size.
* A removed member's operations never complete afterwards, and a member's endpoint is the one
  it had when it joined. In the source the handlers hold a bare `this` and the endpoint is
  asked of the socket each time (src/scft-srv/member.cpp:86-94). `RoomView.RemoveCrashes`
  says exactly when a removal would take the "Double self-destruction" exit, which leaves the
  mutex locked.
* 32-bit header fields are native writes in the source; both ends are taken to be
  little-endian. Stored lengths wrap modulo 256 and 2^32 as the casts do.
* A frame is `Readable` when its string ends inside the buffer. Otherwise the accessors of the
  source run on past it: the client's body handler then stops and says so, and a string of the
  model ends with the buffer. `RelayTheorems.AllArriveIntact` shows that this never happens
  when users send encoded frames.
* A client's frames keep the reader `InStep` when the first one that is not accepted is refused
  or announces more bytes than follow it. Only then is what the room reads what was sent;
  an encoded frame breaks it only if a stored length wrapped.
* `split_args` reads the character before a space. For a space at the very start that is
  position -1, and `std::string::at` throws; every other command is split.
* The client's shell writes to the same log from its own thread. What it writes may stand
  between the reports on two messages, but is taken not to fall between the two or three
  pieces of one report, which the source appends one after the other.
* The flag of an input stream says that it was opened and its reads succeed.
* The stream checksum complements its result and the buffer checksum does not.
* An exception of the source is `None`, or a `false` result.

## Model

| member | source | states |
|---|---|---|
| CrcTable.TableEntry | src/crc32.hpp:59-125 | each of the 256 literal entries is what eight clocks of the reflected register do to its index |
| CrcTable.Shift8Add | src/crc32.hpp:59-125 | clocking the register is linear over exclusive or, which is why one table serves every register |
| Crc32.TableStep | src/crc32.cpp:11 | one table step equals eight bit-serial clocks, for every register and byte |
| Crc32.GetCrc32 | src/crc32.cpp:7-13 | the loop returns the bit-serial register over the first `size` bytes, for every start value, without a final complement |
| Crc32.CrcConcat | src/crc32.cpp:7-13 | the checksum of a concatenation is the checksum of the second part started from that of the first |
| CrcStream.InputStream.Read | src/crc32.cpp:19-22 | a read takes the next bytes off the stream; end of file shows exactly when a sound stream had fewer than asked for, and never on one that was not opened or whose reads fail |
| CrcStream.Round | src/crc32.cpp:21-22 | one round adds the chunk it took off the stream to the checksum, and shows end of file exactly on a short chunk of a sound stream |
| CrcStream.GetCrc32 | src/crc32.cpp:15-25 | on every stream that was opened and whose reads succeed the chunked loop ends and returns the complement of the one-shot checksum of all that was left |
| CrcStream.ContentChecksum | src/crc32.hpp:44 | the stream checksum of some contents from the start value that callers leave out |
| CrcStream.GetCrc32Within | src/crc32.cpp:19-23 | given up after some rounds, the loop has ended if and only if the stream is sound and holds less than that many chunks; on one that was not opened or whose reads fail it never ends, its register holding the bytes that could be read |
| CrcTheory.CrcLinear | src/crc32.cpp:9-12 | the checksum is linear over exclusive or jointly in register and data |
| CrcTheory.CrcBijective | src/crc32.cpp:9-12 | for fixed data every end register has exactly one start register, which `Rewind` computes |
| CrcTheory.FourBytesInjective | src/crc32.cpp:9-12 | up to four bytes are absorbed without collision |
| CrcTheory.BurstDetected | src/crc32.cpp:7-13 | different data that differ only inside 32 consecutive bits have different checksums |
| CrcTheory.WindowOf33Undetected | src/crc32.cpp:7-13 | the bound is tight: any five bytes in any context have a partner differing within 33 bits with the same checksum |
| CrcTheory.CrcIsRemainder | src/crc32.cpp:7-13 | a word is the checksum if and only if it is the remainder of the message polynomial, register included, modulo the generator |
| CrcTheory.UndetectedIffMultiple | src/crc32.cpp:7-13 | two equal-length messages collide if and only if the generator divides their shifted difference |
| CrcTheory.SameChecksum | src/crc32.cpp:7-13 | whether two equal-length messages collide depends on their difference alone |
| CrcPeriod.PeriodExact | src/crc32.hpp:55-58 | a power of x is 1 modulo the generator if and only if its exponent is a multiple of 2^32 - 1 |
| CrcPeriod.TwoBitsUnnoticed | src/crc32.cpp:7-13 | two flipped bits leave the checksum as it is if and only if their distance is a multiple of 2^32 - 1 |
| CrcPeriod.TwoBitsDetected | src/crc32.cpp:7-13 | in messages below 2^29 bytes every two flipped bits change the checksum |
| CrcPeriod.LeadingZeros | src/crc32.hpp:53 | from the start value of all ones, zero bytes put in front of a message change its checksum unless their number is a multiple of 2^32 - 1 |
| CrcPeriod.CheckValue | src/crc32.cpp:7-24 | the digits 1 to 9 give 340BC6D9, and CBF43926 with the final complement, the value known for this checksum |
| Frame.EncodeFields | src/scft_message.cpp:30-38 | what each header field and the data part of an encoded frame hold |
| Frame.WordBytesLittleEndian | src/scft_message.cpp:34-38 | both 32-bit fields are stored alike, lowest byte first |
| Codec.LengthsStoredExactly | src/scft_message.cpp:33-34 | the stored lengths are the real ones if and only if the origin has at most 254 bytes and the string data fewer than 2^32 |
| Codec.OriginRoundTrip | src/scft_message.cpp:97-100 | the origin is read back if and only if it holds no NUL |
| Codec.EncodeWellFormed | src/scft_message.cpp:28-61 | both encoders establish the layout that the accessors rely on |
| Codec.TextLayout | src/scft_message.cpp:28-39 | a text frame byte by byte: 1, the two lengths, the checksum from all ones over what follows, origin, 0, text, 0 |
| Codec.FileLayout | src/scft_message.cpp:41-61 | a file frame byte by byte: 2, the two lengths, the checksum, origin, 0, name, 0, contents |
| Codec.LengthField | src/scft_message.cpp:124-128 | the string data length is read from bytes 2 to 5, the lowest first |
| Codec.HeaderMeans | src/scft_message.cpp:67-79 | a header is refused unless it says 1 or 2 and announces at most 1073741824; it announces both lengths together, modulo 2^32 |
| Codec.AnyReadBack | src/scft_message.cpp:97-147 | any message laid out like a frame reads back its origin, string and contents, whatever its checksum says |
| Codec.TextRoundTrip | src/scft_message.cpp:28-39 | a text frame is read back: type, origin, text, no file, and a stored checksum equal to the recomputed one |
| Codec.FileRoundTrip | src/scft_message.cpp:41-61 | a file frame is read back: type, origin, name, every file byte and the file length |
| Codec.TextAccepted | src/scft_message.cpp:67-74 | the receiver takes a text frame if and only if its wrapped length is within the limit |
| Codec.FileAccepted | src/scft_message.cpp:67-74 | the receiver takes a file frame if and only if base name, NUL and file together, wrapped, are within the limit |
| Codec.EncodeHonest | src/scft_message.cpp:33-34 | the length announced by an encoded frame is the real one if and only if no stored length wrapped, or the header is refused anyway |
| Codec.BaseName | src/scft_message.cpp:48 | the part of a path after its last separator of either kind |
| Codec.BaseNameAfter | src/scft_message.cpp:48 | for every directory, what follows its last slash or backslash is the name, and a path without either is its own name |
| Codec.BaseNameExact | src/scft_message.cpp:48 | something is the base name if and only if it holds no slash or backslash and is the whole path or follows one |
| Codec.RenderInjective | src/scft_message.cpp:16 | `address:port` determines address and port |
| Codec.RenderParts | src/scft_message.cpp:16 | the address, then a colon, then the port in decimal digits without a leading zero |
| Endpoint.EndpointFits | src/scft-srv/room.cpp:55 | every address below 100 characters with a 16-bit port renders to an endpoint that a frame can name |
| Codec.TextIntact | src/scft_message.cpp:28-39 | an encoded text is well formed and carries a fitting checksum |
| Codec.FileIntact | src/scft_message.cpp:41-61 | an encoded file is well formed and carries a fitting checksum |
| Codec.BurstRejected | src/scft-clt/client.cpp:97-101 | a frame whose data part suffered at most a 32-bit burst passes the check if and only if it is undamaged |
| Codec.TwoBitsRejected | src/scft-clt/client.cpp:97-101 | a frame with two flipped bits in its data passes the check if and only if their distance is a multiple of 2^32 - 1 |
| Codec.DamageUnnoticed | src/scft-clt/client.cpp:97-101 | any damage to checksum and data passes if and only if the checksum of the change to the data, from an empty register, is the change to the stored checksum |
| Codec.ChecksumFieldRejected | src/scft-clt/client.cpp:97-101 | any damage to the checksum field alone is rejected |
| Message.Message.constructor | src/scft_message.cpp:7-10 | a fresh message is one zeroed header |
| Message.Message.Init | src/scft_message.cpp:12-26 | by type, the frame of a text or of a file under the name that ends its path; an unknown type is refused and changes nothing |
| Message.Message.InitAsText | src/scft_message.cpp:28-39 | whatever the buffer held, it becomes the text frame, no stale byte left |
| Message.Message.InitAsFile | src/scft_message.cpp:41-61 | whatever the buffer held, it becomes the file frame under the name that ends the path |
| Message.Message.Adjust | src/scft_message.cpp:76-79 | the buffer gets the announced length and keeps its header |
| Framing.FramesOfConcat | src/scft-srv/member.cpp:22-54 | the frames of accepted frames followed by anything are those frames and then the rest's |
| Framing.UniquelyDecodable | src/scft_message.hpp:16-25 | two lists of accepted frames have the same bytes if and only if they are the same list |
| Framing.PrefixFree | src/scft_message.hpp:16-25 | no accepted frame begins another |
| Framing.AloneDecoded | src/scft-clt/client.cpp:71-124 | a frame sent alone comes out as itself if and only if its header is taken and tells its length |
| Framing.ReceiveKeepsValid | src/scft-srv/member.cpp:24 | bytes written into the reused buffer extend the consumed stream by exactly themselves |
| Framing.CompleteKeepsValid | src/scft-srv/member.cpp:25-54 | the header and body handlers keep the stream consumed so far, though they resize the buffer |
| Framing.ReaderDecodes | src/scft-srv/member.cpp:22-54 | what a reader has handed on, and a complete frame it still holds, are the frames of the bytes it consumed |
| Framing.FramesOfHonest | src/scft-srv/member.cpp:27-35 | from honest frames the reader gets all before the first refused one, and nothing after it |
| Framing.FramesInStep | src/scft-srv/member.cpp:22-54 | of any frames sent, what is read begins the list if and only if the first frame that is not accepted is refused or announces more than follows, and is then the accepted frames at the head |
| Framing.EncodedInStep | src/scft_message.cpp:33-34 | an encoded frame alone keeps the reader in step if and only if no stored length wrapped or its header is refused |
| Framing.LongOriginOutOfStep | src/scft_message.cpp:33 | the message constructor, given an origin of 255 bytes and an empty text, makes a frame that is read as one nobody sent; the endpoints the program renders are shorter |
| Framing.FramesOfHead | src/scft-srv/member.cpp:22-54 | accepted frames at the head of a list are read as sent, whatever follows |
| Framing.TextFrameAccepted | src/scft_message.cpp:67-79 | an encoded text is accepted if and only if its origin has at most 254 bytes and the text fits the limit |
| Framing.FileFrameAccepted | src/scft_message.cpp:67-79 | an encoded file is accepted if and only if its origin has at most 254 bytes and name, NUL and contents fit the limit |
| Framing.FeedAllDecodes | src/scft-clt/client.cpp:71-124 | after any chunks the reader has handed on exactly the frames of their concatenation |
| Framing.Segmentation | src/scft-clt/client.cpp:71-124 | accepted frames cut anywhere come out as exactly those frames |
| Endpoint.SendKeeps | src/scft-srv/member.cpp:56-64 | sending appends to the accepted list, puts no byte on the wire, and keeps one write running exactly while messages are queued |
| Endpoint.WrittenKeeps | src/scft-srv/member.cpp:69-78 | a completed write moves the front on, loses nothing, and starts the next write if there is one |
| Endpoint.WireIsPrefix | src/scft-srv/member.cpp:66-84 | the wire carries a prefix of the accepted messages, in order |
| Endpoint.NoticeAccepted | src/scft-srv/room.cpp:24-26 | a join or leave notice is accepted by every reader, names its subject as origin and is intact |
| RelayInvariant.TellKeeps | src/scft-srv/room.cpp:50-59 | a broadcast in the middle of a handler keeps every queue equal to the filtered log |
| RelayInvariant.JoinKeeps | src/scft-srv/room.cpp:19-31 | joining keeps the invariant |
| RelayInvariant.RemoveKeeps | src/scft-srv/room.cpp:33-48 | leaving keeps the invariant, and the member is found |
| RelayInvariant.StepKeeps | src/scft-srv/member.cpp:22-84 | every handler step of client, member or room keeps the invariant |
| RelayInvariant.RunKeeps | src/scft-srv/main.cpp:50 | the invariant holds in every state of every run from the empty room |
| Posts.SentIsPosted | src/scft-clt/client.cpp:36-48 | in every run there is one connection for each join, and what each client has sent is exactly what its user posted, in order |
| RelayTheorems.QueuedIsOffered | src/scft-srv/room.cpp:50-59 | what was ever queued for a member is exactly the broadcasts of its stay whose origin is not its own |
| RelayTheorems.Delivered | src/scft-clt/client.cpp:71-124 | what a client decoded is a prefix of the broadcasts of its stay whose origin is not its own |
| RelayTheorems.Relayed | src/scft-srv/member.cpp:39-54 | whatever a user posted in the run, what the room broadcast for it is a prefix of the frames these bytes stand for, and a prefix of what was posted, byte for byte, whenever its frames keep the reader in step |
| RelayTheorems.TotalOrder | src/scft-srv/room.cpp:50-59 | each decoded frame is one entry of the broadcast log, with its bytes, and two clients decode any two entries in the same relative order |
| RelayTheorems.EndToEnd | src/scft-srv/room.cpp:19-59 | every decoded frame is the join or leave notice of a known connection or, byte for byte, the frame of that number that some user posted; the frames of one sender arrive in the order posted, none twice |
| RelayTheorems.EachDecoded | src/scft-srv/room.cpp:19-59 | the same for one decoded frame, spelled out: the notice of a connection that joined or left, or the frame of some number among those that one user posted |
| Notices.NoticesKept | src/scft-srv/room.cpp:24-36 | in every run the notices in the log are exactly those of the joins and leaves that happened: each stands where the stay begins or ends, under that endpoint, and there are no others |
| Notices.NoticesMean | src/scft-srv/room.cpp:24-36 | the same spelled out: where each notice stands, that there are no others, and how many there are |
| RelayTheorems.AllArriveIntact | src/scft-clt/client.cpp:97-101 | if users post intact frames, every frame any client decodes is well formed and passes its check |
| RelayTheorems.MembershipSafe | src/scft-srv/room.cpp:28-47 | in every run members are distinct and in join order, the mutex is free between steps, and the double removal is not reached |
| RelayTheorems.WritersInOrder | src/scft-clt/client.cpp:36-69 | one write runs exactly while messages are queued; done, queued and waiting messages are together what the user posted in the run, in order |
| RelayTheorems.NoWriteAfterFailure | src/scft-clt/client.cpp:64-67 | after a client's write failed, no continuation of the run starts or completes another or moves a byte; the queue only grows |
| RelayTheorems.GoneForGood | src/scft-srv/room.cpp:37-47 | a member that has left stays out, and no step queues, reads or writes anything for it |
| RelayTheorems.JoinNoticed | src/scft-srv/room.cpp:24-30 | on a join each member with another endpoint gets one notice, the newcomer none, and the newcomer is last |
| RelayTheorems.LeaveDropsOne | src/scft-srv/room.cpp:37-47 | on leaving exactly the leaver goes from the list and the mutex is released |
| RelayTheorems.LeaveNoticed | src/scft-srv/room.cpp:36 | on leaving each other member with another endpoint gets one notice, the leaver none |
| RelayTheorems.FilterExact | src/scft-srv/room.cpp:53-58 | a broadcast with a member's origin leaves that member's queue alone, and joins every other member's queue if and only if nobody shares its endpoint |
| RelayTheorems.OwnFrameSkipsOnlySender | src/scft-srv/room.cpp:55-57 | a frame encoded at `a:p` is queued for a member at `b:q` unless address and port agree |
| Drain.StepDrains | src/scft-srv/member.cpp:39-84 | every step forward strictly decreases a non-negative measure of posted, queued, in-flight and unread bytes |
| Drain.ForwardRunsEnd | src/scft-clt/client.cpp:36-124 | a run of steps forward is no longer than the measure lost |
| Drain.Settles | src/scft-clt/client.cpp:36-124 | from every state that keeps the invariant some steps forward lead to one where none is possible |
| Drain.AllRelayed | src/scft-srv/member.cpp:39-54 | at rest the room has broadcast exactly the frames that a connected client's bytes stand for; they begin what it sent if and only if its frames keep the reader in step, and are then all before the first refused one |
| Drain.AllDelivered | src/scft-clt/client.cpp:89-124 | at rest a connected client has decoded all that was offered to it |
| Drain.Quiescence | src/scft-srv/room.cpp:50-59 | after any run the steps left are bounded, and once settled the room has relayed what each user posted and each client has decoded all it was offered |
| Drain.EveryFrameArrives | src/scft-srv/room.cpp:50-59 | once settled, every frame of a connected client is one entry of the log, and every connected client that joined before it and is not its origin has decoded its bytes from that entry |
| Runs.AnythingCanHappen | src/scft-srv/server.cpp:28-39 | in every state of every run a client can join and a user can post, and an operation can fail exactly while it is running |
| Runs.RunsAlike | src/scft-srv/main.cpp:50 | a state is reached by a run if and only if the run leads to it from the empty room |
| Runs.PostArrives | src/scft-clt/client.cpp:36-48 | from every reached state, what a connected client posts next is in the end decoded by every connected client that is not its origin |
| Runs.TwoJoin | src/scft-srv/room.cpp:19-31 | two clients can join the empty room |
| Runs.TwoUsersTalk | src/scft-clt/client.cpp:36-124 | there is a run in which one user reads what another wrote |
| Server.Member.constructor | src/scft-srv/member.cpp:9-16 | a new member has empty queues and starts on a header |
| Server.Member.SendMessage | src/scft-srv/member.cpp:56-64 | queues, and starts a write only on an empty queue |
| Server.Member.OnHeader | src/scft-srv/member.cpp:25-36 | a good header sizes the buffer and starts the body; otherwise exactly this member leaves the room |
| Server.Member.OnBody | src/scft-srv/member.cpp:42-53 | the message goes to every other member unchanged and its string to the log, and the reader is back at a header; on failure this member leaves |
| Server.Member.OnWritten | src/scft-srv/member.cpp:69-83 | drops the front and goes on; on failure this member leaves |
| Server.Room.Broadcast | src/scft-srv/room.cpp:50-59 | the message's string is logged, followed by what lies behind the buffer only if the string does not end inside; every member in the list, and nobody else, is offered the message |
| Server.Room.Deliver | src/scft-srv/room.cpp:53-58 | the loop offers the message to each listed member once |
| Server.Room.AddMember | src/scft-srv/room.cpp:19-31 | log lines and notice first, then the newcomer at the end of the list |
| Server.Room.TellLeft | src/scft-srv/room.cpp:35-36 | the removal is logged and the notice offered to every member in the list |
| Server.Room.RemoveMember | src/scft-srv/room.cpp:33-48 | finds the member if and only if it is listed; log lines and notice, then removal of that one entry; otherwise the list stays and the mutex is left locked |
| Server.Room.Erase | src/scft-srv/room.cpp:37-47 | the scan drops the one entry and releases the mutex, or, finding none, keeps both |
| Server.LinesRead | src/scft-srv/room.cpp:21-52 | what the log reads after a broadcast, a join and a leave, with its words spelled out |
| Server.LineEnded | src/scft-srv/room.cpp:21-52 | after such a line the log is at the start of a new one |
| Server.NoticeReads | src/scft-srv/room.cpp:24-36 | the notices are texts with the words " HAS JOINED" and " HAS LEFT" under the endpoint of the member they are about |
| RoomView.TellIsBroadcast | src/scft-srv/room.cpp:50-59 | the broadcast step of the system is the room's broadcast |
| RoomView.JoinIsAddMember | src/scft-srv/room.cpp:19-31 | the join step of the system is the room's addition |
| RoomView.RemoveIsRemoveMember | src/scft-srv/room.cpp:33-48 | the leave step of the system is the room's removal |
| RoomView.RemoveCrashes | src/scft-srv/room.cpp:38-47 | the double-removal exit is taken if and only if the member is not listed, with the mutex locked |
| RoomView.HeaderStep | src/scft-srv/member.cpp:25-31 | the system's header step is what `Member.OnHeader` does to the room for a good header |
| RoomView.BodyStep | src/scft-srv/member.cpp:42-48 | the system's body step is what `Member.OnBody` does, though it moves the reader before the broadcast |
| RoomView.WrittenStep | src/scft-srv/member.cpp:69-78 | the system's step for a completed write is what `Member.OnWritten` does |
| RoomView.FailureStep | src/scft-srv/member.cpp:32-35 | every step with a refused header or a failed operation is the removal that the methods make |
| RoomView.FailureRecorded | src/scft-srv/member.cpp:32-35 | a member that leaves has stopped reading or has a failed write |
| Client.Client.constructor | src/scft-clt/client.cpp:19-28 | a connected client logs the endpoint it is connected to and starts on a header |
| Client.Client.SendMessage | src/scft-clt/client.cpp:36-48 | a send is only posted to the event loop, behind earlier ones |
| Client.Client.RunPosted | src/scft-clt/client.cpp:39-47 | the oldest posted message is queued, and written at once only on an empty queue |
| Client.Client.OnWritten | src/scft-clt/client.cpp:54-68 | drops the front and goes on; a failure closes the socket and keeps the front |
| Client.Client.OnHeader | src/scft-clt/client.cpp:75-86 | a good header sizes the buffer and starts the body; otherwise the socket is closed |
| Client.Client.OnBody | src/scft-clt/client.cpp:93-123 | logs verdict, origin and text or file line, stores the file under the sent name, and goes back to a header; stops, with what was logged so far, where the source would read past the buffer; the log keeps holding the reports on all messages in order |
| Client.Client.LogVerdict | src/scft-clt/client.cpp:97-101 | logs the good or the bad verdict by comparing the stored checksum with the recomputed one |
| Client.Client.StoreAndLog | src/scft-clt/client.cpp:104-116 | by type, stores the file and logs its line, or logs the text |
| Delivery.FileArrives | src/scft-clt/client.cpp:93-112 | once settled, a file sent after acceptable frames has been written, under its name and with its contents, by every other client that had joined, and stands in its log as intact; the name still holds these contents unless a later message brought another file of that name |
| Delivery.TextArrives | src/scft-clt/client.cpp:97-116 | a text arrives in the same way, and the log of every such client holds it, under its origin and marked as intact |
| Client.OnDiskIsLast | src/scft-clt/client.cpp:106-108 | a file name holds some contents at the end if and only if the last message with a file of that name carried them |
| Client.FileReport | src/scft-clt/client.cpp:97-112 | the report of an encoded file tells origin, name and size, and the file is stored with that name and those bytes |
| Client.TextReport | src/scft-clt/client.cpp:97-116 | the report of an encoded text is the good verdict, origin and text, and nothing is stored |
| Client.AnyReport | src/scft-clt/client.cpp:97-116 | for any message laid out like a frame the checksum decides the verdict and nothing else: the file is stored and everything logged all the same |
| Client.CutReport | src/scft-clt/client.cpp:97-116 | where the string does not end inside the buffer nothing is stored, and the report ends with the verdict, or with the origin if that one ends inside |
| Client.VerdictsSpelled | src/scft-clt/client.cpp:99-101 | the two verdicts, letter by letter |
| Client.TextsSpelled | src/scft-clt/client.cpp:19-110 | the other fixed texts of the client's log, letter by letter |
| ClientView.ConnectStep | src/scft-clt/client.cpp:16-28 | a new object is the new client of the system's join step |
| ClientView.PostStep | src/scft-clt/client.cpp:36-48 | on the object behind a connection, `SendMessage` does what the system's post step does |
| ClientView.RunPostedStep | src/scft-clt/client.cpp:39-47 | the same for the event loop taking up a posted message |
| ClientView.WrittenStep | src/scft-clt/client.cpp:54-63 | the same for a completed write |
| ClientView.WriteFailedStep | src/scft-clt/client.cpp:64-67 | the same for a failed write |
| ClientView.HeaderStep | src/scft-clt/client.cpp:75-86 | the same for a completed header read |
| ClientView.BodyStep | src/scft-clt/client.cpp:93-118 | the same for a completed body read, which also keeps log and files in line with the messages |
| ClientView.HeaderFailedStep | src/scft-clt/client.cpp:82-85 | the same for a failed header read |
| ClientView.BodyFailedStep | src/scft-clt/client.cpp:119-122 | the same for a failed body read |
| Client.ReportStarts | src/scft-clt/client.cpp:97-101 | every report, of whatever frame, begins with the good verdict if and only if the checksum fits |
| Client.BurstReported | src/scft-clt/client.cpp:97-101 | a frame damaged anywhere in its data by a burst of at most 32 bits is reported as bad, the undamaged one as good |
| ScrollingLog.Create | src/scrolling_log.cpp:9-17 | refuses exactly a width or height below 1 |
| ScrollingLog.ScrollingLog.AppendLog | src/scrolling_log.cpp:23-41 | after any calls the fields are those of wrapping the concatenated text and keeping its last height + 1 lines |
| ScrollingLog.ScrollingLog.AddLine | src/scrolling_log.cpp:43-49 | counts, appends, and drops the oldest line when height + 1 are already kept |
| ScrollingLog.WrapAppend | src/scrolling_log.cpp:26-39 | wrapping the longer text is one step of the character loop on the wrapped text |
| ScrollingLog.WrapConserves | src/scrolling_log.cpp:26-39 | all finished lines and the current one spell exactly the text |
| ScrollingLog.WrapShape | src/scrolling_log.cpp:28-38 | a finished line has width + 1 characters and no newline, or ends in its only newline |
| ScrollingLog.WrapCounts | src/scrolling_log.cpp:45 | lines are counted segment by segment: the ceiling of length over width + 1, and for an unfinished tail the floor of length less one |
| ScrollingLog.LogShows | src/scrolling_log.cpp:43-49 | the kept lines and the current one spell a suffix of the text, all of it while nothing was dropped, and the recorded count is that of the segments |
| Shell.SplitArgs | src/basic_shell.cpp:67-109 | the loop computes `Split`, and stops early where the source throws |
| Shell.SplitPositions | src/basic_shell.cpp:67-109 | fails exactly on a leading space; otherwise one argument more than separators, each the characters from 0x20 to 0x7E, quotes and unquoted spaces excepted, between two of them |
| Shell.SeparatorsExact | src/basic_shell.cpp:88-92 | the separators are exactly the unquoted spaces that do not follow a space |
| Shell.SplitPrint | src/basic_shell.cpp:67-109 | quoting arguments of any characters from 0x20 to 0x7E but the quote, and joining them by single spaces, is undone by splitting |
| Shell.SplitPrintSplit | src/basic_shell.cpp:67-109 | printing what a command was split into gives a command that splits the same way |
| Shell.SplitWords | src/basic_shell.cpp:88-92 | bare words are the arguments, however many spaces part them; spaces at the end make an empty last one |
| Shell.SplitDrops | src/basic_shell.cpp:96-104 | a control character or one beyond ASCII is as good as absent unless a space follows |

## Left out

- Sockets, resolver, acceptor and threads are steps of the relay or parameters; connecting is the join step and fails in no other way.
- Handlers that fire after a member was removed, and sockets that no longer know their endpoint, are excluded by the assumptions above.
- `get_crc32` on a file name: it throws away the stream result, so it does not agree with the stream form.
- CrcStream.GetCrc32: takes a stream that was opened and whose reads succeed, because the source's loop never ends on any other, as `CrcStream.GetCrc32Within` shows.
- Reading past the buffer for frames without NUL terminators; the accessors of the model are bounded by the buffer.
- Server.Room.Broadcast: what lies behind the buffer, and is logged with a string that does not end inside it, is left open.
- Client.Client.OnBody: records the file it writes as a name and contents, without a file system.
- RelayTheorems.OwnFrameSkipsOnlySender: says nothing about a client behind address translation, whose own idea of its endpoint differs from the server's.
- Message.Message.InitAsFile: takes the file's contents as a parameter; a file that cannot be opened, whose size the source then takes to be -1, is not modelled.
- The server's own start and stop lines in its log.
- Shell.SplitArgs: `isprint` is taken in the "C" locale.
- The size check of the sendfile command, which does not count the base name; `Codec.FileAccepted` gives the exact condition.
- `is_int`, `is_ipv4`, command tables, key handling, terminal output, help texts and build files: user interface or easy.
