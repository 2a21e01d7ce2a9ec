/** The client's object: it queues and writes its user's messages, reads the relayed ones,
    checks and logs them, and stores the files they carry. */
module Client {
  import opened Bytes
  import opened Wrappers
  import opened Crc32
  import opened CrcTheory
  import opened Frame
  import opened Codec
  import opened Framing
  import E = Endpoint
  import R = Relay
  import L = ScrollingLog

  // ----- What the log says about a message

  // "[CRC32 OK!]: ", "[CRC32 BAD]: ", "[FILE] ", " (bytes)\n", "]: "
  const CHECKSUM_OK: bytes := [0x5B, 0x43, 0x52, 0x43, 0x33, 0x32, 0x20, 0x4F, 0x4B, 0x21, 0x5D, 0x3A, 0x20]
  const CHECKSUM_BAD: bytes := [0x5B, 0x43, 0x52, 0x43, 0x33, 0x32, 0x20, 0x42, 0x41, 0x44, 0x5D, 0x3A, 0x20]
  const FILE_TAG: bytes := [0x5B, 0x46, 0x49, 0x4C, 0x45, 0x5D, 0x20]
  const BYTES_TAG: bytes := [0x20, 0x28, 0x62, 0x79, 0x74, 0x65, 0x73, 0x29, 0x0A]
  // "Connected to "
  const CONNECTED: bytes := [0x43, 0x6F, 0x6E, 0x6E, 0x65, 0x63, 0x74, 0x65, 0x64, 0x20, 0x74, 0x6F, 0x20]
  const AFTER_ORIGIN: bytes := [0x5D, 0x3A, 0x20]

  function Verdict(raw: bytes): (v: bytes)
    requires |raw| >= HEADER_SIZE
  {
    if ChecksumOk(raw) then CHECKSUM_OK else CHECKSUM_BAD
  }

  function OriginPart(raw: bytes): bytes
    requires |raw| >= HEADER_SIZE
  {
    [0x5B] + Origin(raw) + AFTER_ORIGIN
  }

  /** The line for a text or a stored file. */
  function Line(raw: bytes): bytes
    requires Readable(raw)
  {
    if MessageType(raw) == WRITE_FILE then FILE_TAG + String(raw) + [0x20] + Decimal(FileLen(raw)) + BYTES_TAG
    else if MessageType(raw) == TEXT then String(raw) + [L.NEWLINE]
    else []
  }

  /** What the client logs about a message. Where the source would read a string past the
      end of the buffer, the report ends. */
  function Report(raw: bytes): bytes
    requires |raw| >= HEADER_SIZE
  {
    Verdict(raw) + (if NUL in Data(raw) then OriginPart(raw) else []) + if Readable(raw) then Line(raw) else []
  }

  /** A file written by the client: its name and its contents. */
  datatype Stored = Stored(name: bytes, contents: bytes)

  function Stores(raw: bytes): seq<Stored> {
    if Readable(raw) && MessageType(raw) == WRITE_FILE then [Stored(String(raw), File(raw))] else []
  }

  /** The files written for a list of messages. */
  function AllStores(frames: seq<bytes>): seq<Stored> {
    if frames == [] then [] else AllStores(frames[..|frames| - 1]) + Stores(frames[|frames| - 1])
  }

  lemma AllStoresAppend(frames: seq<bytes>, f: bytes)
    ensures AllStores(frames + [f]) == AllStores(frames) + Stores(f)
  {
    hide Stores;
    assert (frames + [f])[..|frames|] == frames;
  }

  /** What a file name holds on disk after some files were written: the last one's contents. */
  function OnDisk(files: seq<Stored>, name: bytes): Option<bytes> {
    if files == [] then None
    else if files[|files| - 1].name == name then Some(files[|files| - 1].contents)
    else OnDisk(files[..|files| - 1], name)
  }

  /** Message `k` carries this file, and no later one carries a file of that name. */
  ghost predicate LastUnder(frames: seq<bytes>, k: nat, name: bytes, contents: bytes) {
    && k < |frames| && Stores(frames[k]) == [Stored(name, contents)]
    && forall m | k < m < |frames| :: NotUnder(frames[m], name)
  }

  ghost predicate NotUnder(raw: bytes, name: bytes) {
    forall file | file in Stores(raw) :: file.name != name
  }

  lemma OnDiskAppend(files: seq<Stored>, more: seq<Stored>, name: bytes)
    requires |more| <= 1
    ensures OnDisk(files + more, name) ==
            if more != [] && more[0].name == name then Some(more[0].contents) else OnDisk(files, name)
  {
    if more == [] {
      assert files + more == files;
    } else {
      assert (files + more)[..|files|] == files;
    }
  }

  lemma StoresOne(raw: bytes)
    ensures |Stores(raw)| <= 1
  {
  }

  /** A name holds the last file that came under it. */
  lemma {:induction false} OnDiskIsLast(frames: seq<bytes>, name: bytes, contents: bytes)
    ensures OnDisk(AllStores(frames), name) == Some(contents) <==> exists k: nat :: LastUnder(frames, k, name, contents)
    decreases |frames|
  {
    hide Stores;
    if frames == [] {
    } else {
      var n := |frames| - 1;
      var front, last := frames[..n], frames[n];
      OnDiskIsLast(front, name, contents);
      StoresOne(last);
      OnDiskAppend(AllStores(front), Stores(last), name);
      if NotUnder(last, name) {
        LastUnderFront(frames, front, name, contents);
      } else {
        LastIsUnder(frames, name, contents);
      }
    }
  }

  lemma LastUnderFront(frames: seq<bytes>, front: seq<bytes>, name: bytes, contents: bytes)
    requires frames != [] && front == frames[..|frames| - 1] && NotUnder(frames[|frames| - 1], name)
    ensures (exists k: nat :: LastUnder(frames, k, name, contents))
       <==> (exists k: nat :: LastUnder(front, k, name, contents))
  {
    hide Stores;
    forall k: nat ensures LastUnder(frames, k, name, contents) <==> LastUnder(front, k, name, contents) {
      if LastUnder(frames, k, name, contents) {
        assert Stored(name, contents) in Stores(frames[k]);
      }
    }
  }

  lemma LastIsUnder(frames: seq<bytes>, name: bytes, contents: bytes)
    requires frames != [] && !NotUnder(frames[|frames| - 1], name) && |Stores(frames[|frames| - 1])| <= 1
    ensures Stores(frames[|frames| - 1])[0].name == name
    ensures (exists k: nat :: LastUnder(frames, k, name, contents))
       <==> Stores(frames[|frames| - 1])[0].contents == contents
  {
    hide Stores;
    var n: nat := |frames| - 1;
    assert Stores(frames[n]) == [Stores(frames[n])[0]];
    if Stores(frames[n])[0].contents == contents {
      assert LastUnder(frames, n, name, contents);
    }
  }

  // ----- What a shared log shows

  /** The reports on a list of messages. */
  function AllReports(frames: seq<bytes>): (reports: seq<bytes>)
    requires forall f | f in frames :: |f| >= HEADER_SIZE
    ensures |reports| == |frames|
  {
    seq(|frames|, i requires 0 <= i < |frames| => Report(frames[i]))
  }

  /** The pieces occur in the text, in this order and apart from each other. */
  ghost predicate Occur(pieces: seq<bytes>, text: bytes)
    decreases |pieces|
  {
    if pieces == [] then true
    else
      var n := |pieces| - 1;
      exists i: nat, j: nat :: i <= j <= |text| && text[i..j] == pieces[n] && Occur(pieces[..n], text[..i])
  }

  /** Whatever else is appended to the text, the pieces still occur. */
  lemma OccurMore(pieces: seq<bytes>, text: bytes, more: bytes)
    requires Occur(pieces, text)
    ensures Occur(pieces, text + more)
  {
    if pieces != [] {
      var n := |pieces| - 1;
      var i: nat, j: nat :| i <= j <= |text| && text[i..j] == pieces[n] && Occur(pieces[..n], text[..i]);
      assert (text + more)[i..j] == text[i..j] && (text + more)[..i] == text[..i];
    }
  }

  lemma OccurNext(pieces: seq<bytes>, text: bytes, piece: bytes)
    requires Occur(pieces, text)
    ensures Occur(pieces + [piece], text + piece)
  {
    var i, j := |text|, |text + piece|;
    assert (text + piece)[i..j] == piece && (text + piece)[..i] == text;
    assert (pieces + [piece])[..|pieces|] == pieces;
  }

  lemma {:induction false} OccurEach(pieces: seq<bytes>, text: bytes, k: nat) returns (from: nat, upTo: nat)
    requires Occur(pieces, text) && k < |pieces|
    ensures from <= upTo <= |text| && text[from..upTo] == pieces[k]
    decreases |pieces|
  {
    var n := |pieces| - 1;
    var i: nat, j: nat :| i <= j <= |text| && text[i..j] == pieces[n] && Occur(pieces[..n], text[..i]);
    if k == n {
      from, upTo := i, j;
    } else {
      from, upTo := OccurEach(pieces[..n], text[..i], k);
      assert text[..i][from..upTo] == text[from..upTo];
    }
  }

  lemma {:induction false} OccurInOrder(pieces: seq<bytes>, text: bytes, k: nat, l: nat)
    returns (from: nat, upTo: nat, from': nat, upTo': nat)
    requires Occur(pieces, text) && k < l < |pieces|
    ensures from <= upTo <= from' <= upTo' <= |text|
    ensures text[from..upTo] == pieces[k] && text[from'..upTo'] == pieces[l]
    decreases |pieces|
  {
    var n := |pieces| - 1;
    var i: nat, j: nat :| i <= j <= |text| && text[i..j] == pieces[n] && Occur(pieces[..n], text[..i]);
    if l == n {
      from', upTo' := i, j;
      from, upTo := OccurEach(pieces[..n], text[..i], k);
      assert text[..i][from..upTo] == text[from..upTo];
    } else {
      from, upTo, from', upTo' := OccurInOrder(pieces[..n], text[..i], k, l);
      assert text[..i][from..upTo] == text[from..upTo] && text[..i][from'..upTo'] == text[from'..upTo'];
    }
  }

  lemma AllReportsAppend(frames: seq<bytes>, f: bytes)
    requires |f| >= HEADER_SIZE && forall g | g in frames :: |g| >= HEADER_SIZE
    ensures forall g | g in frames + [f] :: |g| >= HEADER_SIZE
    ensures AllReports(frames + [f]) == AllReports(frames) + [Report(f)]
  {
    hide Report;
  }

  /** The fixed texts of the log, spelled out. */
  lemma VerdictsSpelled()
    ensures Spells(CHECKSUM_OK, "[CRC32 OK!]: ") && Spells(CHECKSUM_BAD, "[CRC32 BAD]: ")
  {
  }

  lemma TextsSpelled()
    ensures Spells(FILE_TAG, "[FILE] ") && Spells(BYTES_TAG, " (bytes)\n") && Spells(AFTER_ORIGIN, "]: ")
    ensures Spells(CONNECTED, "Connected to ") && Spells([0x5B], "[") && Spells([0x3A], ":") && Spells([0x20], " ")
  {
  }

  lemma VerdictsDiffer()
    ensures |CHECKSUM_OK| == |CHECKSUM_BAD| && CHECKSUM_OK != CHECKSUM_BAD
  {
    assert CHECKSUM_OK[7] != CHECKSUM_BAD[7];
  }

  /** A frame whose data part suffered a burst of at most 32 bits is reported as bad, whatever
      the burst hit, and the frame as encoded as good. */
  lemma BurstReported(kind: byte, origin: bytes, stringData: bytes, received: bytes, s: nat, w: nat)
    requires var raw := Encode(kind, origin, stringData);
             && |received| == |raw| && received[..DATA_OFFSET] == raw[..DATA_OFFSET]
             && DifferInWindow(Bits(Data(raw)), Bits(Data(received)), s, w) && w <= 32
    ensures Report(Encode(kind, origin, stringData))[..|CHECKSUM_OK|] == CHECKSUM_OK
    ensures |Report(received)| >= |CHECKSUM_OK|
    ensures Report(received)[..|CHECKSUM_OK|] ==
            if received == Encode(kind, origin, stringData) then CHECKSUM_OK else CHECKSUM_BAD
  {
    hide *;
    BurstRejected(kind, origin, stringData, received, s, w);
    ReportStarts(Encode(kind, origin, stringData));
    ReportStarts(received);
  }

  lemma ReportStarts(raw: bytes)
    requires |raw| >= HEADER_SIZE
    ensures |Report(raw)| >= |CHECKSUM_OK|
    ensures Report(raw)[..|CHECKSUM_OK|] == if ChecksumOk(raw) then CHECKSUM_OK else CHECKSUM_BAD
  {
    hide Readable, ChecksumOk, OriginPart, Line, Data;
    VerdictsDiffer();
  }

  /** What is logged and stored for a message laid out in any way that can be read, whether
      or not its checksum fits: the checksum decides the verdict and nothing else. */
  lemma AnyReport(raw: bytes, origin: bytes, str: bytes, rest: bytes)
    requires |raw| >= 10 && raw[10..] == origin + [0] + (str + [0] + rest)
    requires NoNul(origin) && NoNul(str)
    requires NatOf(raw[1]) == |origin| + 1 && StringDataLen(raw) == |str| + 1 + |rest|
    ensures raw[0] == 2 ==> Stores(raw) == [Stored(str, rest)]
    ensures raw[0] != 2 ==> Stores(raw) == []
    ensures raw[0] == 2 ==>
              Report(raw) == (if ChecksumOk(raw) then CHECKSUM_OK else CHECKSUM_BAD)
                             + ([0x5B] + origin + AFTER_ORIGIN)
                             + (FILE_TAG + str + [0x20] + Decimal(|rest|) + BYTES_TAG)
    ensures raw[0] == 1 ==>
              Report(raw) == (if ChecksumOk(raw) then CHECKSUM_OK else CHECKSUM_BAD)
                             + ([0x5B] + origin + AFTER_ORIGIN) + (str + [0x0A])
  {
    AnyReadBack(raw, origin, str, rest);
    ReadableOrigin(raw);
    hide Readable, Origin, String, File, FileLen, StringDataLen, OriginLen, ChecksumOk, Decimal, NatOf, CHECKSUM_OK,
         CHECKSUM_BAD, FILE_TAG, BYTES_TAG, AFTER_ORIGIN, NoNul;
  }

  /** Where the strings do not end inside the buffer, nothing is stored, and the report ends
      with the verdict, or with the origin if that ends inside. */
  lemma CutReport(raw: bytes)
    requires |raw| >= 10 && |raw| == 10 + NatOf(raw[1]) + StringDataLen(raw) && 0 !in raw[10 + NatOf(raw[1])..]
    ensures Stores(raw) == []
    ensures 0 !in raw[10..] ==> Report(raw) == if ChecksumOk(raw) then CHECKSUM_OK else CHECKSUM_BAD
    ensures 0 in raw[10..] ==>
              Report(raw) == (if ChecksumOk(raw) then CHECKSUM_OK else CHECKSUM_BAD)
                             + ([0x5B] + Origin(raw) + AFTER_ORIGIN)
  {
    hide Origin, String, File, FileLen, StringDataLen, ChecksumOk, Decimal, NatOf, CHECKSUM_OK, CHECKSUM_BAD, FILE_TAG,
         BYTES_TAG, AFTER_ORIGIN;
  }

  /** The log line of an encoded file tells its origin, name and size. */
  lemma FileReport(origin: bytes, name: bytes, file: bytes)
    requires NoNul(origin) && NoNul(name)
    requires |origin| <= 254 && |name| + 1 + |file| < 0x1_0000_0000
    ensures Report(FileFrame(origin, name, file)) ==
            CHECKSUM_OK + [0x5B] + origin + AFTER_ORIGIN + FILE_TAG + name + [0x20] + Decimal(|file|) + BYTES_TAG
    ensures Stores(FileFrame(origin, name, file)) == [Stored(name, file)]
  {
    hide *;
    var raw := FileFrame(origin, name, file);
    FileRoundTrip(origin, name, file);
    ReportOf(raw);
    JoinFour(CHECKSUM_OK, [0x5B], origin, AFTER_ORIGIN, FILE_TAG + name + [0x20] + Decimal(|file|) + BYTES_TAG);
    JoinFive(CHECKSUM_OK + [0x5B] + origin + AFTER_ORIGIN, FILE_TAG, name, [0x20], Decimal(|file|), BYTES_TAG);
    assert TEXT != WRITE_FILE by { DistinctKinds(); }
  }

  lemma TextReport(origin: bytes, text: bytes)
    requires NoNul(origin) && NoNul(text)
    requires |origin| <= 254 && |text| + 1 < 0x1_0000_0000
    ensures Report(TextFrame(origin, text)) == CHECKSUM_OK + [0x5B] + origin + AFTER_ORIGIN + text + [0x0A]
    ensures Stores(TextFrame(origin, text)) == []
  {
    assert L.NEWLINE == 0x0A;
    hide *;
    var raw := TextFrame(origin, text);
    TextRoundTrip(origin, text);
    ReportOf(raw);
    JoinFour(CHECKSUM_OK, [0x5B], origin, AFTER_ORIGIN, text + [L.NEWLINE]);
    JoinTwo(CHECKSUM_OK + [0x5B] + origin + AFTER_ORIGIN, text, [L.NEWLINE]);
    assert TEXT != WRITE_FILE by { DistinctKinds(); }
  }

  /** The report of a well-formed message with a fitting checksum, part by part. */
  lemma ReportOf(raw: bytes)
    requires WellFormed(raw) && Checksum(raw) == Crc(CRC_START, Data(raw))
    ensures DATA_OFFSET + OriginLen(raw) <= |raw| && Readable(raw)
    ensures Report(raw) == CHECKSUM_OK + ([0x5B] + Origin(raw) + AFTER_ORIGIN) +
            if MessageType(raw) == WRITE_FILE then FILE_TAG + String(raw) + [0x20] + Decimal(FileLen(raw)) + BYTES_TAG
            else if MessageType(raw) == TEXT then String(raw) + [L.NEWLINE] else []
    ensures Stores(raw) == if MessageType(raw) == WRITE_FILE then [Stored(String(raw), File(raw))] else []
  {
    hide Checksum, Crc, Origin, String, File, FileLen, Decimal, MessageType, StringDataLen, CHECKSUM_OK, FILE_TAG,
         BYTES_TAG, AFTER_ORIGIN, TEXT, WRITE_FILE;
    assert Data(raw)[OriginLen(raw) - 1] == NUL;
  }

  lemma JoinTwo(a: bytes, b: bytes, c: bytes)
    ensures a + (b + c) == a + b + c
  {
  }

  lemma JoinFour(a: bytes, b: bytes, c: bytes, d: bytes, e: bytes)
    ensures a + (b + c + d) + e == a + b + c + d + e
  {
  }

  lemma JoinFive(a: bytes, b: bytes, c: bytes, d: bytes, e: bytes, f: bytes)
    ensures a + (b + c + d + e + f) == a + b + c + d + e + f
  {
  }

  lemma Reported(frames: seq<bytes>, text: bytes, raw: bytes)
    requires |raw| >= HEADER_SIZE && forall f | f in frames :: |f| >= HEADER_SIZE
    requires Occur(AllReports(frames), text)
    ensures forall f | f in frames + [raw] :: |f| >= HEADER_SIZE
    ensures Occur(AllReports(frames + [raw]), text + Report(raw))
    ensures Occur(AllReports(frames), text + Report(raw))
  {
    hide *;
    AllReportsAppend(frames, raw);
    OccurNext(AllReports(frames), text, Report(raw));
    OccurMore(AllReports(frames), text, Report(raw));
  }

  /** What the body handler needs to know about an accepted message. */
  lemma ReportParts(raw: bytes)
    requires Accepted(raw)
    ensures DataLen(raw) == |Data(raw)| && Data(raw)[..DataLen(raw)] == Data(raw)
    ensures MessageType(raw) == WRITE_FILE || MessageType(raw) == TEXT
    ensures Verdict(raw) == if Checksum(raw) == Crc(CRC_START, Data(raw)) then CHECKSUM_OK else CHECKSUM_BAD
    ensures Readable(raw) ==> NUL in Data(raw)
  {
    hide Verdict, Checksum, Crc, StringDataLen, OriginLen, Readable;
    VerdictIs(raw);
    if Readable(raw) {
      ReadableOrigin(raw);
    }
  }

  /** The report grows part by part. */
  lemma ReportSums(raw: bytes, t: bytes)
    requires |raw| >= HEADER_SIZE && (Readable(raw) ==> NUL in Data(raw))
    ensures NUL !in Data(raw) ==> t + Verdict(raw) == t + Report(raw)
    ensures NUL in Data(raw) && !Readable(raw) ==> t + Verdict(raw) + OriginPart(raw) == t + Report(raw)
    ensures Readable(raw) ==> t + Verdict(raw) + OriginPart(raw) + Line(raw) == t + Report(raw)
  {
    hide Verdict, OriginPart, Line, Readable, Data, NUL;
  }

  lemma VerdictIs(raw: bytes)
    requires |raw| >= HEADER_SIZE
    ensures Verdict(raw) == if Checksum(raw) == Crc(CRC_START, Data(raw)) then CHECKSUM_OK else CHECKSUM_BAD
  {
    hide Checksum, Crc, Data;
  }

  lemma ReadableOrigin(raw: bytes)
    requires Readable(raw)
    ensures NUL in Data(raw)
  {
    hide StringDataLen;
    var i :| 0 <= i < |raw[DATA_OFFSET + OriginLen(raw)..]| && raw[DATA_OFFSET + OriginLen(raw)..][i] == NUL;
    assert Data(raw)[OriginLen(raw) + i] == NUL;
  }

  // ----- The client

  /** The fields after the queue stand for the event loop and the socket. */
  class Client {
    const log: L.ScrollingLog
    var raw: bytes
    var queue: seq<bytes>

    var open: bool
    var posted: seq<bytes>
    var inBody: bool
    var got: nat
    var closed: bool
    var writes: nat
    var sent: nat
    var failed: bool
    var files: seq<Stored>
    ghost var frames: seq<bytes>
    ghost var done: seq<bytes>
    ghost var sentAll: seq<bytes>

    ghost function Abs(): R.Client
      reads this
    {
      var writer := E.Writer(queue, writes, sent, failed, done);
      R.Client(open, posted, writer, Reader(raw, inBody, got, closed, frames), sentAll)
    }

    /** The files written are those of the messages read, and the log holds the reports on
        these messages, in order, whatever else the program has logged. */
    ghost predicate Valid()
      reads this`files, this`frames, log`text
    {
      && files == AllStores(frames)
      && (forall f | f in frames :: |f| >= HEADER_SIZE)
      && Occur(AllReports(frames), log.text)
    }

    /** The connection is made: say so, and start reading a header. */
    constructor (log: L.ScrollingLog, address: bytes, port: nat)
      requires log.Valid()
      modifies log
      ensures this.log == log && log.Valid()
      ensures log.text == old(log.text) + (CONNECTED + address + [0x3A] + Decimal(port) + [0x0A])
      ensures Valid() && Abs() == R.NEW_CLIENT && files == []
    {
      this.log := log;
      raw := Resize([], HEADER_SIZE);
      open, posted, queue, writes, sent, failed, done := true, [], [], 0, 0, false, [];
      inBody, got, closed, frames, files, sentAll := false, 0, false, [], [], [];
      new;
      log.AppendLog(CONNECTED + address + [0x3A] + Decimal(port) + [0x0A]);
      HeaderReader();
    }

    method HeaderReader()
      modifies this`inBody, this`got
      ensures Abs() == old(Abs()).(reader := old(Abs()).reader.(inBody := false, got := 0))
    {
      inBody, got := false, 0;
    }

    method DataBufferReader()
      modifies this`inBody, this`got
      ensures Abs() == old(Abs()).(reader := old(Abs()).reader.(inBody := true, got := 0))
    {
      inBody, got := true, 0;
    }

    /** The user's call only hands the message to the event loop. */
    method SendMessage(f: bytes)
      modifies this`posted, this`sentAll
      ensures Abs() == old(Abs()).(posted := old(Abs()).posted + [f], sentAll := old(Abs()).sentAll + [f])
    {
      posted, sentAll := posted + [f], sentAll + [f];
    }

    /** The event loop gets to the oldest message that was handed to it. */
    method RunPosted()
      requires posted != []
      modifies this`posted, this`queue, this`writes, this`sent
      ensures Abs() == old(Abs()).(posted := old(posted)[1..], writer := old(Abs()).writer.Send(old(posted)[0]))
    {
      var f := posted[0];
      posted := posted[1..];
      var writeInProgress := queue != [];
      queue := queue + [f];
      if !writeInProgress {
        FlushMessages();
      }
    }

    method FlushMessages()
      requires queue != []
      modifies this`writes, this`sent
      ensures Abs() == old(Abs()).(writer := old(Abs()).writer.Flush())
    {
      writes, sent := writes + 1, 0;
    }

    /** A write has ended: drop the front and write the next one, or close. */
    method OnWritten(ok: bool)
      requires queue != [] && writes > 0
      modifies this`queue, this`writes, this`sent, this`failed, this`open, this`done
      ensures ok ==> Abs() == old(Abs()).(writer := old(Abs()).writer.Written())
      ensures !ok ==> Abs() == old(Abs()).(writer := old(Abs()).writer.WriteFailed(), open := false)
    {
      if ok {
        done := done + [queue[0]];
        queue, writes, sent := queue[1..], writes - 1, 0;
        if queue != [] {
          FlushMessages();
        }
      } else {
        writes, failed, open := writes - 1, true, false;
      }
    }

    /** The header read has ended. */
    method OnHeader(ok: bool)
      requires |raw| >= HEADER_SIZE && !inBody && !closed
      modifies this`raw, this`inBody, this`got, this`closed, this`open
      ensures ok ==> var r := old(Abs()).reader.Complete();
                     Abs() == old(Abs()).(reader := r, open := old(open) && !r.closed)
      ensures !ok ==> Abs() == old(Abs()).(reader := old(Abs()).reader.Fail(), open := false)
    {
      hide BadHeader, DataLen, Resize;
      if ok && !BadHeader(raw) {
        raw := Resize(raw, HEADER_SIZE + DataLen(raw));
        DataBufferReader();
      } else {
        closed, open := true, false;
      }
    }

    /** Checks the message that has arrived, and logs the outcome. */
    method LogVerdict()
      requires log.Valid() && Accepted(raw)
      modifies log
      ensures log.Valid() && log.text == old(log.text) + Verdict(raw)
    {
      hide Readable, Verdict, MessageType, Crc, Checksum, Data, DataLen, OriginLen, CHECKSUM_OK, CHECKSUM_BAD, NUL,
           BadHeader, L.ScrollingLog.Valid;
      ReportParts(raw);
      var checksum := GetCrc32(Data(raw), DataLen(raw));
      if checksum == Checksum(raw) {
        log.AppendLog(CHECKSUM_OK);
      } else {
        log.AppendLog(CHECKSUM_BAD);
      }
    }

    /** Stores the file of the message or shows its text, and logs that. */
    method StoreAndLog()
      requires log.Valid() && Readable(raw)
      modifies this`files, log
      ensures log.Valid() && log.text == old(log.text) + Line(raw)
      ensures files == old(files) + Stores(raw)
    {
      hide Readable, MessageType, String, File, FileLen, Decimal, FILE_TAG, BYTES_TAG, TEXT, WRITE_FILE, L.NEWLINE,
           L.ScrollingLog.Valid;
      StringInside(raw);
      if MessageType(raw) == WRITE_FILE {
        files := files + [Stored(String(raw), File(raw))];
        log.AppendLog(FILE_TAG + String(raw) + [0x20] + Decimal(FileLen(raw)) + BYTES_TAG);
      } else if MessageType(raw) == TEXT {
        log.AppendLog(String(raw) + [L.NEWLINE]);
      }
    }

    /** The body read has ended: check the message, log it, store its file, and read the
        next header. A message whose strings do not end inside the buffer is logged up to
        the string that does not, and `inside` is false: there the source reads on. */
    method OnBody(ok: bool) returns (inside: bool)
      requires Valid() && log.Valid() && inBody && !closed && |raw| >= HEADER_SIZE && (ok ==> Accepted(raw))
      modifies this`inBody, this`got, this`closed, this`open, this`files, this`frames, log
      ensures Valid() && log.Valid() && raw == old(raw)
      ensures inside <==> !ok || Readable(raw)
      ensures log.text == old(log.text) + if ok then Report(raw) else []
      ensures ok && inside ==> Abs() == old(Abs()).(reader := old(Abs()).reader.Complete())
                               && files == old(files) + Stores(raw)
      ensures ok && !inside ==> Abs() == old(Abs()) && files == old(files)
      ensures !ok ==> Abs() == old(Abs()).(reader := old(Abs()).reader.Fail(), open := false) && files == old(files)
    {
      hide Readable, OriginPart, Line, String, File, Report, Stores, AllStores, AllReports, Occur, Verdict, MessageType,
           Crc, Checksum, Data, DataLen, Accepted, OriginLen, CHECKSUM_OK, CHECKSUM_BAD, TEXT, WRITE_FILE, NUL,
           L.ScrollingLog.Valid, DATA_OFFSET, HEADER_SIZE;
      if !ok {
        closed, open := true, false;
        return true;
      }
      ReportParts(raw);
      ReportSums(raw, log.text);
      Reported(frames, log.text, raw);
      AllStoresAppend(frames, raw);
      LogVerdict();
      if NUL !in Data(raw) {
        return false;
      }
      log.AppendLog(OriginPart(raw));
      if !Readable(raw) {
        return false;
      }
      StoreAndLog();
      frames := frames + [raw];
      HeaderReader();
      return true;
    }
  }

  lemma StringInside(raw: bytes)
    requires Readable(raw)
    ensures |raw| >= HEADER_SIZE && DATA_OFFSET + OriginLen(raw) <= |raw|
  {
  }
}
