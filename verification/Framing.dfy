/** The two-state reader that both ends run over one reused buffer, and the frames
    that a byte stream stands for. */
module Framing {
  import opened Bytes
  import opened Frame
  import opened Codec

  /** A frame whose header the reader takes, of the length that header announces. */
  ghost predicate Accepted(f: bytes) {
    |f| >= HEADER_SIZE && !BadHeader(f) && |f| == HEADER_SIZE + DataLen(f)
  }

  /** An encoded text is accepted exactly when it fits the origin length and the limit. */
  lemma TextFrameAccepted(origin: bytes, text: bytes)
    ensures Accepted(TextFrame(origin, text)) <==> |origin| <= 254 && |text| + 1 <= MAX_DATA_LENGTH
  {
    TextAccepted(origin, text);
    EncodeHonest(TEXT, origin, text + [NUL]);
    hide Encode, BadHeader, DataLen;
  }

  lemma FileFrameAccepted(origin: bytes, name: bytes, file: bytes)
    ensures Accepted(FileFrame(origin, name, file)) <==>
            |origin| <= 254 && |name| + 1 + |file| <= MAX_DATA_LENGTH
  {
    FileAccepted(origin, name, file);
    EncodeHonest(WRITE_FILE, origin, name + [NUL] + file);
    hide Encode, BadHeader, DataLen;
  }

  ghost predicate AllAccepted(fs: seq<bytes>) {
    forall f | f in fs :: Accepted(f)
  }

  lemma SameHeader(a: bytes, b: bytes)
    requires |a| >= HEADER_SIZE && |b| >= HEADER_SIZE && a[..HEADER_SIZE] == b[..HEADER_SIZE]
    ensures BadHeader(a) == BadHeader(b) && DataLen(a) == DataLen(b)
  {
    hide FromLittleEndian, NatOf;
    assert a[0] == a[..HEADER_SIZE][0] && a[1] == a[..HEADER_SIZE][1];
    assert b[0] == b[..HEADER_SIZE][0] && b[1] == b[..HEADER_SIZE][1];
    assert a[2..6] == a[..HEADER_SIZE][2..6] && b[2..6] == b[..HEADER_SIZE][2..6];
  }

  // ----- The frames of a byte stream

  function Frames(s: bytes): (fs: seq<bytes>)
  {
    if |s| < HEADER_SIZE || BadHeader(s) || |s| < HEADER_SIZE + DataLen(s) then []
    else [s[..HEADER_SIZE + DataLen(s)]] + Frames(s[HEADER_SIZE + DataLen(s)..])
  }

  lemma FirstFrame(f: bytes, rest: bytes)
    requires Accepted(f)
    ensures Frames(f + rest) == [f] + Frames(rest)
  {
    hide BadHeader, DataLen;
    SameHeader(f, f + rest);
    assert (f + rest)[..|f|] == f && (f + rest)[|f|..] == rest;
  }

  /** Accepted frames written one after the other are read back one by one. */
  lemma {:induction false} FramesOfConcat(fs: seq<bytes>, rest: bytes)
    requires AllAccepted(fs)
    ensures Frames(Concat(fs) + rest) == fs + Frames(rest)
  {
    hide Frames, Accepted;
    if fs == [] {
      assert Concat(fs) + rest == rest;
    } else {
      FirstFrame(fs[0], Concat(fs[1..]) + rest);
      FramesOfConcat(fs[1..], rest);
      assert Concat(fs) + rest == fs[0] + (Concat(fs[1..]) + rest);
    }
  }

  /** Accepted frames at the head of a list are read as sent, whatever follows. */
  lemma FramesOfHead(fs: seq<bytes>, n: nat)
    requires n <= |fs| && AllAccepted(fs[..n])
    ensures fs[..n] <= Frames(Concat(fs))
  {
    hide Frames, Accepted;
    assert fs == fs[..n] + fs[n..];
    ConcatAppend(fs[..n], fs[n..]);
    FramesOfConcat(fs[..n], Concat(fs[n..]));
  }

  /** Accepted frames are uniquely decodable. */
  lemma UniquelyDecodable(fs: seq<bytes>, gs: seq<bytes>)
    requires AllAccepted(fs) && AllAccepted(gs)
    ensures Concat(fs) == Concat(gs) <==> fs == gs
  {
    hide Frames, Accepted;
    FramesOfAccepted(fs);
    FramesOfAccepted(gs);
  }

  /** A frame sent alone is read as itself exactly when it is accepted. */
  lemma AloneDecoded(f: bytes)
    ensures Frames(f) == [f] <==> Accepted(f)
  {
    hide BadHeader, DataLen;
    if Accepted(f) {
      FramesOfConcat([f], []);
      assert Concat([f]) + [] == f + Concat([]) == f;
    }
    if Frames(f) != [] {
      assert |Frames(f)[0]| == HEADER_SIZE + DataLen(f);
    }
  }

  /** No accepted frame is the beginning of another. */
  lemma PrefixFree(f: bytes, g: bytes)
    requires Accepted(f) && Accepted(g) && f <= g
    ensures f == g
  {
    hide BadHeader, DataLen;
    SameHeader(f, g);
  }

  /** More bytes never change the frames already read. */
  lemma {:induction false} FramesMonotone(s: bytes, more: bytes)
    ensures Frames(s) <= Frames(s + more)
    decreases |s|
  {
    hide BadHeader, DataLen;
    if |s| < HEADER_SIZE || BadHeader(s) || |s| < HEADER_SIZE + DataLen(s) {
    } else {
      var n := HEADER_SIZE + DataLen(s);
      SameHeader(s, s + more);
      FramesMonotone(s[n..], more);
      assert (s + more)[..n] == s[..n] && (s + more)[n..] == s[n..] + more;
    }
  }

  /** How far a reader gets in a list of honest frames: up to the first refused one. */
  ghost function AcceptedPrefix(fs: seq<bytes>): (p: seq<bytes>)
    ensures p <= fs && AllAccepted(p)
  {
    if fs == [] || !Accepted(fs[0]) then [] else [fs[0]] + AcceptedPrefix(fs[1..])
  }

  /** What follows the accepted frames at the head of the list. */
  ghost function Remainder(fs: seq<bytes>): (rest: seq<bytes>)
    ensures fs == AcceptedPrefix(fs) + rest
    ensures rest != [] ==> !Accepted(rest[0])
    decreases |fs|
  {
    if fs == [] || !Accepted(fs[0]) then fs else Remainder(fs[1..])
  }

  /** The reader stays in step with the sender: the first frame that is not accepted, if
      any, is refused or announces more bytes than follow. */
  ghost predicate InStep(fs: seq<bytes>)
    requires forall f | f in fs :: |f| >= HEADER_SIZE
  {
    var rest := Remainder(fs);
    rest != [] ==> BadHeader(rest[0]) || HEADER_SIZE + DataLen(rest[0]) > |Concat(rest)|
  }

  /** What is read from a list of frames of any kind begins with the list exactly when the
      reader stays in step, and is then the accepted frames at its head. */
  lemma FramesInStep(fs: seq<bytes>)
    requires forall f | f in fs :: |f| >= HEADER_SIZE
    ensures Frames(Concat(fs)) <= fs <==> InStep(fs)
    ensures InStep(fs) ==> Frames(Concat(fs)) == AcceptedPrefix(fs)
  {
    hide BadHeader, DataLen, Accepted, Frames, AcceptedPrefix;
    var head, rest := AcceptedPrefix(fs), Remainder(fs);
    ConcatAppend(head, rest);
    FramesOfConcat(head, Concat(rest));
    FramesOfRemainder(rest);
    assert head + [] == head;
    if !InStep(fs) {
      assert Frames(Concat(fs))[|head|] == Frames(Concat(rest))[0];
      assert fs[|head|] == rest[0];
    }
  }

  /** The first frame read after the accepted ones is not the one that was sent. */
  lemma FramesOfRemainder(rest: seq<bytes>)
    requires forall f | f in rest :: |f| >= HEADER_SIZE
    requires rest != [] ==> !Accepted(rest[0])
    ensures Frames(Concat(rest)) == [] <==>
            rest == [] || BadHeader(rest[0]) || HEADER_SIZE + DataLen(rest[0]) > |Concat(rest)|
    ensures Frames(Concat(rest)) != [] ==> rest != [] && Frames(Concat(rest))[0] != rest[0]
  {
    hide BadHeader, DataLen;
    if rest != [] {
      SameHeader(rest[0], Concat(rest));
    }
  }

  lemma HonestInStep(fs: seq<bytes>)
    requires forall f | f in fs :: Honest(f)
    ensures forall f | f in fs :: |f| >= HEADER_SIZE
    ensures InStep(fs)
  {
    hide BadHeader, DataLen, Concat, AcceptedPrefix;
    var rest := Remainder(fs);
    if rest != [] {
      assert rest[0] in fs;
    }
  }

  /** One encoded frame alone keeps the reader in step exactly when its header is refused or
      none of its length fields wrapped. */
  lemma EncodedInStep(kind: byte, origin: bytes, stringData: bytes)
    ensures var f := Encode(kind, origin, stringData);
            InStep([f]) <==> BadHeader(f) || (|origin| <= 254 && |stringData| < 0x1_0000_0000)
  {
    var f := Encode(kind, origin, stringData);
    EncodeFields(kind, origin, stringData);
    EncodeHonest(kind, origin, stringData);
    hide Encode, BadHeader, StringDataLen, OriginLen, Checksum, AcceptedPrefix;
    assert Concat([f]) == f + Concat([]) == f;
    assert DataLen(f) <= |f| - HEADER_SIZE;
    RemainderOfOne(f);
  }

  lemma RemainderOfOne(f: bytes)
    ensures Remainder([f]) == if Accepted(f) then [] else [f]
  {
    hide Accepted;
    assert [f][1..] == [];
  }

  /** A text under an origin of 255 bytes puts the reader out of step: it is read as a frame
      that nobody sent. The encoder takes any origin; those of the program, rendered socket
      endpoints, are shorter. */
  lemma LongOriginOutOfStep()
    ensures var f := TextFrame(seq(255, i => 0x61), []);
            !InStep([f]) && !(Frames(Concat([f])) <= [f])
  {
    var origin: bytes := seq(255, i => 0x61);
    EncodedInStep(TEXT, origin, [] + [NUL]);
    TextAccepted(origin, []);
    FramesInStep([TextFrame(origin, [])]);
    hide Encode, BadHeader, InStep, Frames;
  }

  lemma FramesOfHonest(fs: seq<bytes>)
    requires forall f | f in fs :: Honest(f)
    ensures Frames(Concat(fs)) == AcceptedPrefix(fs)
  {
    hide Honest, InStep, Frames, AcceptedPrefix;
    HonestInStep(fs);
    FramesInStep(fs);
  }

  /** What has been read from the beginning of a stream is a prefix of what will be. */
  lemma FramesOfPrefix(s: bytes, whole: bytes)
    requires s <= whole
    ensures Frames(s) <= Frames(whole)
  {
    hide Frames;
    FramesMonotone(s, whole[|s|..]);
    assert s + whole[|s|..] == whole;
  }

  lemma FramesOfAccepted(fs: seq<bytes>)
    requires AllAccepted(fs)
    ensures Frames(Concat(fs)) == fs
  {
    assert Frames([]) == [];
    hide Frames, Accepted;
    FramesOfConcat(fs, []);
    assert Concat(fs) + [] == Concat(fs) && fs + [] == fs;
  }

  // ----- The reader

  /** `raw` is the reused message buffer, `got` how much of the running read it holds,
      `frames` the messages handed on so far. */
  datatype Reader = Reader(raw: bytes, inBody: bool, got: nat, closed: bool, frames: seq<bytes>) {

    /** Where the running read writes. */
    function Offset(): nat {
      if inBody then DATA_OFFSET else 0
    }

    /** How many bytes the running read asks for. */
    function Wanted(): nat
      requires |raw| >= HEADER_SIZE
    {
      if inBody then DataLen(raw) else HEADER_SIZE
    }

    ghost predicate Valid() {
      && |raw| >= HEADER_SIZE
      && got <= Wanted()
      && (inBody ==> Accepted(raw))
      && AllAccepted(frames)
    }

    predicate Ready()
      requires |raw| >= HEADER_SIZE
    {
      !closed && got == Wanted()
    }

    /** Bytes of the frame that is being read. */
    function Partial(): bytes
      requires |raw| >= Offset() + got
    {
      raw[..Offset() + got]
    }

    /** Everything the reader has consumed. */
    function Stream(): bytes
      requires |raw| >= Offset() + got
    {
      Concat(frames) + Partial()
    }

    /** Some bytes of the running read arrive. */
    function Receive(chunk: bytes): Reader
      requires |raw| >= HEADER_SIZE && got + |chunk| <= Wanted()
      requires inBody ==> |raw| == HEADER_SIZE + DataLen(raw)
    {
      this.(raw := Write(raw, Offset() + got, chunk), got := got + |chunk|)
    }

    /** The completion handler: check the header and size the buffer for the body, or
        hand the message on and go back to the header. */
    function Complete(): Reader
      requires |raw| >= HEADER_SIZE
    {
      if inBody then this.(inBody := false, got := 0, frames := frames + [raw])
      else if BadHeader(raw) then this.(closed := true)
      else this.(raw := Resize(raw, HEADER_SIZE + DataLen(raw)), inBody := true, got := 0)
    }

    function Fail(): Reader {
      this.(closed := true)
    }
  }

  function NewReader(): Reader {
    Reader(Resize([], HEADER_SIZE), false, 0, false, [])
  }

  lemma NewReaderValid()
    ensures NewReader().Valid() && NewReader().Stream() == []
  {
    hide BadHeader, DataLen;
  }

  lemma WriteWithin(s: bytes, at: nat, data: bytes, n: nat)
    requires at + |data| <= |s| && n <= at
    ensures Write(s, at, data)[..at + |data|] == s[..at] + data
    ensures Write(s, at, data)[..n] == s[..n]
  {
  }

  lemma ReceiveKeepsValid(r: Reader, chunk: bytes)
    requires r.Valid() && !r.closed && r.got + |chunk| <= r.Wanted()
    ensures r.Receive(chunk).Valid()
    ensures r.Receive(chunk).Stream() == r.Stream() + chunk
  {
    hide BadHeader, DataLen, Write, Concat;
    WriteWithin(r.raw, r.Offset() + r.got, chunk, r.Offset());
    var r' := r.Receive(chunk);
    if r.inBody {
      assert r'.raw[..HEADER_SIZE] == r.raw[..HEADER_SIZE];
      SameHeader(r'.raw, r.raw);
    }
  }

  lemma CompleteKeepsValid(r: Reader)
    requires r.Valid() && r.Ready()
    ensures r.Complete().Valid()
    ensures r.Complete().Stream() == r.Stream()
    ensures r.Complete().frames == if r.inBody then r.frames + [r.raw] else r.frames
  {
    hide BadHeader, DataLen;
    var r' := r.Complete();
    if r.inBody {
      ConcatAppend(r.frames, [r.raw]);
      assert r.raw[..|r.raw|] == r.raw;
      assert Concat([r.raw]) == r.raw + [] == r.raw;
      assert r'.raw[..0] == [];
    } else if !BadHeader(r.raw) {
      assert r'.raw[..HEADER_SIZE] == r.raw[..HEADER_SIZE];
      SameHeader(r'.raw, r.raw);
    }
  }

  /** What the reader has handed on is what the stream stands for, except for one
      complete frame whose handler has not run yet. No stale byte of the reused
      buffer is ever part of it. */
  lemma ReaderDecodes(r: Reader)
    requires r.Valid()
    ensures Frames(r.Stream()) == r.frames + (if Accepted(r.Partial()) then [r.Partial()] else [])
  {
    PartialDecodes(r);
    hide BadHeader, DataLen, Frames;
    FramesOfConcat(r.frames, r.Partial());
  }

  lemma PartialDecodes(r: Reader)
    requires r.Valid()
    ensures Frames(r.Partial()) == if Accepted(r.Partial()) then [r.Partial()] else []
  {
    hide BadHeader, DataLen;
    var p := r.Partial();
    if |p| >= HEADER_SIZE {
      assert p[..HEADER_SIZE] == r.raw[..HEADER_SIZE];
      SameHeader(p, r.raw);
      if Accepted(p) {
        FirstFrame(p, []);
        assert p + [] == p && Frames([]) == [];
      }
    }
  }

  // ----- Any segmentation

  /** The reader gave up at a refused header. */
  ghost predicate Refused(r: Reader)
    requires r.Valid()
  {
    r.closed && !r.inBody && r.got == HEADER_SIZE && BadHeader(r.raw)
  }

  ghost function Pending(r: Reader): nat
    requires r.Valid()
  {
    if !r.Ready() then 0 else if r.inBody then 1 else 2
  }

  /** Lets the reader take `s`: reads are filled as bytes come, handlers run as soon as
      a read is full and start the next one. */
  ghost function Feed(r: Reader, s: bytes): (r': Reader)
    requires r.Valid()
    ensures r'.Valid()
    decreases |s|, Pending(r)
  {
    if r.closed then r
    else if r.Ready() then
      CompleteKeepsValid(r);
      Feed(r.Complete(), s)
    else if s == [] then r
    else
      var room := r.Wanted() - r.got;
      var k := if |s| <= room then |s| else room;
      ReceiveKeepsValid(r, s[..k]);
      Feed(r.Receive(s[..k]), s[k..])
  }

  ghost function FeedAll(r: Reader, chunks: seq<bytes>): (r': Reader)
    requires r.Valid()
    ensures r'.Valid()
    decreases |chunks|
  {
    if chunks == [] then r else FeedAll(Feed(r, chunks[0]), chunks[1..])
  }

  lemma RefusedForever(r: Reader, more: bytes)
    requires r.Valid() && Refused(r)
    ensures Frames(r.Stream() + more) == r.frames
  {
    assert Frames(r.Partial() + more) == [] by {
      hide BadHeader, DataLen;
      assert (r.Partial() + more)[..HEADER_SIZE] == r.raw[..HEADER_SIZE];
      SameHeader(r.Partial() + more, r.raw);
    }
    hide Frames, Accepted;
    FramesOfConcat(r.frames, r.Partial() + more);
    assert r.Stream() + more == Concat(r.frames) + (r.Partial() + more);
  }

  lemma IdleDecodes(r: Reader)
    requires r.Valid() && !r.closed && !r.Ready()
    ensures Frames(r.Stream()) == r.frames
  {
    hide BadHeader, DataLen, Frames;
    ReaderDecodes(r);
    if Accepted(r.Partial()) {
      if r.inBody {
        assert r.Partial()[..HEADER_SIZE] == r.raw[..HEADER_SIZE];
        SameHeader(r.Partial(), r.raw);
      }
    }
  }

  lemma {:induction false} FeedDecodes(r: Reader, s: bytes, more: bytes)
    requires r.Valid() && (!r.closed || Refused(r))
    ensures var r' := Feed(r, s);
            && r'.frames == Frames(r.Stream() + s)
            && (if r'.closed then Refused(r') else !r'.Ready())
            && (r'.closed ==> r'.frames == Frames(r.Stream() + s + more))
            && (!r'.closed ==> r'.Stream() == r.Stream() + s)
    decreases |s|, Pending(r)
  {
    hide BadHeader, DataLen, Frames, Concat;
    if r.closed {
      RefusedForever(r, s);
      RefusedForever(r, s + more);
      assert r.Stream() + s + more == r.Stream() + (s + more);
    } else if r.Ready() {
      CompleteKeepsValid(r);
      FeedDecodes(r.Complete(), s, more);
    } else if s == [] {
      IdleDecodes(r);
      assert r.Stream() + s == r.Stream();
    } else {
      var room := r.Wanted() - r.got;
      var k := if |s| <= room then |s| else room;
      ReceiveKeepsValid(r, s[..k]);
      FeedDecodes(r.Receive(s[..k]), s[k..], more);
      assert r.Stream() + s[..k] + s[k..] == r.Stream() + s;
    }
  }

  /** No handler is left to run. */
  ghost predicate Idle(r: Reader)
    requires r.Valid()
  {
    if r.closed then Refused(r) else !r.Ready()
  }

  lemma {:induction false} FeedAllDecodes(r: Reader, chunks: seq<bytes>)
    requires r.Valid() && Idle(r)
    ensures FeedAll(r, chunks).frames == Frames(r.Stream() + Concat(chunks))
    decreases |chunks|
  {
    hide Feed, Frames;
    if chunks == [] {
      assert r.Stream() + [] == r.Stream();
      if r.closed {
        RefusedForever(r, []);
      } else {
        IdleDecodes(r);
      }
    } else {
      var rest := Concat(chunks[1..]);
      FeedDecodes(r, chunks[0], rest);
      var r' := Feed(r, chunks[0]);
      FeedAllDecodes(r', chunks[1..]);
      assert r.Stream() + chunks[0] + rest == r.Stream() + Concat(chunks);
      if r'.closed {
        RefusedForever(r', rest);
      }
    }
  }

  /** However the bytes of a stream are cut into chunks, a new reader hands on exactly
      the frames of the stream: for accepted frames, those frames and nothing else. */
  lemma Segmentation(chunks: seq<bytes>, fs: seq<bytes>)
    requires AllAccepted(fs) && Concat(chunks) == Concat(fs)
    ensures NewReader().Valid()
    ensures FeedAll(NewReader(), chunks).frames == fs
  {
    hide Frames, Accepted, Concat, FeedAll;
    NewReaderValid();
    FeedAllDecodes(NewReader(), chunks);
    FramesOfAccepted(fs);
    assert [] + Concat(chunks) == Concat(fs);
  }
}
