/** The parts of the relay that both ends or the room's members are made of: the
    writer queue, a room member, and the room as a value. */
module Endpoint {
  import opened Bytes
  import opened Frame
  import opened Codec
  import opened Framing

  // ----- The writer queue

  /** `queue` is the message queue, whose front is the write in flight; `outstanding`
      counts running writes; `sent` is how much of the front is on the wire; `done`
      lists the messages whose write has completed. */
  datatype Writer = Writer(queue: seq<bytes>, outstanding: nat, sent: nat, failed: bool, done: seq<bytes>) {

    /** Starts writing the front of the queue. */
    function Flush(): Writer
      requires queue != []
    {
      this.(outstanding := outstanding + 1, sent := 0)
    }

    /** Queues a message; starts writing only if the queue was empty. */
    function Send(f: bytes): Writer {
      var w := this.(queue := queue + [f]);
      if queue == [] then w.Flush() else w
    }

    /** Part of the front reaches the wire. */
    function Transmit(k: nat): Writer {
      this.(sent := sent + k)
    }

    /** The write completed: drop the front and go on with the next, if any. */
    function Written(): Writer
      requires queue != [] && outstanding > 0
    {
      var w := this.(queue := queue[1..], outstanding := outstanding - 1, sent := 0, done := done + [queue[0]]);
      if w.queue == [] then w else w.Flush()
    }

    /** The write failed: the front stays in the queue. */
    function WriteFailed(): Writer
      requires outstanding > 0
    {
      this.(outstanding := outstanding - 1, failed := true)
    }

    /** One write is running exactly when the queue is not empty; after a failure none
        is running and none can start, because the queue never empties again. */
    ghost predicate Valid() {
      && outstanding == (if failed || queue == [] then 0 else 1)
      && (failed ==> queue != [])
      && (if queue == [] then sent == 0 else sent <= |queue[0]|)
    }

    /** Every message accepted for sending, in order. */
    function Enqueued(): seq<bytes> {
      done + queue
    }

    /** Every byte put on the wire so far. */
    function Wire(): bytes
      requires queue != [] ==> sent <= |queue[0]|
    {
      Concat(done) + if queue == [] then [] else queue[0][..sent]
    }
  }

  const NEW_WRITER: Writer := Writer([], 0, 0, false, [])

  lemma SendKeeps(w: Writer, f: bytes)
    requires w.Valid()
    ensures w.Send(f).Valid() && w.Send(f).failed == w.failed
    ensures w.Send(f).Enqueued() == w.Enqueued() + [f]
    ensures w.Send(f).Wire() == w.Wire()
    ensures w.failed ==> w.Send(f).outstanding == 0
  {
  }

  lemma TransmitKeeps(w: Writer, k: nat)
    requires w.Valid() && w.outstanding > 0 && w.sent + k <= |w.queue[0]|
    ensures w.Transmit(k).Valid() && w.Transmit(k).Enqueued() == w.Enqueued()
    ensures w.Transmit(k).Wire() == w.Wire() + w.queue[0][w.sent..w.sent + k]
  {
    assert w.queue[0][..w.sent + k] == w.queue[0][..w.sent] + w.queue[0][w.sent..w.sent + k];
  }

  lemma WrittenKeeps(w: Writer)
    requires w.Valid() && w.outstanding > 0 && w.sent == |w.queue[0]|
    ensures w.Written().Valid() && w.Written().Enqueued() == w.Enqueued()
    ensures w.Written().Wire() == w.Wire()
  {
    ConcatAppend(w.done, [w.queue[0]]);
    assert Concat([w.queue[0]]) == w.queue[0] + [] == w.queue[0];
    assert w.queue == [w.queue[0]] + w.queue[1..];
    assert w.queue[0][..w.sent] == w.queue[0];
  }

  lemma WriteFailedKeeps(w: Writer)
    requires w.Valid() && w.outstanding > 0
    ensures w.WriteFailed().Valid() && w.WriteFailed().Enqueued() == w.Enqueued()
    ensures w.WriteFailed().Wire() == w.Wire()
  {
  }

  /** The wire never carries anything but the queued messages, in order. */
  lemma WireIsPrefix(w: Writer)
    requires w.Valid()
    ensures w.Wire() <= Concat(w.Enqueued())
  {
    ConcatAppend(w.done, w.queue);
    if w.queue != [] {
      assert Concat(w.queue) == w.queue[0] + Concat(w.queue[1..]);
      assert w.queue[0][..w.sent] <= Concat(w.queue);
    }
  }

  // ----- Members and the room

  /** A member as the server sees it; `key` is its remote endpoint, written out. */
  datatype Member = Member(key: bytes, reader: Reader, writer: Writer)

  function NewMember(key: bytes): Member {
    Member(key, NewReader(), NEW_WRITER)
  }

  /** A broadcast reaches a member unless the frame names that member as its origin. */
  function Offer(m: Member, f: bytes): Member
    requires |f| >= HEADER_SIZE
  {
    if m.key != Origin(f) then m.(writer := m.writer.Send(f)) else m
  }

  datatype Room = Room(members: seq<Member>, locked: bool, log: seq<bytes>)

  function Broadcast(r: Room, f: bytes): Room
    requires |f| >= HEADER_SIZE
  {
    r.(members := seq(|r.members|, i requires 0 <= i < |r.members| => Offer(r.members[i], f)), log := r.log + [f])
  }

  // " HAS JOINED" and " HAS LEFT"
  const HAS_JOINED: bytes := [0x20, 0x48, 0x41, 0x53, 0x20, 0x4A, 0x4F, 0x49, 0x4E, 0x45, 0x44]
  const HAS_LEFT: bytes := [0x20, 0x48, 0x41, 0x53, 0x20, 0x4C, 0x45, 0x46, 0x54]

  function JoinNotice(key: bytes): (f: bytes)
    ensures |f| >= HEADER_SIZE
  {
    TextFrame(key, HAS_JOINED)
  }

  function LeaveNotice(key: bytes): (f: bytes)
    ensures |f| >= HEADER_SIZE
  {
    TextFrame(key, HAS_LEFT)
  }

  /** The room tells everyone else first, and then takes the new member in. */
  function AddMember(r: Room, key: bytes): Room {
    var told := Broadcast(r, JoinNotice(key));
    told.(members := told.members + [NewMember(key)])
  }

  /** The room tells everyone else first, and then drops the member. */
  function RemoveMember(r: Room, i: nat): Room
    requires i < |r.members|
  {
    var told := Broadcast(r, LeaveNotice(r.members[i].key));
    told.(members := told.members[..i] + told.members[i + 1..])
  }

  /** An endpoint that fits the one-byte origin length and reads back unchanged. */
  predicate GoodKey(key: bytes) {
    NoNul(key) && |key| <= 254
  }

  /** Rendered socket endpoints fit: the longest IPv6 address, with a zone, has fewer than
      100 characters, and a port is below 2^16. */
  lemma EndpointFits(address: bytes, port: nat)
    requires NoNul(address) && |address| < 100 && port < 0x10000
    ensures GoodKey(Render(address, port))
  {
    hide Decimal;
    RenderPlain(address, port);
    DecimalShort(port);
  }

  lemma NoticeAccepted(key: bytes, text: bytes)
    requires GoodKey(key) && |text| < 100
    ensures Accepted(TextFrame(key, text)) && Origin(TextFrame(key, text)) == key
    ensures Intact(TextFrame(key, text))
  {
    TextFrameAccepted(key, text);
    TextIntact(key, text);
    OriginRoundTrip(TEXT, key, text + [NUL]);
    hide Encode, BadHeader, DataLen, Origin, Checksum;
  }
}
