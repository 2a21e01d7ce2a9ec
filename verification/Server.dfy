/** The server's objects: members that read and write their sockets, and the room. */
module Server {
  import opened Bytes
  import opened Crc32
  import opened Frame
  import opened Codec
  import opened Framing
  import E = Endpoint
  import L = ScrollingLog

  // ----- What the room logs

  // "Adding: ", "Removing: ", "Broadcasting: "
  const ADDING: bytes := [0x41, 0x64, 0x64, 0x69, 0x6E, 0x67, 0x3A, 0x20]
  const REMOVING: bytes := [0x52, 0x65, 0x6D, 0x6F, 0x76, 0x69, 0x6E, 0x67, 0x3A, 0x20]
  const BROADCASTING: bytes := [0x42, 0x72, 0x6F, 0x61, 0x64, 0x63, 0x61, 0x73, 0x74, 0x69, 0x6E, 0x67, 0x3A, 0x20]

  function LogLine(tag: bytes, text: bytes): bytes {
    tag + text + [L.NEWLINE]
  }

  /** What the log reads after a text was broadcast, after a join and after a leave, with the
      three words in front of them spelled out, and that each ends its line. */
  lemma LinesRead(before: bytes, after: bytes, key: bytes, text: bytes)
    requires NoNul(key) && |key| <= 254 && NoNul(text) && |text| + 1 < 0x1_0000_0000
    ensures var f := TextFrame(key, text);
            && |f| >= HEADER_SIZE && DATA_OFFSET + OriginLen(f) <= |f|
            && (Announced(before, f, after) ==> after == before + BROADCASTING + text + [0x0A])
    ensures JoinLines(key) == ADDING + key + [0x0A] + (BROADCASTING + E.HAS_JOINED + [0x0A])
    ensures LeaveLines(key) == REMOVING + key + [0x0A] + (BROADCASTING + E.HAS_LEFT + [0x0A])
    ensures Spells(ADDING, "Adding: ") && Spells(REMOVING, "Removing: ") && Spells(BROADCASTING, "Broadcasting: ")
    ensures Spells(E.HAS_JOINED, " HAS JOINED") && Spells(E.HAS_LEFT, " HAS LEFT")
  {
    WordsSpelled();
    NoticesSpelled();
    TextRoundTrip(key, text);
    hide Readable, OriginLen, String, Announced, WellFormed, TextFrame, Spells, MessageType, Origin, FileLen, File,
         Checksum, Crc, StringDataLen;
    var f := TextFrame(key, text);
    ReadableOf(f);
    if Announced(before, f, after) {
      AnnouncedExactly(before, f, after);
      assert before + (BROADCASTING + text + [0x0A]) == before + BROADCASTING + text + [0x0A];
    }
  }

  lemma ReadableOf(f: bytes)
    requires WellFormed(f)
    ensures Readable(f) && DATA_OFFSET + OriginLen(f) <= |f|
  {
  }

  lemma WordsSpelled()
    ensures Spells(ADDING, "Adding: ") && Spells(REMOVING, "Removing: ") && Spells(BROADCASTING, "Broadcasting: ")
  {
  }

  lemma NoticesSpelled()
    ensures Spells(E.HAS_JOINED, " HAS JOINED") && Spells(E.HAS_LEFT, " HAS LEFT")
  {
  }

  /** A log to which whole lines were added starts a new one. */
  lemma LineEnded(log: L.ScrollingLog, text: bytes)
    requires log.Valid() && log.text == text + [0x0A]
    ensures log.curLine == []
  {
    L.WrapAppend(text, 0x0A, log.width + 1);
    hide L.Wrap;
  }

  /** A notice carries its literal text under the endpoint of the member it is about. */
  lemma NoticeReads(key: bytes)
    requires NoNul(key) && |key| <= 254
    ensures var f := E.JoinNotice(key);
            Readable(f) && Origin(f) == key && MessageType(f) == 1 && Spells(String(f), " HAS JOINED")
    ensures var f := E.LeaveNotice(key);
            Readable(f) && Origin(f) == key && MessageType(f) == 1 && Spells(String(f), " HAS LEFT")
  {
    NoticesSpelled();
    assert NoNul(E.HAS_JOINED) && NoNul(E.HAS_LEFT);
    TextRoundTrip(key, E.HAS_JOINED);
    TextRoundTrip(key, E.HAS_LEFT);
    hide Readable, OriginLen, String, TextFrame, Spells, MessageType, Origin, Checksum, Crc, StringDataLen;
  }

  /** The line for a broadcast message has been added: its string, and what follows the
      buffer in memory if the string does not end inside. */
  ghost predicate Announced(before: bytes, f: bytes, after: bytes)
    requires |f| >= HEADER_SIZE && DATA_OFFSET + OriginLen(f) <= |f|
  {
    exists more: bytes ::
      (Readable(f) ==> more == []) && after == before + LogLine(BROADCASTING, String(f) + more)
  }

  lemma AnnouncedExactly(before: bytes, f: bytes, after: bytes)
    requires |f| >= HEADER_SIZE && DATA_OFFSET + OriginLen(f) <= |f| && Announced(before, f, after) && Readable(f)
    ensures after == before + LogLine(BROADCASTING, String(f))
  {
    hide Readable, String, OriginLen, LogLine;
    assert String(f) + [] == String(f);
  }

  lemma AnnouncedSo(before: bytes, f: bytes)
    requires |f| >= HEADER_SIZE && DATA_OFFSET + OriginLen(f) <= |f|
    ensures Announced(before, f, before + LogLine(BROADCASTING, String(f)))
  {
    hide Readable, String, OriginLen, LogLine;
    assert String(f) + [] == String(f);
  }

  function JoinLines(key: bytes): bytes {
    LogLine(ADDING, key) + LogLine(BROADCASTING, E.HAS_JOINED)
  }

  function LeaveLines(key: bytes): bytes {
    LogLine(REMOVING, key) + LogLine(BROADCASTING, E.HAS_LEFT)
  }

  /** A notice is long enough for its string to be looked for, and the string is the text
      of the notice for every endpoint that fits. */
  lemma NoticeString(key: bytes, text: bytes)
    requires NoNul(text)
    ensures var f := TextFrame(key, text);
            && DATA_OFFSET + OriginLen(f) <= |f|
            && (E.GoodKey(key) && |text| < 100 ==> Readable(f) && String(f) == text)
  {
    hide Encode, OriginLen, StringDataLen, String, Readable, MessageType, Origin, Checksum, Crc, NoNul;
    EncodeFields(TEXT, key, text + [NUL]);
    if E.GoodKey(key) && |text| < 100 {
      TextRoundTrip(key, text);
    }
    assert U8(|key| + 1) <= |key| + 1;
  }

  lemma JoinString(key: bytes, text: bytes)
    ensures var f := E.JoinNotice(key);
            && DATA_OFFSET + OriginLen(f) <= |f|
            && (E.GoodKey(key) ==>
                  Readable(f) &&
                  text + LogLine(ADDING, key) + LogLine(BROADCASTING, String(f)) == text + JoinLines(key))
  {
    hide TextFrame, OriginLen, Readable, String, E.GoodKey, LogLine;
    NoticeString(key, E.HAS_JOINED);
    assert text + LogLine(ADDING, key) + LogLine(BROADCASTING, E.HAS_JOINED) == text + JoinLines(key);
  }

  lemma LeaveString(key: bytes, text: bytes)
    ensures var f := E.LeaveNotice(key);
            && DATA_OFFSET + OriginLen(f) <= |f|
            && (E.GoodKey(key) ==>
                  Readable(f) &&
                  text + LogLine(REMOVING, key) + LogLine(BROADCASTING, String(f)) == text + LeaveLines(key))
  {
    hide TextFrame, OriginLen, Readable, String, E.GoodKey, LogLine;
    NoticeString(key, E.HAS_LEFT);
    assert text + LogLine(REMOVING, key) + LogLine(BROADCASTING, E.HAS_LEFT) == text + LeaveLines(key);
  }

  lemma AcceptedString(f: bytes)
    requires Accepted(f)
    ensures DATA_OFFSET + OriginLen(f) <= |f|
  {
    hide StringDataLen, NatOf;
    assert OriginLen(f) < 256;
  }

  /** The room without entry `i`, once everyone was told. */
  lemma RemoveShape(before: E.Room, i: nat, after: E.Room)
    requires i < |before.members|
    requires var told := E.Broadcast(before, E.LeaveNotice(before.members[i].key));
             && |told.members| == |before.members|
             && after == told.(members := told.members[..i] + told.members[i + 1..])
    ensures after == E.RemoveMember(before, i)
  {
    hide E.Offer, E.LeaveNotice;
  }

  // ----- Members

  /** A room member. The fields after the queue stand for the socket: the read and the
      writes that are running on it. */
  class Member {
    const address: bytes
    const port: nat
    const group: Room
    var raw: bytes
    var queue: seq<bytes>

    var inBody: bool
    var got: nat
    var closed: bool
    var writes: nat
    var sent: nat
    var failed: bool
    ghost var frames: seq<bytes>
    ghost var done: seq<bytes>

    ghost function Abs(): E.Member
      reads this
    {
      var writer := E.Writer(queue, writes, sent, failed, done);
      E.Member(Render(address, port), Reader(raw, inBody, got, closed, frames), writer)
    }

    /** A new member starts reading a header at once. */
    constructor (address: bytes, port: nat, group: Room)
      ensures this.address == address && this.port == port && this.group == group
      ensures Abs() == E.NewMember(Render(address, port))
    {
      this.address, this.port, this.group := address, port, group;
      raw := Resize([], HEADER_SIZE);
      queue, writes, sent, failed, done := [], 0, 0, false, [];
      inBody, got, closed, frames := false, 0, false, [];
      new;
      HeaderReader();
    }

    method HeaderReader()
      modifies this`inBody, this`got
      ensures Abs() == old(Abs()).(reader := old(Abs()).reader.(inBody := false, got := 0))
    {
      inBody, got := false, 0;
    }

    method DataBufferReader()
      modifies this`inBody, this`got
      ensures Abs() == old(Abs()).(reader := old(Abs()).reader.(inBody := true, got := 0))
    {
      inBody, got := true, 0;
    }

    /** Queues a message, and starts writing only if nothing was queued. */
    method SendMessage(f: bytes)
      modifies this`queue, this`writes, this`sent
      ensures Abs() == old(Abs()).(writer := old(Abs()).writer.Send(f))
    {
      var sendInProgress := queue != [];
      queue := queue + [f];
      if !sendInProgress {
        FlushMessages();
      }
    }

    /** Starts writing the front of the queue. */
    method FlushMessages()
      requires queue != []
      modifies this`writes, this`sent
      ensures Abs() == old(Abs()).(writer := old(Abs()).writer.Flush())
    {
      writes, sent := writes + 1, 0;
    }

    /** The header read has ended. */
    method OnHeader(ok: bool) returns (found: bool)
      requires group.Valid() && this in group.members && |raw| >= HEADER_SIZE && !inBody
      modifies group, group.members, group.log
      ensures group.Valid() && found
      ensures ok && !BadHeader(old(raw)) ==>
                && group.members == old(group.members) && group.log.text == old(group.log.text)
                && Abs() == old(Abs()).(reader := old(Abs()).reader.Complete())
                && forall m | m in group.members && m != this :: m.Abs() == old(m.Abs())
      ensures !(ok && !BadHeader(old(raw))) ==> exists i | 0 <= i < |old(group.members)| ::
                old(group.members)[i] == this && group.Abs() == E.RemoveMember(old(group.Abs()), i)
      ensures !(ok && !BadHeader(old(raw))) && E.GoodKey(Render(address, port)) ==>
                group.log.text == old(group.log.text) + LeaveLines(Render(address, port))
    {
      hide LeaveLines, E.RemoveMember, E.GoodKey, Render, BadHeader, DataLen, Resize;
      if ok && !BadHeader(raw) {
        raw := Resize(raw, HEADER_SIZE + DataLen(raw));
        DataBufferReader();
        found := true;
      } else {
        found := group.RemoveMember(this);
      }
    }

    /** The body read has ended: the message goes to the room, and the next header is read. */
    method OnBody(ok: bool) returns (found: bool)
      requires group.Valid() && this in group.members && |raw| >= HEADER_SIZE && inBody && (ok ==> Accepted(raw))
      modifies group, group.members, group.log
      ensures group.Valid() && found
      ensures ok ==> raw == old(raw) && group.members == old(group.members) && group.locked == old(group.locked)
                     && group.history == old(group.history) + [old(raw)]
                     && DATA_OFFSET + OriginLen(raw) <= |raw|
                     && Announced(old(group.log.text), raw, group.log.text)
      ensures ok ==> forall m | m in group.members ::
                m.Abs() == E.Offer(if m == this then old(Abs()).(reader := old(Abs()).reader.Complete())
                                   else old(m.Abs()), raw)
      ensures !ok ==> exists i | 0 <= i < |old(group.members)| ::
                old(group.members)[i] == this && group.Abs() == E.RemoveMember(old(group.Abs()), i)
      ensures !ok && E.GoodKey(Render(address, port)) ==>
                group.log.text == old(group.log.text) + LeaveLines(Render(address, port))
    {
      hide LeaveLines, E.RemoveMember, E.GoodKey, Render, BadHeader, DataLen, Announced, OriginLen, Origin, Accepted;
      if ok {
        AcceptedString(raw);
        group.Broadcast(raw);
        HeaderReader();
        frames := frames + [raw];
        found := true;
      } else {
        found := group.RemoveMember(this);
      }
    }

    /** A write has ended: drop the front and write the next one, or leave the room. */
    method OnWritten(ok: bool) returns (found: bool)
      requires group.Valid() && this in group.members && queue != [] && writes > 0
      modifies group, group.members, group.log
      ensures group.Valid() && found
      ensures ok ==> group.members == old(group.members) && group.log.text == old(group.log.text)
                     && Abs() == old(Abs()).(writer := old(Abs()).writer.Written())
                     && forall m | m in group.members && m != this :: m.Abs() == old(m.Abs())
      ensures !ok ==> exists i | 0 <= i < |old(group.members)| ::
                old(group.members)[i] == this && group.Abs() == E.RemoveMember(old(group.Abs()), i)
      ensures !ok && E.GoodKey(Render(address, port)) ==>
                group.log.text == old(group.log.text) + LeaveLines(Render(address, port))
    {
      hide LeaveLines, E.RemoveMember, E.GoodKey, Render;
      if ok {
        done := done + [queue[0]];
        queue, writes, sent := queue[1..], writes - 1, 0;
        if queue != [] {
          FlushMessages();
        }
        found := true;
      } else {
        found := group.RemoveMember(this);
      }
    }
  }

  // ----- The room

  class Room {
    const log: L.ScrollingLog
    var members: seq<Member>
    var locked: bool
    ghost var history: seq<bytes>

    ghost predicate Valid()
      reads this, log
    {
      && !locked && log.Valid()
      && (forall i, j | 0 <= i < j < |members| :: members[i] != members[j])
    }

    ghost function Abs(): E.Room
      reads this, members
    {
      E.Room(seq(|members|, i requires 0 <= i < |members| reads this, members => members[i].Abs()), locked, history)
    }

    constructor (log: L.ScrollingLog)
      requires log.Valid()
      ensures Valid() && Abs() == E.Room([], false, []) && this.log == log
    {
      this.log := log;
      members, locked, history := [], false, [];
    }

    /** Every member but the origin of the message gets it queued. */
    method Broadcast(f: bytes)
      requires Valid() && |f| >= HEADER_SIZE && DATA_OFFSET + OriginLen(f) <= |f|
      modifies this`history, members, log
      ensures Valid() && members == old(members)
      ensures Abs() == E.Broadcast(old(Abs()), f)
      ensures forall m | m in members :: m.Abs() == E.Offer(old(m.Abs()), f)
      ensures forall m | m in members :: m.raw == old(m.raw) && m.frames == old(m.frames)
      ensures Announced(old(log.text), f, log.text)
    {
      hide Announced, LogLine, String, Origin, OriginLen, E.Offer, L.ScrollingLog.Valid, BROADCASTING;
      AnnouncedSo(log.text, f);
      log.AppendLog(LogLine(BROADCASTING, String(f)));
      Deliver(f);
      history := history + [f];
    }

    /** The loop over the members. */
    method Deliver(f: bytes)
      requires |f| >= HEADER_SIZE && forall i, j | 0 <= i < j < |members| :: members[i] != members[j]
      modifies members
      ensures forall m | m in members :: m.Abs() == E.Offer(old(m.Abs()), f)
      ensures forall m | m in members :: m.raw == old(m.raw) && m.frames == old(m.frames)
    {
      hide Origin, Render;
      for i := 0 to |members|
        invariant forall k | 0 <= k < i :: members[k].Abs() == E.Offer(old(members[k].Abs()), f)
        invariant forall k | i <= k < |members| :: members[k].Abs() == old(members[k].Abs())
        invariant forall k | 0 <= k < |members| ::
                    members[k].raw == old(members[k].raw) && members[k].frames == old(members[k].frames)
      {
        var m := members[i];
        if Render(m.address, m.port) != Origin(f) {
          m.SendMessage(f);
        }
      }
    }

    /** The newcomer's notice goes out before the newcomer is in the list. */
    method AddMember(address: bytes, port: nat) returns (m: Member)
      requires Valid()
      modifies this, members, log
      ensures Valid() && fresh(m) && members == old(members) + [m]
      ensures Abs() == E.AddMember(old(Abs()), Render(address, port))
      ensures E.GoodKey(Render(address, port)) ==> log.text == old(log.text) + JoinLines(Render(address, port))
    {
      hide Announced, Readable, LogLine, JoinLines, String, OriginLen, E.JoinNotice, E.GoodKey, E.Offer, Render,
           L.ScrollingLog.Valid;
      JoinString(Render(address, port), log.text);
      log.AppendLog(LogLine(ADDING, Render(address, port)));
      ghost var text := log.text;
      Broadcast(E.JoinNotice(Render(address, port)));
      if E.GoodKey(Render(address, port)) {
        AnnouncedExactly(text, E.JoinNotice(Render(address, port)), log.text);
      }
      locked := true;
      m := new Member(address, port, this);
      members := members + [m];
      locked := false;
    }

    /** The log line and the notice of a leave. */
    method TellLeft(m: Member)
      requires Valid()
      modifies this`history, members, log
      ensures Valid() && members == old(members)
      ensures Abs() == E.Broadcast(old(Abs()), E.LeaveNotice(Render(m.address, m.port)))
      ensures E.GoodKey(Render(m.address, m.port)) ==>
                log.text == old(log.text) + LeaveLines(Render(m.address, m.port))
    {
      hide E.LeaveNotice, E.Broadcast, Render, Readable, LogLine, LeaveLines, String, OriginLen, E.Offer, E.GoodKey,
           Announced, L.ScrollingLog.Valid, BROADCASTING, REMOVING, HEADER_SIZE, DATA_OFFSET;
      LeaveString(Render(m.address, m.port), log.text);
      log.AppendLog(LogLine(REMOVING, Render(m.address, m.port)));
      ghost var text := log.text;
      Broadcast(E.LeaveNotice(Render(m.address, m.port)));
      if E.GoodKey(Render(m.address, m.port)) {
        AnnouncedExactly(text, E.LeaveNotice(Render(m.address, m.port)), log.text);
      }
    }

    /** The leaver's notice goes out, then the list is scanned for it under the lock. Not
        finding it leaves the lock held, where the source throws. */
    method RemoveMember(m: Member) returns (found: bool)
      requires Valid()
      modifies this, members, log
      ensures found <==> m in old(members)
      ensures found ==> Valid() && exists i | 0 <= i < |old(members)| ::
                old(members)[i] == m && members == old(members)[..i] + old(members)[i + 1..]
                && Abs() == E.RemoveMember(old(Abs()), i)
      ensures !found ==> members == old(members) && locked
      ensures E.GoodKey(Render(m.address, m.port)) ==>
                log.text == old(log.text) + LeaveLines(Render(m.address, m.port))
    {
      hide E.LeaveNotice, E.Broadcast, E.RemoveMember, Render, LeaveLines, E.GoodKey, L.ScrollingLog.Valid;
      ghost var before := Abs();
      TellLeft(m);
      ghost var index;
      found, index := Erase(m);
      if found {
        RemoveShape(before, index, Abs());
      }
    }

    /** The scan of the list under the lock, which it gives back only if it finds. */
    method Erase(m: Member) returns (found: bool, ghost index: nat)
      requires Valid()
      modifies this`members, this`locked
      ensures found <==> m in old(members)
      ensures found ==> Valid() && index < |old(members)| && old(members)[index] == m
                        && members == old(members)[..index] + old(members)[index + 1..]
                        && var was := old(Abs()).members;
                        Abs() == old(Abs()).(members := was[..index] + was[index + 1..])
      ensures !found ==> members == old(members) && locked
    {
      hide L.ScrollingLog.Valid, Member.Abs;
      locked := true;
      for k := 0 to |members|
        invariant members == old(members) && locked
        invariant m !in members[..k]
      {
        if members[k] == m {
          members := members[..k] + members[k + 1..];
          locked := false;
          return true, k;
        }
      }
      return false, 0;
    }
  }
}
