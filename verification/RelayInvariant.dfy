/** What every step of the relay keeps. */
module RelayInvariant {
  import opened Bytes
  import opened Frame
  import opened Codec
  import opened Framing
  import opened Endpoint
  import opened Relay

  // ----- Views of the broadcast log

  /** The frames of the log that a member with this key is offered. */
  function Visible(log: seq<Entry>, key: bytes): seq<bytes>
    requires forall e | e in log :: |e.frame| >= HEADER_SIZE
  {
    if log == [] then []
    else
      var n := |log| - 1;
      Visible(log[..n], key) + if Origin(log[n].frame) != key then [log[n].frame] else []
  }

  /** The frames of the log that were read from connection `id`. */
  function RelayedFrom(log: seq<Entry>, id: int): seq<bytes> {
    if log == [] then []
    else
      var n := |log| - 1;
      RelayedFrom(log[..n], id) + if log[n].source == id then [log[n].frame] else []
  }

  lemma VisibleAppend(log: seq<Entry>, e: Entry, key: bytes)
    requires forall x | x in log + [e] :: |x.frame| >= HEADER_SIZE
    ensures Visible(log + [e], key) == Visible(log, key) + if Origin(e.frame) != key then [e.frame] else []
  {
    assert (log + [e])[..|log|] == log;
  }

  lemma RelayedAppend(log: seq<Entry>, e: Entry, id: int)
    ensures RelayedFrom(log + [e], id) == RelayedFrom(log, id) + if e.source == id then [e.frame] else []
  {
    assert (log + [e])[..|log|] == log;
  }

  lemma {:induction false} RelayedNone(log: seq<Entry>, id: int)
    requires forall e | e in log :: e.source != id
    ensures RelayedFrom(log, id) == []
  {
    if log == [] {
    } else {
      RelayedNone(log[..|log| - 1], id);
    }
  }

  // ----- The invariant

  ghost predicate LogOk(log: seq<Entry>, count: nat) {
    forall e | e in log :: Accepted(e.frame) && -1 <= e.source < count && (e.source == -1 ==> Intact(e.frame))
  }

  /** One connection: its queues and readers are consistent, no byte is lost or made up
      in transit, what the user sent is what was queued, and what the room queued is
      the log over the stay of the member, less its own frames. */
  ghost predicate ConnCore(c: Conn, log: seq<Entry>, present: bool) {
    && (forall e | e in log :: |e.frame| >= HEADER_SIZE)
    && GoodKey(c.member.key)
    && c.client.writer.Valid() && c.client.reader.Valid()
    && c.member.writer.Valid() && c.member.reader.Valid()
    && c.client.writer.Enqueued() + c.client.posted == c.client.sentAll
    && (forall f | f in c.client.sentAll :: |f| >= HEADER_SIZE)
    && c.member.reader.Stream() + c.up == c.client.writer.Wire()
    && c.client.reader.Stream() + c.down == c.member.writer.Wire()
    && (c.client.open ==> !c.client.reader.closed && !c.client.writer.failed)
    && c.joinedAt <= c.leftAt <= |log|
    && c.member.writer.Enqueued() == Visible(Stay(c, log, present), c.member.key)
  }

  /** A member in the room still reads and has no failed write. */
  ghost predicate Live(c: Conn) {
    !c.member.reader.closed && !c.member.writer.failed
  }

  ghost predicate ConnOk(c: Conn, id: nat, log: seq<Entry>, present: bool) {
    && ConnCore(c, log, present)
    && (present ==> Live(c))
    && RelayedFrom(log, id) == c.member.reader.frames
  }

  /** The part of the log broadcast while the member was in the room. */
  ghost function Stay(c: Conn, log: seq<Entry>, present: bool): (stay: seq<Entry>)
    requires c.joinedAt <= c.leftAt <= |log|
    ensures forall e | e in stay :: e in log
  {
    if present then log[c.joinedAt..] else log[c.joinedAt..c.leftAt]
  }

  /** Members are known connections, listed in the order in which they joined. */
  ghost predicate MembersOk(members: seq<nat>, count: nat) {
    && (forall i | 0 <= i < |members| :: members[i] < count)
    && (forall i, j | 0 <= i < j < |members| :: members[i] < members[j])
  }

  ghost predicate Inv(s: System) {
    && !s.crashed && !s.locked
    && LogOk(s.log, |s.conns|)
    && MembersOk(s.members, |s.conns|)
    && (forall i | 0 <= i < |s.conns| :: ConnOk(s.conns[i], i, s.log, i in s.members))
  }

  /** The same in the middle of a handler: `gone` may have failed already, and the
      reader of `source` may be ahead of the log by one frame `f`. */
  ghost predicate MidInv(s: System, source: int, f: bytes, gone: int) {
    && !s.crashed && !s.locked
    && LogOk(s.log, |s.conns|)
    && MembersOk(s.members, |s.conns|)
    && (forall i | 0 <= i < |s.conns| :: ConnCore(s.conns[i], s.log, i in s.members))
    && (forall i | 0 <= i < |s.conns| :: i in s.members && i != gone ==> Live(s.conns[i]))
    && (forall i | 0 <= i < |s.conns| ::
          RelayedFrom(s.log, i) + (if i == source then [f] else []) == s.conns[i].member.reader.frames)
  }

  // ----- Steps inside one connection

  lemma Associate<T>(a: seq<T>, b: seq<T>, c: seq<T>)
    ensures a + b + c == a + (b + c)
  {
  }

  /** The user's steps: a message is posted, or taken up by the event loop. */
  lemma PostKeeps(c: Conn, id: nat, log: seq<Entry>, present: bool, a: Action)
    requires ConnOk(c, id, log, present) && LocallyEnabled(c, present, a)
    requires a.Post? || a.RunPosted?
    ensures ConnOk(Local(c, present, a), id, log, present)
  {
    hide Visible, RelayedFrom, Reader.Stream, Writer.Wire, Writer.Send, Writer.Enqueued, GoodKey, BadHeader, DataLen;
    var cl := c.client;
    var w := cl.writer;
    match a {
      case Post(_, f) =>
        Associate(w.Enqueued(), cl.posted, [f]);
      case RunPosted(_) =>
        SendKeeps(w, cl.posted[0]);
        Associate(w.Enqueued(), [cl.posted[0]], cl.posted[1..]);
        assert cl.posted == [cl.posted[0]] + cl.posted[1..];
    }
  }

  /** The client writer's steps. */
  lemma ClientWriteKeeps(c: Conn, id: nat, log: seq<Entry>, present: bool, a: Action)
    requires ConnOk(c, id, log, present) && LocallyEnabled(c, present, a)
    requires a.ClientTransmit? || a.ClientWritten? || a.ClientWriteFailed?
    ensures ConnOk(Local(c, present, a), id, log, present)
  {
    hide Visible, RelayedFrom, Reader.Stream, Writer.Wire, Writer.Transmit, Writer.WriteFailed, Writer.Written,
         Writer.Enqueued, GoodKey, BadHeader, DataLen;
    var w := c.client.writer;
    match a {
      case ClientTransmit(_, k) =>
        TransmitKeeps(w, k);
        TransmitFailed(w, k);
        Associate(c.member.reader.Stream(), c.up, w.queue[0][w.sent..w.sent + k]);
      case ClientWritten(_) =>
        WrittenKeeps(w);
        WrittenFailed(w);
      case ClientWriteFailed(_) =>
        WriteFailedKeeps(w);
    }
  }

  /** The client reader's and the member writer's steps. */
  lemma DownlinkKeeps(c: Conn, id: nat, log: seq<Entry>, present: bool, a: Action)
    requires ConnOk(c, id, log, present) && LocallyEnabled(c, present, a)
    requires a.ServerTransmit? || a.ServerWritten? || a.ClientReceive? || a.ClientHandle? || a.ClientReadFailed?
    ensures ConnOk(Local(c, present, a), id, log, present)
  {
    var w, r := c.member.writer, c.client.reader;
    hide Visible, RelayedFrom, Reader.Stream, Writer.Wire, Writer.Transmit, Reader.Receive, Reader.Complete,
         Writer.Written, Writer.Send, Writer.Enqueued, BadHeader, DataLen, Write;
    match a {
      case ServerTransmit(_, k) =>
        TransmitKeeps(w, k);
        assert w.Transmit(k).failed == w.failed by { TransmitFailed(w, k); }
        Associate(r.Stream(), c.down, w.queue[0][w.sent..w.sent + k]);
      case ServerWritten(_) =>
        WrittenKeeps(w);
        WrittenFailed(w);
      case ClientReceive(_, k) =>
        ReceiveKeepsValid(r, c.down[..k]);
        ReceiveOpen(r, c.down[..k]);
        assert r.Stream() + c.down[..k] + c.down[k..] == r.Stream() + c.down;
      case ClientHandle(_) =>
        CompleteKeepsValid(r);
      case ClientReadFailed(_) =>
        FailKeepsValid(r);
    }
  }

  lemma TransmitFailed(w: Writer, k: nat)
    ensures w.Transmit(k).failed == w.failed
  {
  }

  lemma ReceiveOpen(r: Reader, chunk: bytes)
    requires |r.raw| >= HEADER_SIZE && r.got + |chunk| <= r.Wanted()
    requires r.inBody ==> |r.raw| == HEADER_SIZE + DataLen(r.raw)
    ensures r.Receive(chunk).closed == r.closed
  {
  }

  lemma WrittenFailed(w: Writer)
    requires w.queue != [] && w.outstanding > 0
    ensures w.Written().failed == w.failed
  {
  }

  /** The member reader's steps: the reader gets one frame ahead of the log when a body
      is complete, and only then. */
  lemma UplinkKeeps(c: Conn, id: nat, log: seq<Entry>, a: Action)
    requires ConnOk(c, id, log, true) && LocallyEnabled(c, true, a)
    requires a.ServerReceive? || a.ServerHandle?
    requires a.ServerHandle? ==> !c.member.reader.inBody && !BadHeader(c.member.reader.raw)
    ensures ConnOk(Local(c, true, a), id, log, true)
  {
    var r := c.member.reader;
    hide Visible, RelayedFrom, Reader.Stream, Writer.Wire, Reader.Receive, Writer.Valid, Writer.Enqueued, BadHeader,
         DataLen, Write;
    match a {
      case ServerReceive(_, k) =>
        ReceiveKeepsValid(r, c.up[..k]);
        ReceiveKeepsRest(r, c.up[..k]);
        assert r.Stream() + c.up[..k] + c.up[k..] == r.Stream() + c.up;
      case ServerHandle(_) =>
        CompleteKeepsValid(r);
    }
  }

  lemma ReceiveKeepsRest(r: Reader, chunk: bytes)
    requires r.Valid() && r.got + |chunk| <= r.Wanted()
    ensures r.Receive(chunk).closed == r.closed && r.Receive(chunk).frames == r.frames
  {
  }

  lemma FailKeepsValid(r: Reader)
    requires r.Valid()
    ensures r.Fail().Valid() && r.Fail().Stream() == r.Stream() && r.Fail().frames == r.frames
  {
    hide BadHeader, DataLen;
  }

  // ----- Broadcasts

  ghost function Told(c: Conn, present: bool, f: bytes): Conn
    requires |f| >= HEADER_SIZE
  {
    if present then c.(member := Offer(c.member, f)) else c
  }

  lemma TellConn(c: Conn, log: seq<Entry>, present: bool, f: bytes, source: int)
    requires ConnCore(c, log, present) && |f| >= HEADER_SIZE
    ensures ConnCore(Told(c, present, f), log + [Entry(f, source)], present)
    ensures Live(c) ==> Live(Told(c, present, f))
    ensures Told(c, present, f).member.reader == c.member.reader
  {
    var e := Entry(f, source);
    hide Visible, Reader.Stream, Writer.Wire, Writer.Send, Writer.Enqueued, Reader.Valid, Writer.Valid, Origin;
    if present {
      SendKeeps(c.member.writer, f);
      assert (log + [e])[c.joinedAt..] == log[c.joinedAt..] + [e];
      VisibleAppend(log[c.joinedAt..], e, c.member.key);
    } else {
      assert (log + [e])[c.joinedAt..c.leftAt] == log[c.joinedAt..c.leftAt];
    }
  }

  lemma LogAppend(log: seq<Entry>, e: Entry, count: nat)
    requires LogOk(log, count) && Accepted(e.frame) && -1 <= e.source < count
    requires e.source == -1 ==> Intact(e.frame)
    ensures LogOk(log + [e], count)
  {
    hide Intact, BadHeader, DataLen;
  }

  lemma TellAt(s: System, f: bytes, source: int, i: nat)
    requires |f| >= HEADER_SIZE && i < |s.conns| && ConnCore(s.conns[i], s.log, i in s.members)
    requires RelayedFrom(s.log, i) + (if i == source then [f] else []) == s.conns[i].member.reader.frames
    ensures var s' := Tell(s, f, source);
            && ConnCore(s'.conns[i], s'.log, i in s'.members)
            && (Live(s.conns[i]) ==> Live(s'.conns[i]))
            && RelayedFrom(s'.log, i) + [] == s'.conns[i].member.reader.frames
  {
    hide ConnCore, Live, RelayedFrom, Offer;
    TellConn(s.conns[i], s.log, i in s.members, f, source);
    RelayedAppend(s.log, Entry(f, source), i);
    assert Tell(s, f, source).conns[i] == Told(s.conns[i], i in s.members, f);
  }

  lemma TellKeeps(s: System, f: bytes, source: int, gone: int)
    requires MidInv(s, source, f, gone) && Accepted(f) && -1 <= source < |s.conns|
    requires source == -1 ==> Intact(f)
    ensures MidInv(Tell(s, f, source), -1, f, gone)
  {
    var s' := Tell(s, f, source);
    assert |s'.conns| == |s.conns| && s'.members == s.members && s'.crashed == s.crashed && s'.locked == s.locked;
    LogAppend(s.log, Entry(f, source), |s.conns|);
    assert s'.log == s.log + [Entry(f, source)];
    hide ConnCore, Live, RelayedFrom, Accepted, Intact, LogOk, MembersOk, Tell;
    forall i | 0 <= i < |s.conns|
      ensures ConnCore(s'.conns[i], s'.log, i in s'.members)
      ensures Live(s.conns[i]) ==> Live(s'.conns[i])
      ensures RelayedFrom(s'.log, i) + [] == s'.conns[i].member.reader.frames
    {
      TellAt(s, f, source, i);
    }
  }

  lemma LeaveConn(c: Conn, log: seq<Entry>)
    requires ConnCore(c, log, true)
    ensures ConnCore(c.(leftAt := |log|), log, false)
  {
    hide Visible, Reader.Stream, Writer.Wire, Writer.Enqueued, Reader.Valid, Writer.Valid;
    assert log[c.joinedAt..] == log[c.joinedAt..|log|];
  }

  lemma WithoutIndex(members: seq<nat>, k: nat, count: nat)
    requires MembersOk(members, count) && k < |members|
    ensures var rest := members[..k] + members[k + 1..];
            && MembersOk(rest, count)
            && (forall i :: i in rest <==> i in members && i != members[k])
  {
    var rest := members[..k] + members[k + 1..];
    forall i ensures i in rest <==> i in members && i != members[k] {
      if i in members && i != members[k] {
        var j :| 0 <= j < |members| && members[j] == i;
        assert rest[if j < k then j else j - 1] == i;
      }
    }
  }

  function Dropped(s: System, k: nat): System
    requires k < |s.members| && s.members[k] < |s.conns|
  {
    var id := s.members[k];
    s.(members := s.members[..k] + s.members[k + 1..], conns := s.conns[id := s.conns[id].(leftAt := |s.log|)])
  }

  lemma DropKeeps(s: System, f: bytes, k: nat)
    requires k < |s.members| && MidInv(s, -1, f, s.members[k])
    ensures Inv(Dropped(s, k))
  {
    var id := s.members[k];
    var s' := Dropped(s, k);
    WithoutIndex(s.members, k, |s.conns|);
    hide ConnCore, Live, RelayedFrom, Accepted, Intact;
    assert id in s.members;
    LeaveConn(s.conns[id], s.log);
    forall i | 0 <= i < |s'.conns| ensures ConnOk(s'.conns[i], i, s'.log, i in s'.members) {
      assert RelayedFrom(s.log, i) + [] == s.conns[i].member.reader.frames;
    }
  }

  lemma {:induction false} FindPresent(members: seq<nat>, id: nat)
    requires id in members
    ensures Find(members, id) < |members|
  {
    if members[0] == id {
    } else {
      FindPresent(members[1..], id);
    }
  }

  lemma RemoveIsDrop(s: System, id: nat)
    requires id < |s.conns| && id in s.members
    ensures var told := Tell(s, LeaveNotice(s.conns[id].member.key), -1);
            var k := Find(told.members, id);
            k < |told.members| && told.members[k] == id && id < |told.conns| && Remove(s, id) == Dropped(told, k)
  {
    hide Offer, LeaveNotice;
    FindPresent(s.members, id);
  }

  lemma MidAnyFrame(s: System, id: nat, f: bytes)
    requires MidInv(s, -1, [], id) && id in s.members
    ensures MidInv(s, -1, f, id) && id < |s.conns| && GoodKey(s.conns[id].member.key)
  {
    hide Live, RelayedFrom, Accepted, Intact;
    assert ConnCore(s.conns[id], s.log, true);
  }

  lemma RemoveKeeps(s: System, id: nat)
    requires MidInv(s, -1, [], id) && id in s.members && id < |s.conns|
    ensures Inv(Remove(s, id))
  {
    hide *;
    var f := LeaveNotice(s.conns[id].member.key);
    MidAnyFrame(s, id, f);
    NoticesAccepted(s.conns[id].member.key);
    TellKeeps(s, f, -1, id);
    RemoveIsDrop(s, id);
    var told := Tell(s, f, -1);
    DropKeeps(told, f, Find(told.members, id));
  }

  lemma NoticesAccepted(key: bytes)
    requires GoodKey(key)
    ensures Accepted(JoinNotice(key)) && Origin(JoinNotice(key)) == key && Intact(JoinNotice(key))
    ensures Accepted(LeaveNotice(key)) && Origin(LeaveNotice(key)) == key && Intact(LeaveNotice(key))
  {
    hide Accepted, Origin, TextFrame, Intact;
    NoticeAccepted(key, HAS_JOINED);
    NoticeAccepted(key, HAS_LEFT);
  }

  // ----- Joining

  lemma NewConnOk(key: bytes, id: nat, log: seq<Entry>)
    requires GoodKey(key) && LogOk(log, id)
    ensures ConnOk(Conn(NewMember(key), NEW_CLIENT, [], [], |log|, |log|), id, log, true)
  {
    NewReaderValid();
    RelayedNone(log, id);
    hide BadHeader, DataLen, RelayedFrom;
    assert log[|log|..] == [];
  }

  function Appended(s: System, c: Conn): System {
    s.(conns := s.conns + [c], members := s.members + [|s.conns|])
  }

  lemma AppendKeeps(s: System, f: bytes, c: Conn)
    requires MidInv(s, -1, f, -1) && ConnOk(c, |s.conns|, s.log, true)
    ensures Inv(Appended(s, c))
  {
    var s' := Appended(s, c);
    hide ConnCore, Live, RelayedFrom, Accepted, Intact;
    forall i | 0 <= i < |s'.conns| ensures ConnOk(s'.conns[i], i, s'.log, i in s'.members) {
      if i < |s.conns| {
        assert RelayedFrom(s.log, i) + [] == s.conns[i].member.reader.frames;
        assert i in s'.members <==> i in s.members;
      } else {
        assert s'.members[|s.members|] == i;
      }
    }
  }

  lemma JoinIsAppend(s: System, key: bytes)
    ensures var told := Tell(s, JoinNotice(key), -1);
            Join(s, key) == Appended(told, Conn(NewMember(key), NEW_CLIENT, [], [], |told.log|, |told.log|))
  {
    hide Tell, JoinNotice, NewMember;
  }

  lemma JoinKeeps(s: System, key: bytes)
    requires Inv(s) && GoodKey(key)
    ensures Inv(Join(s, key))
  {
    var f := JoinNotice(key);
    var told := Tell(s, f, -1);
    assert |told.conns| == |s.conns|;
    hide *;
    NoticesAccepted(key);
    InvIsMid(s, f);
    TellKeeps(s, f, -1, -1);
    assert LogOk(told.log, |told.conns|) by { MidHasLog(told, f); }
    NewConnOk(key, |told.conns|, told.log);
    AppendKeeps(told, f, Conn(NewMember(key), NEW_CLIENT, [], [], |told.log|, |told.log|));
    JoinIsAppend(s, key);
  }

  lemma MidHasLog(s: System, f: bytes)
    requires MidInv(s, -1, f, -1)
    ensures LogOk(s.log, |s.conns|)
  {
  }

  lemma InvIsMid(s: System, f: bytes)
    requires Inv(s)
    ensures MidInv(s, -1, f, -1)
  {
    hide ConnCore, Live, RelayedFrom, Accepted, Intact;
    forall i | 0 <= i < |s.conns|
      ensures ConnCore(s.conns[i], s.log, i in s.members) && (i in s.members ==> Live(s.conns[i]))
      ensures RelayedFrom(s.log, i) + [] == s.conns[i].member.reader.frames
    {
      assert ConnOk(s.conns[i], i, s.log, i in s.members);
    }
  }

  // ----- Every step, every run

  /** A step inside one connection that leaves that connection in order. */
  lemma LocalKeepsInv(s: System, id: nat, c: Conn)
    requires Inv(s) && id < |s.conns| && ConnOk(c, id, s.log, id in s.members)
    ensures Inv(s.(conns := s.conns[id := c]))
  {
    hide ConnOk, Accepted, Intact;
  }

  lemma LocalIsMid(s: System, id: nat, c: Conn, source: int, f: bytes, gone: int)
    requires Inv(s) && id < |s.conns| && ConnCore(c, s.log, id in s.members)
    requires (source == id && gone == -1 && Live(c)) || (source == -1 && gone == id)
    requires c.member.reader.frames == s.conns[id].member.reader.frames + if source == id then [f] else []
    ensures MidInv(s.(conns := s.conns[id := c]), source, f, gone)
  {
    hide ConnCore, Live, RelayedFrom, Accepted, Intact;
    var s' := s.(conns := s.conns[id := c]);
    forall i | 0 <= i < |s'.conns|
      ensures ConnCore(s'.conns[i], s'.log, i in s'.members)
      ensures i in s'.members && i != gone ==> Live(s'.conns[i])
      ensures RelayedFrom(s'.log, i) + (if i == source then [f] else []) == s'.conns[i].member.reader.frames
    {
      assert ConnOk(s.conns[i], i, s.log, i in s.members);
    }
  }

  lemma MovedIsMid(s: System, a: Action)
    requires Inv(s) && Enabled(s, a) && (Broadcasts(s, a) || Removes(s, a))
    ensures a.id in s.members && a.id < |s.conns|
    ensures var raw := s.conns[a.id].member.reader.raw;
            if Broadcasts(s, a) then Accepted(raw) && MidInv(Moved(s, a), a.id, raw, -1)
            else MidInv(Moved(s, a), -1, [], a.id)
  {
    hide ConnCore, RelayedFrom, Accepted, Intact, Local, Live, MidInv;
    var c := s.conns[a.id];
    assert ConnOk(c, a.id, s.log, true);
    HandlerCore(c, s.log, a);
    hide Inv;
    if Broadcasts(s, a) {
      LocalIsMid(s, a.id, Local(c, true, a), a.id, c.member.reader.raw, -1);
    } else {
      LocalIsMid(s, a.id, Local(c, true, a), -1, [], a.id);
    }
  }

  lemma ApplyCases(s: System, a: Action)
    requires Enabled(s, a) && !a.Connect?
    ensures a.id < |s.conns|
    ensures Broadcasts(s, a) ==> |s.conns[a.id].member.reader.raw| >= HEADER_SIZE
    ensures Apply(s, a) == if Broadcasts(s, a) then Tell(Moved(s, a), s.conns[a.id].member.reader.raw, a.id)
                           else if Removes(s, a) then Remove(Moved(s, a), a.id) else Moved(s, a)
  {
    hide Moved, Tell, Remove, Removes;
  }

  /** The handler steps that end in a broadcast or a removal. */
  lemma HandlerKeeps(s: System, a: Action)
    requires Inv(s) && Enabled(s, a) && (Broadcasts(s, a) || Removes(s, a))
    ensures Inv(Apply(s, a))
  {
    assert !a.Connect?;
    var moved := Moved(s, a);
    assert |moved.conns| == |s.conns| && moved.members == s.members;
    hide *;
    MovedIsMid(s, a);
    ApplyCases(s, a);
    var raw := s.conns[a.id].member.reader.raw;
    if Broadcasts(s, a) {
      TellKeeps(moved, raw, a.id, -1);
      MidIsInv(Tell(moved, raw, a.id), raw);
    } else {
      RemoveKeeps(moved, a.id);
    }
  }

  lemma MidIsInv(s: System, f: bytes)
    requires MidInv(s, -1, f, -1)
    ensures Inv(s)
  {
    hide ConnCore, Live, RelayedFrom, Accepted, Intact;
    forall i | 0 <= i < |s.conns| ensures ConnOk(s.conns[i], i, s.log, i in s.members) {
      assert RelayedFrom(s.log, i) + [] == s.conns[i].member.reader.frames;
    }
  }

  lemma HandlerCore(c: Conn, log: seq<Entry>, a: Action)
    requires ConnCore(c, log, true) && Live(c) && LocallyEnabled(c, true, a)
    requires a.ServerHandle? || a.ServerReadFailed? || a.ServerWriteFailed?
    requires a.ServerHandle? ==> c.member.reader.inBody || BadHeader(c.member.reader.raw)
    ensures var c' := Local(c, true, a);
            && ConnCore(c', log, true)
            && var r := c.member.reader;
            && c'.member.reader.frames == r.frames + (if a.ServerHandle? && r.inBody then [r.raw] else [])
            && (a.ServerHandle? && c.member.reader.inBody ==> Live(c') && Accepted(c.member.reader.raw))
  {
    var r := c.member.reader;
    hide Visible, Reader.Stream, Writer.Wire, Writer.Enqueued, Writer.WriteFailed, BadHeader, DataLen;
    match a {
      case ServerHandle(_) => CompleteKeepsValid(r);
      case ServerReadFailed(_) => FailKeepsValid(r);
      case ServerWriteFailed(_) => WriteFailedKeeps(c.member.writer);
    }
  }

  /** Every step of the system keeps the invariant. */
  lemma StepKeeps(s: System, a: Action)
    requires Inv(s) && Enabled(s, a)
    ensures Inv(Apply(s, a))
  {
    if a.Connect? {
      JoinKeeps(s, a.key);
    } else {
      var c := s.conns[a.id];
      var present := a.id in s.members;
      assert ConnOk(c, a.id, s.log, present);
      if Broadcasts(s, a) || Removes(s, a) {
        HandlerKeeps(s, a);
      } else {
        if a.ServerReceive? || a.ServerHandle? {
          UplinkKeeps(c, a.id, s.log, a);
        } else if a.ServerTransmit? || a.ServerWritten? || a.ClientReceive? || a.ClientHandle? || a.ClientReadFailed? {
          DownlinkKeeps(c, a.id, s.log, present, a);
        } else if a.Post? || a.RunPosted? {
          PostKeeps(c, a.id, s.log, present, a);
        } else {
          ClientWriteKeeps(c, a.id, s.log, present, a);
        }
        hide ConnOk, Inv, Local;
        LocalKeepsInv(s, a.id, Local(c, present, a));
      }
    }
  }

  /** Every state that any run reaches satisfies the invariant. */
  lemma {:induction false} RunKeeps(acts: seq<Action>, s: System)
    requires Reaches(acts, s)
    ensures Inv(s)
    decreases |acts|
  {
    hide Inv, Apply, Enabled;
    if acts == [] {
      assert Inv(INITIAL) by { InitialOk(); }
    } else {
      var n := |acts| - 1;
      var s0: System :| Reaches(acts[..n], s0) && Enabled(s0, acts[n]) && s == Apply(s0, acts[n]);
      RunKeeps(acts[..n], s0);
      StepKeeps(s0, acts[n]);
    }
  }

  lemma InitialOk()
    ensures Inv(INITIAL)
  {
  }
}
