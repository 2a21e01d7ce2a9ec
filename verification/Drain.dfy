/** Left alone, the relay comes to rest, and then everything has been delivered. */
module Drain {
  import opened Bytes
  import opened Frame
  import opened Framing
  import opened Endpoint
  import opened Relay
  import opened RelayInvariant
  import opened Posts
  import opened RelayTheorems

  // ----- Work left

  function PartialLen(r: Reader): nat {
    r.Offset() + r.got
  }

  function HeaderTurn(r: Reader): nat {
    if r.inBody then 0 else 1
  }

  function Unsent(posted: seq<bytes>, w: Writer): int {
    |Concat(posted)| + |Concat(w.queue)| - w.sent
  }

  function Times(a: int, b: int): int {
    a * b
  }

  lemma TimesAdd(a: int, b: int, k: int)
    ensures Times(a, b + k) == Times(a, b) + Times(a, k)
    ensures Times(a, 0 - k) == 0 - Times(a, k)
    ensures Times(a + 1, k) == Times(a, k) + k
  {
  }

  /** The work that what a client has sent still causes, when a byte read from it weighs
      `load` until its frame is broadcast. */
  function UpWork(c: Conn, load: nat): int {
    Times(load + 2, Unsent(c.client.posted, c.client.writer)) + 2 * |c.client.posted| + |c.client.writer.queue|
    + Times(load + 1, |c.up|) + Times(load, PartialLen(c.member.reader)) + HeaderTurn(c.member.reader)
  }

  /** The work left in what the room has queued for a member. */
  function DownWork(c: Conn): int {
    3 * Unsent([], c.member.writer) + |c.member.writer.queue| + 2 * |c.down|
    + PartialLen(c.client.reader) + HeaderTurn(c.client.reader)
  }

  function Work(c: Conn, load: nat): int {
    UpWork(c, load) + DownWork(c)
  }

  function TotalWork(conns: seq<Conn>, load: nat): int {
    if conns == [] then 0 else TotalWork(conns[..|conns| - 1], load) + Work(conns[|conns| - 1], load)
  }

  /** Every byte on its way to the room may yet go out to every connection. */
  function Measure(s: System): int {
    TotalWork(s.conns, 4 * |s.conns|)
  }

  lemma {:induction false} WorkUpdate(conns: seq<Conn>, load: nat, i: nat, c: Conn)
    requires i < |conns|
    ensures TotalWork(conns[i := c], load) == TotalWork(conns, load) - Work(conns[i], load) + Work(c, load)
    decreases |conns|
  {
    hide Work;
    var n := |conns| - 1;
    if i < n {
      WorkUpdate(conns[..n], load, i, c);
      assert conns[i := c][..n] == conns[..n][i := c];
    } else {
      assert conns[i := c][..n] == conns[..n];
    }
  }

  lemma WorkNonNegative(c: Conn, load: nat)
    requires c.client.writer.Valid() && c.member.writer.Valid()
    ensures Work(c, load) >= 0
  {
    UnsentNonNegative(c.client.posted, c.client.writer);
    UnsentNonNegative([], c.member.writer);
    hide Unsent, Writer.Valid;
    assert Times(load + 2, Unsent(c.client.posted, c.client.writer)) >= 0;
    assert Times(load + 1, |c.up|) >= 0;
    assert Times(load, PartialLen(c.member.reader)) >= 0;
  }

  lemma UnsentNonNegative(posted: seq<bytes>, w: Writer)
    requires w.Valid()
    ensures Unsent(posted, w) >= 0
  {
    if w.queue != [] {
      assert Concat(w.queue) == w.queue[0] + Concat(w.queue[1..]);
    }
  }

  // ----- Single steps

  lemma SendUnsent(w: Writer, f: bytes)
    requires w.Valid()
    ensures Unsent([], w.Send(f)) == Unsent([], w) + |f| && |w.Send(f).queue| == |w.queue| + 1
  {
    ConcatAppend(w.queue, [f]);
    assert Concat([f]) == f + [] == f;
  }

  lemma WrittenUnsent(posted: seq<bytes>, w: Writer)
    requires w.queue != [] && w.outstanding > 0 && w.sent == |w.queue[0]|
    ensures Unsent(posted, w.Written()) == Unsent(posted, w) && |w.Written().queue| == |w.queue| - 1
  {
    assert Concat(w.queue) == w.queue[0] + Concat(w.queue[1..]);
  }

  /** A step in which things only move forward. */
  predicate Progress(s: System, a: Action)
    requires Enabled(s, a)
  {
    || a.RunPosted? || a.ClientTransmit? || a.ClientWritten? || a.ServerReceive?
    || (a.ServerHandle? && !Removes(s, a))
    || a.ServerTransmit? || a.ServerWritten? || a.ClientReceive? || a.ClientHandle?
  }

  lemma PostedUnsent(posted: seq<bytes>, w: Writer)
    requires w.Valid() && posted != []
    ensures Unsent(posted[1..], w.Send(posted[0])) == Unsent(posted, w)
  {
    SendUnsent(w, posted[0]);
    assert Concat(posted) == posted[0] + Concat(posted[1..]);
  }

  lemma TransmitUnsent(posted: seq<bytes>, w: Writer, k: nat)
    ensures Unsent(posted, w.Transmit(k)) == Unsent(posted, w) + (0 - k)
    ensures w.Transmit(k).queue == w.queue
  {
  }

  lemma ReceiveLen(r: Reader, chunk: bytes)
    requires |r.raw| >= HEADER_SIZE && r.got + |chunk| <= r.Wanted()
    requires r.inBody ==> |r.raw| == HEADER_SIZE + DataLen(r.raw)
    ensures PartialLen(r.Receive(chunk)) == PartialLen(r) + |chunk| && HeaderTurn(r.Receive(chunk)) == HeaderTurn(r)
  {
    hide DataLen;
  }

  lemma UpStepsDrain(c: Conn, present: bool, a: Action, load: nat)
    requires LocallyEnabled(c, present, a) && c.client.writer.Valid()
    requires a.RunPosted? || a.ClientTransmit? || a.ClientWritten? || a.ServerReceive?
    ensures UpWork(Local(c, present, a), load) < UpWork(c, load)
    ensures DownWork(Local(c, present, a)) == DownWork(c)
  {
    hide Unsent, Writer.Written, Writer.Send, Writer.Valid, Writer.Transmit, Reader.Receive, DataLen, BadHeader,
         Times, PartialLen, HeaderTurn;
    var w, posted := c.client.writer, c.client.posted;
    match a {
      case RunPosted(_) =>
        PostedUnsent(posted, w);
        SendUnsent(w, posted[0]);
      case ClientTransmit(_, k) =>
        TransmitUnsent(posted, w, k);
        TimesAdd(load + 2, Unsent(posted, w), 0 - k);
        TimesAdd(load + 2, 0, k);
        TimesAdd(load + 1, |c.up|, k);
      case ClientWritten(_) =>
        WrittenUnsent(posted, w);
      case ServerReceive(_, k) =>
        ReceiveLen(c.member.reader, c.up[..k]);
        TimesAdd(load + 1, |c.up|, 0 - k);
        TimesAdd(load + 1, 0, k);
        TimesAdd(load, PartialLen(c.member.reader), k);
    }
  }

  lemma DownStepsDrain(c: Conn, present: bool, a: Action, load: nat)
    requires LocallyEnabled(c, present, a) && c.member.writer.Valid() && c.client.reader.Valid()
    requires a.ServerTransmit? || a.ServerWritten? || a.ClientReceive? || a.ClientHandle?
    requires a.ClientHandle? ==> c.client.reader.inBody || !BadHeader(c.client.reader.raw)
    ensures DownWork(Local(c, present, a)) < DownWork(c)
    ensures UpWork(Local(c, present, a), load) == UpWork(c, load)
  {
    hide BadHeader, DataLen, Write;
    match a {
      case ServerWritten(_) => WrittenUnsent([], c.member.writer);
      case ClientHandle(_) => assert c.client.reader.inBody ==> |c.client.reader.raw| >= HEADER_SIZE;
      case _ =>
    }
  }

  // ----- A broadcast pays for itself

  lemma ToldWork(c: Conn, present: bool, f: bytes, load: nat)
    requires |f| >= HEADER_SIZE && c.member.writer.Valid()
    ensures Work(Told(c, present, f), load) <= Work(c, load) + 3 * |f| + 1
  {
    hide Origin, Unsent, Writer.Send;
    SendUnsent(c.member.writer, f);
  }

  lemma {:induction false} TotalGrowth(a: seq<Conn>, b: seq<Conn>, load: nat, d: nat)
    requires |a| == |b|
    requires forall i | 0 <= i < |a| :: Work(b[i], load) <= Work(a[i], load) + d
    ensures TotalWork(b, load) <= TotalWork(a, load) + |a| * d
    decreases |a|
  {
    hide Work;
    if a == [] {
    } else {
      var n := |a| - 1;
      TotalGrowth(a[..n], b[..n], load, d);
      assert |a| * d == n * d + d;
    }
  }

  lemma TellWork(s: System, f: bytes, source: int, load: nat)
    requires |f| >= HEADER_SIZE
    requires forall i | 0 <= i < |s.conns| :: s.conns[i].member.writer.Valid()
    ensures TotalWork(Tell(s, f, source).conns, load) <= TotalWork(s.conns, load) + |s.conns| * (3 * |f| + 1)
  {
    var told := Tell(s, f, source);
    hide Work, Offer, Writer.Valid;
    forall i | 0 <= i < |s.conns| ensures Work(told.conns[i], load) <= Work(s.conns[i], load) + (3 * |f| + 1) {
      ToldWork(s.conns[i], i in s.members, f, load);
      assert told.conns[i] == Told(s.conns[i], i in s.members, f);
    }
    TotalGrowth(s.conns, told.conns, load, 3 * |f| + 1);
  }

  lemma HandleWork(c: Conn, present: bool, a: Action, load: nat)
    requires a.ServerHandle? && LocallyEnabled(c, present, a) && c.member.reader.Valid()
    requires c.member.reader.inBody || !BadHeader(c.member.reader.raw)
    ensures var c' := Local(c, present, a);
            Work(c', load) == Work(c, load) + if c.member.reader.inBody then 1 - load * |c.member.reader.raw| else -1
  {
    hide BadHeader, DataLen, Unsent;
  }

  lemma BroadcastPays(n: nat, len: nat)
    requires n >= 1 && len >= 10
    ensures 1 - 4 * n * len + n * (3 * len + 1) < 0
  {
    assert 4 * n * len == 4 * (n * len);
    assert n * (3 * len + 1) == 3 * (n * len) + n;
    assert n * len >= n * 10;
  }

  // ----- Every step drains

  /** A client never meets a header it refuses. */
  lemma ClientHeaderFine(s: System, j: nat)
    requires Inv(s) && j < |s.conns|
    requires s.conns[j].client.reader.got == HEADER_SIZE && !s.conns[j].client.reader.inBody
    ensures !BadHeader(s.conns[j].client.reader.raw)
  {
    var c := s.conns[j];
    ConnFacts(s, j);
    assert LogOk(s.log, |s.conns|);
    hide Inv, LogOk, OfferedTo, StayInLog;
    OfferedAccepted(s, j);
    var w := c.member.writer;
    assert c.client.reader.Stream() <= Concat(w.Enqueued()) by {
      hide Reader.Valid, Writer.Valid, Reader.Stream, Writer.Wire, Writer.Enqueued;
      WireIsPrefix(w);
      assert c.client.reader.Stream() <= w.Wire();
      PrefixTrans(c.client.reader.Stream(), w.Wire(), Concat(w.Enqueued()));
    }
    HeaderOfAccepted(c.client.reader, w.Enqueued());
  }

  lemma HeaderOfAccepted(r: Reader, fs: seq<bytes>)
    requires r.Valid() && AllAccepted(fs) && r.Stream() <= Concat(fs)
    requires r.got == HEADER_SIZE && !r.inBody
    ensures !BadHeader(r.raw)
  {
    hide BadHeader, DataLen, Frames, Concat;
    FramesOfAccepted(fs);
    FramesOfPrefix(r.Stream(), Concat(fs));
    ReaderDecodes(r);
    PrefixTrans(r.frames, Frames(r.Stream()), fs);
    var rest := fs[|r.frames|..];
    assert fs == r.frames + rest;
    ConcatAppend(r.frames, rest);
    PrefixCancel(Concat(r.frames), r.Partial(), Concat(rest));
    assert r.Partial() == r.raw[..HEADER_SIZE];
    assert forall f | f in rest :: f in fs && Accepted(f);
    FirstHeader(rest, r.raw[..HEADER_SIZE]);
    assert rest[0] in fs;
    SameHeader(r.raw, rest[0]);
  }

  lemma FirstHeader(fs: seq<bytes>, header: bytes)
    requires |header| == HEADER_SIZE && header <= Concat(fs) && forall f | f in fs :: |f| >= HEADER_SIZE
    ensures fs != [] && fs[0][..HEADER_SIZE] == header
  {
    assert Concat(fs) == if fs == [] then [] else fs[0] + Concat(fs[1..]);
    hide Concat;
    assert fs[0] in fs;
    assert header == Concat(fs)[..HEADER_SIZE] == fs[0][..HEADER_SIZE];
  }

  lemma PrefixCancel(a: bytes, b: bytes, c: bytes)
    requires a + b <= a + c
    ensures b <= c
  {
    assert b == (a + b)[|a|..] && c == (a + c)[|a|..];
  }

  lemma WriterFacts(s: System)
    requires Inv(s)
    ensures forall i | 0 <= i < |s.conns| :: s.conns[i].client.writer.Valid() && s.conns[i].member.writer.Valid()
                                             && s.conns[i].client.reader.Valid() && s.conns[i].member.reader.Valid()
  {
    hide Writer.Valid, Reader.Valid, Reader.Stream, Writer.Wire, Visible, RelayedFrom, GoodKey, Live, LogOk, MembersOk;
    forall i | 0 <= i < |s.conns|
      ensures s.conns[i].client.writer.Valid() && s.conns[i].member.writer.Valid()
              && s.conns[i].client.reader.Valid() && s.conns[i].member.reader.Valid()
    {
      assert ConnOk(s.conns[i], i, s.log, i in s.members);
    }
  }

  lemma MovedWork(s: System, a: Action, load: nat)
    requires Enabled(s, a) && !a.Connect?
    ensures a.id < |s.conns|
    ensures TotalWork(Moved(s, a).conns, load) == TotalWork(s.conns, load)
            - Work(s.conns[a.id], load) + Work(Local(s.conns[a.id], a.id in s.members, a), load)
  {
    hide Local, Work, TotalWork;
    WorkUpdate(s.conns, load, a.id, Local(s.conns[a.id], a.id in s.members, a));
  }

  lemma StepShape(s: System, a: Action)
    requires Enabled(s, a) && Progress(s, a)
    ensures !a.Connect? && a.id < |s.conns|
    ensures |Apply(s, a).conns| == |s.conns| && |Moved(s, a).conns| == |s.conns|
    ensures if Broadcasts(s, a) then
              |s.conns[a.id].member.reader.raw| >= HEADER_SIZE
              && Apply(s, a) == Tell(Moved(s, a), s.conns[a.id].member.reader.raw, a.id)
            else Apply(s, a) == Moved(s, a)
    ensures LocallyEnabled(s.conns[a.id], a.id in s.members, a)
    ensures a.ServerHandle? && !Broadcasts(s, a) ==>
              !s.conns[a.id].member.reader.inBody && !BadHeader(s.conns[a.id].member.reader.raw)
    ensures Broadcasts(s, a) ==> a.ServerHandle? && s.conns[a.id].member.reader.inBody
    ensures a.ClientHandle? && !s.conns[a.id].client.reader.inBody ==> s.conns[a.id].client.reader.got == HEADER_SIZE
  {
    hide Local, Tell, BadHeader, DataLen, Remove, CanTransmit, CanFinish, CanReceive;
  }

  lemma BroadcastDrains(s: System, a: Action)
    requires Inv(s) && Enabled(s, a) && Broadcasts(s, a) && Progress(s, a)
    ensures Measure(Apply(s, a)) < Measure(s)
  {
    var n := |s.conns|;
    hide Inv, Work, TotalWork, Tell, Local, Moved, Apply, Enabled, LocallyEnabled, BadHeader, DataLen, Writer.Valid,
         Reader.Valid;
    StepShape(s, a);
    var c := s.conns[a.id];
    var raw := c.member.reader.raw;
    WriterFacts(s);
    MovedWriters(s, a);
    MovedWork(s, a, 4 * n);
    HandleWork(c, a.id in s.members, a, 4 * n);
    TellWork(Moved(s, a), raw, a.id, 4 * n);
    BroadcastPays(n, |raw|);
  }

  lemma OtherStepsDrain(s: System, a: Action)
    requires Inv(s) && Enabled(s, a) && Progress(s, a) && !Broadcasts(s, a)
    ensures Measure(Apply(s, a)) < Measure(s)
  {
    var n := |s.conns|;
    hide Inv, TotalWork, Local, BadHeader, DataLen, Writer.Valid, Reader.Valid, UpWork, DownWork, Moved, Apply, Enabled,
         LocallyEnabled;
    StepShape(s, a);
    var c := s.conns[a.id];
    var present := a.id in s.members;
    WriterFacts(s);
    MovedWork(s, a, 4 * n);
    if a.ServerHandle? {
      HandleWork(c, present, a, 4 * n);
    } else if a.RunPosted? || a.ClientTransmit? || a.ClientWritten? || a.ServerReceive? {
      UpStepsDrain(c, present, a, 4 * n);
    } else {
      if a.ClientHandle? && !c.client.reader.inBody {
        ClientHeaderFine(s, a.id);
      }
      DownStepsDrain(c, present, a, 4 * n);
    }
  }

  /** Every step forward leaves strictly less work. */
  lemma StepDrains(s: System, a: Action)
    requires Inv(s) && Enabled(s, a) && Progress(s, a)
    ensures 0 <= Measure(Apply(s, a)) < Measure(s)
  {
    hide Inv, Measure, Apply;
    StepKeeps(s, a);
    MeasureNonNegative(Apply(s, a));
    if Broadcasts(s, a) {
      BroadcastDrains(s, a);
    } else {
      OtherStepsDrain(s, a);
    }
  }

  lemma MovedWriters(s: System, a: Action)
    requires Enabled(s, a) && a.ServerHandle?
    requires forall i | 0 <= i < |s.conns| :: s.conns[i].member.writer.Valid()
    ensures forall i | 0 <= i < |Moved(s, a).conns| :: Moved(s, a).conns[i].member.writer.Valid()
  {
    hide Writer.Valid, BadHeader, DataLen;
  }

  lemma MeasureNonNegative(s: System)
    requires Inv(s)
    ensures Measure(s) >= 0
  {
    WriterFacts(s);
    hide Inv, Writer.Valid, Reader.Valid;
    TotalNonNegative(s.conns, 4 * |s.conns|);
  }

  lemma {:induction false} TotalNonNegative(conns: seq<Conn>, load: nat)
    requires forall i | 0 <= i < |conns| :: conns[i].client.writer.Valid() && conns[i].member.writer.Valid()
    ensures TotalWork(conns, load) >= 0
  {
    hide Work, Writer.Valid;
    if conns == [] {
    } else {
      TotalNonNegative(conns[..|conns| - 1], load);
      WorkNonNegative(conns[|conns| - 1], load);
    }
  }

  /** `acts` lead from `s` to `s'` by steps forward only. */
  ghost predicate Forward(s: System, acts: seq<Action>, s': System)
    decreases |acts|
  {
    if acts == [] then s' == s
    else Enabled(s, acts[0]) && Progress(s, acts[0]) && Forward(Apply(s, acts[0]), acts[1..], s')
  }

  /** Without new sends, joins and failures every run is shorter than the work left. */
  lemma {:induction false} ForwardRunsEnd(s: System, acts: seq<Action>, s': System)
    requires Inv(s) && Forward(s, acts, s')
    ensures Inv(s') && |acts| + Measure(s') <= Measure(s)
    decreases |acts|
  {
    hide Inv, Measure, Apply, Enabled, Progress;
    if acts == [] {
    } else {
      StepDrains(s, acts[0]);
      StepKeeps(s, acts[0]);
      ForwardRunsEnd(Apply(s, acts[0]), acts[1..], s');
    }
  }

  // ----- At rest

  /** No step forward is possible on connection `i`. */
  ghost predicate AtRest(s: System, i: nat) {
    forall a: Action | !a.Connect? && a.id == i && Enabled(s, a) :: !Progress(s, a)
  }

  /** A writer that has nothing to do has written everything. */
  lemma IdleWriter(w: Writer)
    requires w.Valid() && !w.failed && !CanFinish(w) && !CanTransmit(w, 1)
    ensures w.queue == [] && w.Wire() == Concat(w.Enqueued())
  {
    assert w.queue == [] ==> w.done + w.queue == w.done;
  }

  /** A reader that has nothing to do, or waits at a header it will refuse, has handed on
      all that the bytes sent to it stand for. */
  lemma IdleReader(r: Reader, wire: bytes, sent: bytes)
    requires r.Valid() && !r.closed && !CanReceive(r, wire, 1)
    requires CanHandle(r) ==> !r.inBody && BadHeader(r.raw)
    requires r.Stream() + wire == sent
    ensures r.frames == Frames(sent)
  {
    hide BadHeader, DataLen, Frames, Concat;
    if CanHandle(r) {
      RefusedForever(r.Fail(), wire);
      assert r.Fail().Stream() == r.Stream();
    } else {
      assert wire == [];
      assert r.Stream() + wire == r.Stream();
      IdleDecodes(r);
    }
  }

  lemma ClientOpenFacts(s: System, i: nat)
    requires Inv(s) && i < |s.conns|
    ensures var c := s.conns[i];
            && c.client.writer.Valid() && c.member.reader.Valid()
            && c.client.writer.Enqueued() + c.client.posted == c.client.sentAll
            && c.member.reader.Stream() + c.up == c.client.writer.Wire()
            && RelayedFrom(s.log, i) == c.member.reader.frames
            && (c.client.open ==> !c.client.reader.closed && !c.client.writer.failed)
            && (i in s.members ==> !c.member.reader.closed && !c.member.writer.failed)
            && !s.crashed
            && forall f | f in c.client.sentAll :: |f| >= HEADER_SIZE
  {
    hide Visible, Reader.Valid, Writer.Valid, Reader.Stream, Writer.Wire, RelayedFrom, LogOk, MembersOk, GoodKey;
    assert ConnOk(s.conns[i], i, s.log, i in s.members);
  }

  lemma RestMeans(s: System, i: nat)
    requires AtRest(s, i) && i < |s.conns| && i in s.members && s.conns[i].client.open && !s.crashed
    ensures var c := s.conns[i];
            && c.client.posted == []
            && !CanFinish(c.client.writer) && !CanTransmit(c.client.writer, 1)
            && !CanFinish(c.member.writer) && !CanTransmit(c.member.writer, 1)
            && !CanReceive(c.member.reader, c.up, 1)
            && !CanReceive(c.client.reader, c.down, 1) && !CanHandle(c.client.reader)
    ensures CanHandle(s.conns[i].member.reader) ==>
            !s.conns[i].member.reader.inBody && BadHeader(s.conns[i].member.reader.raw)
  {
    hide CanFinish, CanTransmit, CanReceive, CanHandle, BadHeader;
    assert RunPosted(i).id == i && ClientWritten(i).id == i && ClientTransmit(i, 1).id == i && ServerWritten(i).id == i;
    assert ServerTransmit(i, 1).id == i && ServerReceive(i, 1).id == i && ClientReceive(i, 1).id == i;
    assert ClientHandle(i).id == i && ServerHandle(i).id == i;
  }

  /** At rest, the frames that all bytes of a connected client stand for have been
      broadcast, in order. They are the beginning of what it sent exactly when its frames
      keep the reader in step, and then all frames before the first refused one. */
  lemma AllRelayed(s: System, i: nat)
    requires Inv(s) && i < |s.conns| && i in s.members && s.conns[i].client.open && AtRest(s, i)
    ensures RelayedFrom(s.log, i) == Frames(Concat(s.conns[i].client.sentAll))
    ensures forall f | f in s.conns[i].client.sentAll :: |f| >= HEADER_SIZE
    ensures RelayedFrom(s.log, i) <= s.conns[i].client.sentAll <==> InStep(s.conns[i].client.sentAll)
    ensures InStep(s.conns[i].client.sentAll) ==>
              RelayedFrom(s.log, i) == AcceptedPrefix(s.conns[i].client.sentAll)
  {
    hide *;
    var c := s.conns[i];
    ClientOpenFacts(s, i);
    RestMeans(s, i);
    RelayedFacts(s, i);
    IdleWriter(c.client.writer);
    IdleReader(c.member.reader, c.up, Concat(c.client.sentAll));
    FramesInStep(c.client.sentAll);
  }

  lemma RelayedFacts(s: System, i: nat)
    requires Inv(s) && i < |s.conns| && i in s.members && s.conns[i].client.open && s.conns[i].client.posted == []
    ensures var c := s.conns[i];
            && c.client.writer.Valid() && c.member.reader.Valid() && !c.client.writer.failed && !c.member.reader.closed
            && c.client.writer.Enqueued() == c.client.sentAll
            && c.member.reader.Stream() + c.up == c.client.writer.Wire()
            && RelayedFrom(s.log, i) == c.member.reader.frames
            && forall f | f in c.client.sentAll :: |f| >= HEADER_SIZE
  {
    ClientOpenFacts(s, i);
    hide Inv, Reader.Valid, Writer.Valid, Reader.Stream, Writer.Wire, Writer.Enqueued, RelayedFrom;
    var w := s.conns[i].client.writer;
    assert w.Enqueued() + [] == w.Enqueued();
  }

  /** At rest, a connected client has decoded everything the room has offered to it. */
  lemma AllDelivered(s: System, j: nat)
    requires Inv(s) && j < |s.conns| && j in s.members && s.conns[j].client.open && AtRest(s, j)
    ensures StayInLog(s, j) && s.conns[j].client.reader.frames == OfferedTo(s, j)
  {
    var c := s.conns[j];
    ClientOpenFacts(s, j);
    ConnFacts(s, j);
    assert LogOk(s.log, |s.conns|);
    hide Inv, AtRest, Reader.Valid, Writer.Valid, Reader.Stream, Writer.Wire, RelayedFrom, CanReceive, CanHandle,
         CanTransmit, CanFinish, Accepted, OfferedTo, StayInLog, LogOk, Frames;
    OfferedAccepted(s, j);
    RestMeans(s, j);
    IdleWriter(c.member.writer);
    IdleReader(c.client.reader, c.down, Concat(OfferedTo(s, j)));
    FramesOfAccepted(OfferedTo(s, j));
  }

  // ----- Every run settles

  ghost predicate Settled(s: System) {
    forall a: Action | Enabled(s, a) :: !Progress(s, a)
  }

  /** From every reachable state, steps forward lead to a settled one. */
  lemma Settles(s: System) returns (more: seq<Action>, s': System)
    requires Inv(s)
    ensures Forward(s, more, s') && Settled(s')
    decreases Measure(s)
  {
    hide Inv, Measure, Apply, Enabled, Progress;
    if a: Action :| Enabled(s, a) && Progress(s, a) {
      StepDrains(s, a);
      StepKeeps(s, a);
      var rest;
      rest, s' := Settles(Apply(s, a));
      more := [a] + rest;
    } else {
      more, s' := [], s;
    }
  }

  /** What the step leaves of the user's side of a connection. */
  ghost predicate SameUser(a: Client, b: Client) {
    a.sentAll == b.sentAll && a.open == b.open
  }

  lemma LocalKeepsSent(c: Conn, present: bool, a: Action)
    requires LocallyEnabled(c, present, a) && !a.Post? && !a.ClientWriteFailed? && !a.ClientReadFailed?
    requires a.ClientHandle? ==> c.client.reader.inBody || !BadHeader(c.client.reader.raw)
    ensures SameUser(Local(c, present, a).client, c.client)
  {
    hide BadHeader, DataLen;
  }

  /** Steps forward change neither who is in the room nor what the users have sent. */
  lemma StepKeepsSent(s: System, a: Action)
    requires Inv(s) && Enabled(s, a) && Progress(s, a)
    ensures var s' := Apply(s, a);
            && s'.members == s.members && |s'.conns| == |s.conns|
            && forall i | 0 <= i < |s.conns| :: SameUser(s'.conns[i].client, s.conns[i].client)
  {
    hide Inv, Local, LocallyEnabled, BadHeader, DataLen, Offer;
    StepShape(s, a);
    if a.ClientHandle? && !s.conns[a.id].client.reader.inBody {
      ClientHeaderFine(s, a.id);
    }
    LocalKeepsSent(s.conns[a.id], a.id in s.members, a);
  }

  lemma {:induction false} ForwardKeepsSent(s: System, acts: seq<Action>, s': System)
    requires Inv(s) && Forward(s, acts, s')
    ensures s'.members == s.members && |s'.conns| == |s.conns|
    ensures forall i | 0 <= i < |s.conns| :: SameUser(s'.conns[i].client, s.conns[i].client)
    decreases |acts|
  {
    hide Apply, Enabled, Progress, Inv;
    if acts == [] {
    } else {
      StepKeepsSent(s, acts[0]);
      StepKeeps(s, acts[0]);
      ForwardKeepsSent(Apply(s, acts[0]), acts[1..], s');
    }
  }

  /** The room has broadcast for sender `i` the frames that its bytes stand for: all that
      it sent, if all was acceptable, else what the reader can get out of it in step. */
  ghost predicate FullyRelayed(s: System, i: nat, sent: seq<bytes>) {
    && (forall f | f in sent :: |f| >= HEADER_SIZE)
    && RelayedFrom(s.log, i) == Frames(Concat(sent))
    && (RelayedFrom(s.log, i) <= sent <==> InStep(sent))
    && (InStep(sent) ==> RelayedFrom(s.log, i) == AcceptedPrefix(sent))
    && (AllAccepted(sent) ==> RelayedFrom(s.log, i) == sent)
  }

  lemma RelayedFully(s: System, i: nat)
    requires Inv(s) && i < |s.conns| && i in s.members && s.conns[i].client.open && AtRest(s, i)
    ensures FullyRelayed(s, i, s.conns[i].client.sentAll)
  {
    hide Inv, AtRest, RelayedFrom, Frames, InStep, AcceptedPrefix, AllAccepted;
    AllRelayed(s, i);
    if AllAccepted(s.conns[i].client.sentAll) {
      FramesOfAccepted(s.conns[i].client.sentAll);
    }
  }

  /** Quiescence: after any run, without new sends, joins and failures, at most `Measure`
      further steps happen; and once none is possible, everything that a connected client
      had sent has been broadcast in order, and every connected client has decoded all
      that was broadcast for it. */
  lemma Quiescence(acts: seq<Action>, s: System, more: seq<Action>, s': System)
    requires Reaches(acts, s) && Forward(s, more, s')
    ensures Inv(s) && |more| <= Measure(s)
    ensures |s'.conns| == |s.conns|
    ensures Settled(s') ==> forall i | 0 <= i < |s.conns| && i in s.members && s.conns[i].client.open ::
              && StayInLog(s', i) && s'.conns[i].client.reader.frames == OfferedTo(s', i)
              && FullyRelayed(s', i, PostsOf(acts, i))
  {
    hide Reaches, Forward, Inv, Measure, OfferedTo, StayInLog, Apply, Enabled, Progress, FullyRelayed;
    RunKeeps(acts, s);
    SentIsPosted(acts, s);
    ForwardRunsEnd(s, more, s');
    ForwardKeepsSent(s, more, s');
    MeasureNonNegative(s');
    if Settled(s') {
      forall i | 0 <= i < |s.conns| && i in s.members && s.conns[i].client.open
        ensures StayInLog(s', i) && s'.conns[i].client.reader.frames == OfferedTo(s', i)
        ensures FullyRelayed(s', i, PostsOf(acts, i))
      {
        SettledAtRest(s', i);
        AllDelivered(s', i);
        RelayedFully(s', i);
      }
    }
  }

  lemma SettledAtRest(s: System, i: nat)
    requires Settled(s)
    ensures AtRest(s, i)
  {
    hide Enabled, Progress;
  }

  // ----- Nothing sent is missed

  lemma {:induction false} PositionsComplete(log: seq<Entry>, key: bytes, lo: nat, hi: nat, p: nat)
    requires lo <= p < hi <= |log| && forall e | e in log :: |e.frame| >= HEADER_SIZE
    requires Origin(log[p].frame) != key
    ensures p in Positions(log, key, lo, hi)
    decreases hi
  {
    hide Origin;
    if p == hi - 1 {
    } else {
      PositionsComplete(log, key, lo, hi - 1, p);
    }
  }

  /** The log entry that carries frame number `n` of a sender. */
  lemma {:induction false} EntryOf(log: seq<Entry>, id: int, n: nat) returns (p: nat)
    requires n < |RelayedFrom(log, id)|
    ensures p < |log| && log[p].source == id && Rank(log, p) == n && log[p].frame == RelayedFrom(log, id)[n]
    decreases |log|
  {
    var last := |log| - 1;
    if n < |RelayedFrom(log[..last], id)| {
      p := EntryOf(log[..last], id, n);
      assert log[..last][..p] == log[..p];
    } else {
      p := last;
    }
  }

  /** In a settled room, frame `n` of those that the bytes of client `i` stand for is in the
      log, and client `j` has decoded that very entry, as its frame `k`, unless it came
      before `j` joined or names `j` as its origin. If the frames of `i` keep the reader in
      step, it is frame `n` that `i` sent. */
  lemma EveryFrameArrives(s: System, i: nat, j: nat, n: nat) returns (p: nat, k: nat)
    requires Inv(s) && Settled(s)
    requires i < |s.conns| && i in s.members && s.conns[i].client.open
    requires j < |s.conns| && j in s.members && s.conns[j].client.open
    requires n < |Frames(Concat(s.conns[i].client.sentAll))|
    ensures p < |s.log| && s.log[p].source == i && Rank(s.log, p) == n
    ensures FullyRelayed(s, i, s.conns[i].client.sentAll)
    ensures s.log[p].frame == Frames(Concat(s.conns[i].client.sentAll))[n]
    ensures InStep(s.conns[i].client.sentAll) ==>
              n < |s.conns[i].client.sentAll| && s.log[p].frame == s.conns[i].client.sentAll[n]
    ensures |s.log[p].frame| >= HEADER_SIZE && StayInLog(s, j) && ReadFrom(s, j, DecodedAt(s, j))
    ensures s.conns[j].joinedAt <= p && Origin(s.log[p].frame) != s.conns[j].member.key ==>
              && k < |s.conns[j].client.reader.frames| && DecodedAt(s, j)[k] == p
              && s.conns[j].client.reader.frames[k] == s.log[p].frame
  {
    hide *;
    var sent := s.conns[i].client.sentAll;
    SettledAtRest(s, i);
    SettledAtRest(s, j);
    RelayedFully(s, i);
    FullyMeans(s, i, sent);
    AllDelivered(s, j);
    p := EntryOf(s.log, i, n);
    AllDecodedAt(s, j);
    DecodedAtReads(s, j);
    k := 0;
    if s.conns[j].joinedAt <= p && Origin(s.log[p].frame) != s.conns[j].member.key {
      PositionsComplete(s.log, s.conns[j].member.key, s.conns[j].joinedAt, |s.log|, p);
      k :| 0 <= k < |DecodedAt(s, j)| && DecodedAt(s, j)[k] == p;
      ReadAt(s, j, DecodedAt(s, j), k);
    }
  }

  lemma FullyMeans(s: System, i: nat, sent: seq<bytes>)
    requires FullyRelayed(s, i, sent)
    ensures forall f | f in sent :: |f| >= HEADER_SIZE
    ensures RelayedFrom(s.log, i) == Frames(Concat(sent))
    ensures InStep(sent) ==> RelayedFrom(s.log, i) <= sent
  {
  }

  lemma DecodedAtReads(s: System, j: nat)
    requires Inv(s) && j < |s.conns|
    ensures StayInLog(s, j) && ReadFrom(s, j, DecodedAt(s, j))
  {
    hide Inv, StayInLog, DecodedAt;
    DecodedAtMatches(s, j);
  }

  lemma ReadAt(s: System, j: nat, pos: seq<nat>, k: nat)
    requires j < |s.conns| && ReadFrom(s, j, pos) && k < |pos|
    ensures k < |s.conns[j].client.reader.frames| && pos[k] < |s.log|
    ensures s.conns[j].client.reader.frames[k] == s.log[pos[k]].frame
  {
  }

  lemma AllDecodedAt(s: System, j: nat)
    requires j < |s.conns| && j in s.members && StayInLog(s, j) && s.conns[j].client.reader.frames == OfferedTo(s, j)
    ensures s.conns[j].joinedAt <= |s.log| && forall e | e in s.log :: |e.frame| >= HEADER_SIZE
    ensures DecodedAt(s, j) == Positions(s.log, s.conns[j].member.key, s.conns[j].joinedAt, |s.log|)
  {
    hide Positions, Visible;
    PositionsMatch(s.log, s.conns[j].member.key, s.conns[j].joinedAt, StayEnd(s, j));
  }
}
