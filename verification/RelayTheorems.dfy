/** What clients can rely on, in every state of every run. */
module RelayTheorems {
  import opened Bytes
  import opened Frame
  import opened Codec
  import opened Framing
  import opened Endpoint
  import opened Relay
  import opened RelayInvariant
  import opened Notices
  import opened Posts

  lemma PrefixTrans<T>(a: seq<T>, b: seq<T>, c: seq<T>)
    requires a <= b <= c
    ensures a <= c
  {
  }

  lemma ConcatPrefix(a: seq<bytes>, b: seq<bytes>)
    ensures Concat(a) <= Concat(a + b)
  {
    ConcatAppend(a, b);
  }

  /** What a reader at the end of a writer's wire has handed on is a prefix of the frames
      that everything meant for the writer stands for. */
  lemma ReaderBehindWriter(r: Reader, transit: bytes, w: Writer, enqueued: seq<bytes>)
    requires r.Valid() && w.Valid() && r.Stream() + transit == w.Wire()
    requires w.Enqueued() <= enqueued
    ensures r.frames <= Frames(Concat(enqueued))
  {
    assert r.Stream() <= w.Wire();
    assert r.frames <= Frames(r.Stream()) by { ReaderDecodes(r); }
    hide *;
    WireIsPrefix(w);
    assert w.Enqueued() + enqueued[|w.Enqueued()|..] == enqueued;
    ConcatPrefix(w.Enqueued(), enqueued[|w.Enqueued()|..]);
    PrefixTrans(r.Stream(), w.Wire(), Concat(w.Enqueued()));
    PrefixTrans(r.Stream(), Concat(w.Enqueued()), Concat(enqueued));
    FramesOfPrefix(r.Stream(), Concat(enqueued));
    PrefixTrans(r.frames, Frames(r.Stream()), Frames(Concat(enqueued)));
  }

  lemma {:induction false} VisibleInLog(log: seq<Entry>, key: bytes)
    requires forall e | e in log :: |e.frame| >= HEADER_SIZE
    ensures forall f | f in Visible(log, key) :: exists e | e in log :: e.frame == f && Origin(f) != key
  {
    hide Origin;
    if log == [] {
    } else {
      var n := |log| - 1;
      VisibleInLog(log[..n], key);
      assert forall e | e in log[..n] :: e in log;
      assert log[n] in log;
    }
  }

  function StayEnd(s: System, j: nat): nat
    requires j < |s.conns|
  {
    if j in s.members then |s.log| else s.conns[j].leftAt
  }

  ghost predicate StayInLog(s: System, j: nat)
    requires j < |s.conns|
  {
    && s.conns[j].joinedAt <= StayEnd(s, j) <= |s.log|
    && (forall e | e in s.log :: |e.frame| >= HEADER_SIZE)
  }

  /** The broadcasts of the stay of member `j` in the room, less its own. */
  ghost function OfferedTo(s: System, j: nat): seq<bytes>
    requires j < |s.conns| && StayInLog(s, j)
  {
    Visible(s.log[s.conns[j].joinedAt..StayEnd(s, j)], s.conns[j].member.key)
  }

  lemma ConnFacts(s: System, j: nat)
    requires Inv(s) && j < |s.conns|
    ensures StayInLog(s, j)
    ensures var c := s.conns[j];
            && c.client.reader.Valid() && c.member.writer.Valid()
            && c.client.reader.Stream() + c.down == c.member.writer.Wire()
            && c.member.writer.Enqueued() == OfferedTo(s, j)
  {
    hide Visible, Reader.Stream, Writer.Wire, RelayedFrom, LogOk, MembersOk, BadHeader, DataLen, Accepted, Live,
         GoodKey;
    var c := s.conns[j];
    assert ConnOk(c, j, s.log, j in s.members);
    assert Stay(c, s.log, j in s.members) == s.log[c.joinedAt..StayEnd(s, j)];
  }

  lemma OfferedAccepted(s: System, j: nat)
    requires j < |s.conns| && StayInLog(s, j) && LogOk(s.log, |s.conns|)
    ensures forall f | f in OfferedTo(s, j) :: Accepted(f)
  {
    var stay := s.log[s.conns[j].joinedAt..StayEnd(s, j)];
    hide Visible, Accepted, Intact, Origin;
    VisibleInLog(stay, s.conns[j].member.key);
    forall f | f in OfferedTo(s, j) ensures Accepted(f) {
      var e :| e in stay && e.frame == f;
      assert e in s.log;
    }
  }

  /** The room's queue for a member holds exactly the broadcasts of the member's stay
      whose origin is not the member's own. */
  lemma QueuedIsOffered(acts: seq<Action>, s: System, j: nat)
    requires Reaches(acts, s) && j < |s.conns|
    ensures StayInLog(s, j) && s.conns[j].member.writer.Enqueued() == OfferedTo(s, j)
  {
    hide Reaches, Inv, OfferedTo;
    RunKeeps(acts, s);
    ConnFacts(s, j);
  }

  /** Ordered delivery: what client `j` has decoded is a prefix of the broadcasts of its
      stay whose origin is not its own. */
  lemma Delivered(acts: seq<Action>, s: System, j: nat)
    requires Reaches(acts, s) && j < |s.conns|
    ensures StayInLog(s, j) && s.conns[j].client.reader.frames <= OfferedTo(s, j)
  {
    hide Reaches, Inv, OfferedTo, StayInLog;
    RunKeeps(acts, s);
    DeliveredInv(s, j);
  }

  lemma DeliveredInv(s: System, j: nat)
    requires Inv(s) && j < |s.conns|
    ensures StayInLog(s, j) && s.conns[j].client.reader.frames <= OfferedTo(s, j)
  {
    var c := s.conns[j];
    ConnFacts(s, j);
    assert LogOk(s.log, |s.conns|);
    hide Inv, OfferedTo, StayInLog, LogOk, Reader.Valid, Reader.Stream, Writer.Wire, Writer.Valid, Accepted, Frames;
    OfferedAccepted(s, j);
    FramesOfAccepted(OfferedTo(s, j));
    ReaderBehindWriter(c.client.reader, c.down, c.member.writer, OfferedTo(s, j));
  }

  /** What the room broadcast for sender `i` is, whatever its user posted in the run, a
      prefix of the frames that the bytes posted stand for; and a prefix of what was
      posted, byte for byte, as long as these frames keep the reader in step. */
  lemma Relayed(acts: seq<Action>, s: System, i: nat)
    requires Reaches(acts, s) && i < |s.conns|
    ensures RelayedFrom(s.log, i) <= Frames(Concat(PostsOf(acts, i)))
    ensures forall f | f in PostsOf(acts, i) :: |f| >= HEADER_SIZE
    ensures InStep(PostsOf(acts, i)) ==> RelayedFrom(s.log, i) <= PostsOf(acts, i)
  {
    hide Reaches, InStep;
    RunKeeps(acts, s);
    SentIsPosted(acts, s);
    RelayedInv(s, i);
  }

  lemma RelayedInv(s: System, i: nat)
    requires Inv(s) && i < |s.conns|
    ensures RelayedFrom(s.log, i) <= Frames(Concat(s.conns[i].client.sentAll))
    ensures forall f | f in s.conns[i].client.sentAll :: |f| >= HEADER_SIZE
    ensures InStep(s.conns[i].client.sentAll) ==> RelayedFrom(s.log, i) <= s.conns[i].client.sentAll
  {
    hide Visible, Reader.Valid, Reader.Stream, Writer.Wire, Writer.Valid, InStep, RelayedFrom, Frames;
    var c := s.conns[i];
    assert ConnOk(c, i, s.log, i in s.members);
    ReaderBehindWriter(c.member.reader, c.up, c.client.writer, c.client.sentAll);
    FramesInStep(c.client.sentAll);
    if InStep(c.client.sentAll) {
      PrefixTrans(RelayedFrom(s.log, i), Frames(Concat(c.client.sentAll)), c.client.sentAll);
    }
  }

  // ----- Positions in the log

  /** Where the entries offered to a member are, between two points of the log. */
  function Positions(log: seq<Entry>, key: bytes, lo: nat, hi: nat): seq<nat>
    requires lo <= hi <= |log|
    requires forall e | e in log :: |e.frame| >= HEADER_SIZE
  {
    if hi == lo then []
    else Positions(log, key, lo, hi - 1) + if Origin(log[hi - 1].frame) != key then [hi - 1] else []
  }

  /** Strictly growing positions from `lo` up to `hi`. */
  predicate Ordered(pos: seq<nat>, lo: nat, hi: nat) {
    && (forall n | 0 <= n < |pos| :: lo <= pos[n] < hi)
    && (forall m, n | 0 <= m < n < |pos| :: pos[m] < pos[n])
  }

  lemma OrderedGrows(pos: seq<nat>, lo: nat, hi: nat)
    requires lo <= hi && Ordered(pos, lo, hi)
    ensures Ordered(pos, lo, hi + 1) && Ordered(pos + [hi], lo, hi + 1)
  {
  }

  lemma {:induction false} PositionsOrdered(log: seq<Entry>, key: bytes, lo: nat, hi: nat)
    requires lo <= hi <= |log|
    requires forall e | e in log :: |e.frame| >= HEADER_SIZE
    ensures Ordered(Positions(log, key, lo, hi), lo, hi)
    decreases hi
  {
    hide Origin;
    if hi == lo {
    } else {
      PositionsOrdered(log, key, lo, hi - 1);
      hide Ordered;
      var was := Positions(log, key, lo, hi - 1);
      OrderedGrows(was, lo, hi - 1);
      assert was + [] == was;
    }
  }

  lemma {:induction false} PositionsMatch(log: seq<Entry>, key: bytes, lo: nat, hi: nat)
    requires lo <= hi <= |log|
    requires forall e | e in log :: |e.frame| >= HEADER_SIZE
    ensures var pos, seen := Positions(log, key, lo, hi), Visible(log[lo..hi], key);
            FramesAt(log, pos, seen)
    decreases hi
  {
    hide Origin, Visible, FramesAt;
    if hi == lo {
      assert log[lo..hi] == [];
      VisibleNone(key);
      FramesAtNone(log);
    } else {
      PositionsMatch(log, key, lo, hi - 1);
      var pos, seen := Positions(log, key, lo, hi - 1), Visible(log[lo..hi - 1], key);
      assert log[lo..hi] == log[lo..hi - 1] + [log[hi - 1]];
      VisibleAppend(log[lo..hi - 1], log[hi - 1], key);
      FramesAtMore(log, pos, seen, hi - 1);
      assert pos + [] == pos && seen + [] == seen;
    }
  }

  /** `seen` holds the frames of the log at `pos`, one for one. */
  ghost predicate FramesAt(log: seq<Entry>, pos: seq<nat>, seen: seq<bytes>) {
    |pos| == |seen| && forall n | 0 <= n < |pos| :: pos[n] < |log| && seen[n] == log[pos[n]].frame
  }

  lemma FramesAtNone(log: seq<Entry>)
    ensures FramesAt(log, [], [])
  {
  }

  lemma FramesAtMore(log: seq<Entry>, pos: seq<nat>, seen: seq<bytes>, p: nat)
    requires FramesAt(log, pos, seen) && p < |log|
    ensures FramesAt(log, pos + [p], seen + [log[p].frame])
  {
  }

  lemma VisibleNone(key: bytes)
    ensures Visible([], key) == []
  {
  }

  /** How many earlier entries came from the same connection. */
  function Rank(log: seq<Entry>, p: nat): nat
    requires p < |log|
  {
    |RelayedFrom(log[..p], log[p].source)|
  }

  lemma {:induction false} RankMatches(log: seq<Entry>, p: nat)
    requires p < |log|
    ensures var from := RelayedFrom(log, log[p].source);
            Rank(log, p) < |from| && from[Rank(log, p)] == log[p].frame
    decreases |log|
  {
    var n := |log| - 1;
    if p == n {
    } else {
      RankMatches(log[..n], p);
      assert log[..n][..p] == log[..p];
    }
  }

  lemma {:induction false} RankGrows(log: seq<Entry>, p: nat, q: nat)
    requires p < q < |log| && log[p].source == log[q].source
    ensures Rank(log, p) < Rank(log, q)
    decreases |log|
  {
    RankMatches(log[..q], p);
    assert log[..q][..p] == log[..p];
  }

  /** Where the frames that client `j` has decoded stand in the log. */
  ghost function DecodedAt(s: System, j: nat): (pos: seq<nat>)
    requires j < |s.conns| && StayInLog(s, j)
  {
    var c := s.conns[j];
    var pos := Positions(s.log, c.member.key, c.joinedAt, StayEnd(s, j));
    if |c.client.reader.frames| <= |pos| then pos[..|c.client.reader.frames|] else pos
  }

  /** The decoded frames are log entries of the stay, at strictly growing positions. */
  lemma DecodedAtMatches(s: System, j: nat)
    requires Inv(s) && j < |s.conns|
    ensures StayInLog(s, j)
    ensures var pos, frames := DecodedAt(s, j), s.conns[j].client.reader.frames;
            && |pos| == |frames|
            && (forall n | 0 <= n < |pos| ::
                  s.conns[j].joinedAt <= pos[n] < |s.log| && frames[n] == s.log[pos[n]].frame)
            && (forall m, n | 0 <= m < n < |pos| :: pos[m] < pos[n])
  {
    hide Positions, Visible, Inv;
    DeliveredInv(s, j);
    PositionsOrdered(s.log, s.conns[j].member.key, s.conns[j].joinedAt, StayEnd(s, j));
    PositionsMatch(s.log, s.conns[j].member.key, s.conns[j].joinedAt, StayEnd(s, j));
  }

  /** The frames of client `j` are the log entries at `pos`, one for one. */
  ghost predicate ReadFrom(s: System, j: nat, pos: seq<nat>)
    requires j < |s.conns|
  {
    FramesAt(s.log, pos, s.conns[j].client.reader.frames)
  }

  /** Total order: every frame a client has decoded is one entry of the log, and two
      clients decode any two entries in the same relative order. */
  lemma TotalOrder(acts: seq<Action>, s: System, i: nat, j: nat)
    requires Reaches(acts, s) && i < |s.conns| && j < |s.conns|
    ensures StayInLog(s, i) && StayInLog(s, j)
    ensures ReadFrom(s, i, DecodedAt(s, i)) && ReadFrom(s, j, DecodedAt(s, j))
    ensures var p, q := DecodedAt(s, i), DecodedAt(s, j);
            forall m, n, m', n' |
              0 <= m < n < |p| && 0 <= m' < |q| && 0 <= n' < |q| && p[m] == q[m'] && p[n] == q[n'] :: m' < n'
  {
    hide Reaches, Inv, DecodedAt, StayInLog;
    RunKeeps(acts, s);
    DecodedAtMatches(s, i);
    DecodedAtMatches(s, j);
  }

  /** Entry `p` of the log, read from a client, is the frame of that client's bytes with
      the same rank, and the frame it sent if its frames keep the reader in step. */
  ghost predicate SentBy(s: System, p: nat)
    requires p < |s.log| && 0 <= s.log[p].source < |s.conns|
  {
    var sent, r := s.conns[s.log[p].source].client.sentAll, Rank(s.log, p);
    && r < |Frames(Concat(sent))| && s.log[p].frame == Frames(Concat(sent))[r]
    && (forall f | f in sent :: |f| >= HEADER_SIZE)
    && (InStep(sent) ==> r < |sent| && s.log[p].frame == sent[r])
  }

  lemma EntrySent(s: System, p: nat)
    requires Inv(s) && p < |s.log| && 0 <= s.log[p].source < |s.conns|
    ensures SentBy(s, p)
  {
    hide Inv, RelayedFrom, Frames, InStep, Rank;
    RankMatches(s.log, p);
    RelayedInv(s, s.log[p].source);
  }

  /** Each of these log entries is a notice or comes from one sender, whose frames are in the
      order sent and none twice. */
  ghost predicate FromSenders(s: System, pos: seq<nat>) {
    && (forall n | 0 <= n < |pos| :: pos[n] < |s.log| && -1 <= s.log[pos[n]].source < |s.conns|)
    && (forall n | 0 <= n < |pos| && s.log[pos[n]].source >= 0 :: SentBy(s, pos[n]))
    && (forall n | 0 <= n < |pos| && s.log[pos[n]].source == -1 :: IsNotice(s, pos[n]))
    && (forall m, n | 0 <= m < n < |pos| && s.log[pos[m]].source == s.log[pos[n]].source ::
          Rank(s.log, pos[m]) < Rank(s.log, pos[n]))
  }

  /** End to end: every frame that client `j` has decoded is one entry of the log, and that
      is the room's notice of a join or a leave or, byte for byte, a frame of one sender;
      the frames of one sender arrive in the order sent, none twice. */
  lemma EndToEnd(acts: seq<Action>, s: System, j: nat)
    requires Reaches(acts, s) && j < |s.conns|
    ensures Inv(s) && StayInLog(s, j) && ReadFrom(s, j, DecodedAt(s, j))
    ensures forall i: nat | i < |s.conns| :: s.conns[i].client.sentAll == PostsOf(acts, i)
    ensures FromSenders(s, DecodedAt(s, j))
  {
    hide Reaches, DecodedAt, StayInLog, Rank, SentBy, NoticesOk, IsNotice, Inv;
    RunKeeps(acts, s);
    SentIsPosted(acts, s);
    NoticesKept(acts, s);
    DecodedAtMatches(s, j);
    SourcesKnown(s);
    var pos := DecodedAt(s, j);
    forall n | 0 <= n < |pos| && s.log[pos[n]].source >= 0
      ensures SentBy(s, pos[n])
    {
      EntrySent(s, pos[n]);
    }
    forall n | 0 <= n < |pos| && s.log[pos[n]].source == -1
      ensures IsNotice(s, pos[n])
    {
      NoticeAt(s, pos[n]);
    }
    forall m, n | 0 <= m < n < |pos| && s.log[pos[m]].source == s.log[pos[n]].source
      ensures Rank(s.log, pos[m]) < Rank(s.log, pos[n])
    {
      RankGrows(s.log, pos[m], pos[n]);
    }
  }

  /** The same, for one decoded frame: it is the notice that a known connection joined or
      left, or, as long as its sender's frames keep the reader in step, the frame of that
      rank among those that the sender's user has posted. */
  lemma EachDecoded(acts: seq<Action>, s: System, j: nat, n: nat) returns (source: int, r: nat)
    requires Reaches(acts, s) && j < |s.conns| && n < |s.conns[j].client.reader.frames|
    ensures -1 <= source < |s.conns|
    ensures source == -1 ==>
              exists i: nat :: (
                i < |s.conns|
                && (s.conns[j].client.reader.frames[n] == JoinNotice(s.conns[i].member.key)
                    || (i !in s.members && s.conns[j].client.reader.frames[n] == LeaveNotice(s.conns[i].member.key))))
    ensures forall i: nat | i < |s.conns| :: forall f | f in PostsOf(acts, i) :: |f| >= HEADER_SIZE
    ensures source >= 0 ==> r < |Frames(Concat(PostsOf(acts, source)))|
                            && s.conns[j].client.reader.frames[n] == Frames(Concat(PostsOf(acts, source)))[r]
    ensures source >= 0 && InStep(PostsOf(acts, source)) ==>
              r < |PostsOf(acts, source)| && s.conns[j].client.reader.frames[n] == PostsOf(acts, source)[r]
  {
    hide Reaches, DecodedAt, StayInLog, Rank, InStep, Frames, Inv, JoinNotice, LeaveNotice, PostsOf, Concat;
    EndToEnd(acts, s, j);
    forall i: nat | i < |s.conns| ensures forall f | f in PostsOf(acts, i) :: |f| >= HEADER_SIZE {
      RelayedInv(s, i);
    }
    var p := DecodedAt(s, j)[n];
    source, r := s.log[p].source, Rank(s.log, p);
  }

  lemma SourcesKnown(s: System)
    requires Inv(s)
    ensures forall p | 0 <= p < |s.log| :: -1 <= s.log[p].source < |s.conns|
    ensures forall p | 0 <= p < |s.log| && s.log[p].source == -1 :: Intact(s.log[p].frame)
  {
    hide Intact, ConnOk, BadHeader, DataLen;
    forall p | 0 <= p < |s.log|
      ensures -1 <= s.log[p].source < |s.conns|
      ensures s.log[p].source == -1 ==> Intact(s.log[p].frame)
    {
      assert s.log[p] in s.log;
    }
  }

  /** If every client sends encoded frames, every frame any client decodes is well formed
      and passes the checksum. */
  lemma AllArriveIntact(acts: seq<Action>, s: System, j: nat)
    requires Reaches(acts, s) && j < |s.conns|
    requires forall i: nat, f | i < |s.conns| && f in PostsOf(acts, i) :: Intact(f)
    ensures forall f | f in s.conns[j].client.reader.frames :: Intact(f)
  {
    hide Reaches, DecodedAt, StayInLog, Rank, Intact, Honest, Inv, InStep, Frames;
    RunKeeps(acts, s);
    SentIsPosted(acts, s);
    SourcesKnown(s);
    DecodedAtMatches(s, j);
    var pos, frames := DecodedAt(s, j), s.conns[j].client.reader.frames;
    forall f | f in frames ensures Intact(f) {
      var n :| 0 <= n < |frames| && frames[n] == f;
      if s.log[pos[n]].source >= 0 {
        var sent := s.conns[s.log[pos[n]].source].client.sentAll;
        EntrySent(s, pos[n]);
        IntactInStep(sent);
        assert f in sent;
      }
    }
  }

  lemma IntactInStep(fs: seq<bytes>)
    requires forall f | f in fs :: Intact(f)
    ensures forall f | f in fs :: |f| >= HEADER_SIZE
    ensures InStep(fs)
  {
    hide Intact, Honest, InStep;
    forall f | f in fs ensures Honest(f) {
      IntactHonest(f);
    }
    HonestInStep(fs);
  }

  // ----- Membership and notices

  /** Members stay distinct and in the order they joined, the lock is free between
      steps, and the double removal never happens. */
  lemma MembershipSafe(acts: seq<Action>, s: System)
    requires Reaches(acts, s)
    ensures !s.locked && !s.crashed
    ensures forall i, j | 0 <= i < j < |s.members| :: s.members[i] < s.members[j] < |s.conns|
    ensures forall i | i in s.members ::
              i < |s.conns| && !s.conns[i].member.reader.closed && !s.conns[i].member.writer.failed
  {
    hide Reaches;
    RunKeeps(acts, s);
    forall i | i in s.members ensures i < |s.conns| && Live(s.conns[i]) {
      assert ConnOk(s.conns[i], i, s.log, i in s.members);
    }
  }

  /** One write is running on a socket exactly while messages are queued; after a failed
      write none is; and nothing enqueued is lost or reordered. */
  lemma WritersInOrder(acts: seq<Action>, s: System, i: nat)
    requires Reaches(acts, s) && i < |s.conns|
    ensures var w := s.conns[i].client.writer;
            && w.outstanding == (if w.failed || w.queue == [] then 0 else 1)
            && w.done + w.queue + s.conns[i].client.posted == PostsOf(acts, i)
    ensures i in s.members ==>
            var w := s.conns[i].member.writer;
            w.outstanding == (if w.queue == [] then 0 else 1)
  {
    hide Reaches;
    RunKeeps(acts, s);
    SentIsPosted(acts, s);
    assert ConnOk(s.conns[i], i, s.log, i in s.members);
  }

  /** What a broadcast adds to the queue of connection `i`. */
  ghost function Addition(s: System, i: nat, f: bytes): seq<bytes>
    requires i < |s.conns| && |f| >= HEADER_SIZE
  {
    if i in s.members && s.conns[i].member.key != Origin(f) then [f] else []
  }

  lemma TellAdds(s: System, f: bytes, source: int, i: nat)
    requires Inv(s) && i < |s.conns| && |f| >= HEADER_SIZE
    ensures Tell(s, f, source).conns[i].member.writer.Enqueued() ==
            s.conns[i].member.writer.Enqueued() + Addition(s, i, f)
    ensures Tell(s, f, source).conns[i].member.key == s.conns[i].member.key
  {
    hide Origin, Reader.Valid, Reader.Stream, Writer.Wire, Writer.Send, Visible, RelayedFrom, LogOk, MembersOk, Live,
         GoodKey;
    assert ConnOk(s.conns[i], i, s.log, i in s.members);
    SendKeeps(s.conns[i].member.writer, f);
  }

  /** When a client joins, every member with another endpoint gets the notice exactly
      once, and the newcomer, last in the list, gets nothing. */
  lemma JoinNoticed(s: System, key: bytes, i: nat)
    requires Inv(s) && GoodKey(key) && i < |s.conns|
    ensures var s' := Join(s, key);
            && s'.members == s.members + [|s.conns|]
            && s'.conns[|s.conns|].member.writer.Enqueued() == []
            && s'.conns[i].member.writer.Enqueued() == s.conns[i].member.writer.Enqueued()
               + (if i in s.members && s.conns[i].member.key != key then [JoinNotice(key)] else [])
  {
    hide TextFrame, Accepted, Intact, Origin, Inv;
    NoticesAccepted(key);
    TellAdds(s, JoinNotice(key), -1, i);
  }

  /** When a member leaves, exactly that member goes from the list, and the others keep
      their order; the exit for a missing member is not taken. */
  lemma LeaveDropsOne(s: System, id: nat)
    requires Inv(s) && id in s.members && id < |s.conns|
    ensures var s', k := Remove(s, id), Find(s.members, id);
            && !s'.crashed && !s'.locked
            && k < |s.members| && s.members[k] == id && s'.members == s.members[..k] + s.members[k + 1..]
  {
    hide *;
    RoomFacts(s, id);
    RemoveIsDrop(s, id);
    DroppedFacts(Tell(s, LeaveNotice(s.conns[id].member.key), -1), Find(s.members, id), id);
  }

  /** When a member leaves, every other member with another endpoint gets the notice
      exactly once, and the leaver does not. */
  lemma LeaveNoticed(s: System, id: nat, i: nat)
    requires Inv(s) && id in s.members && id < |s.conns| && i < |s.conns|
    ensures var key := s.conns[id].member.key;
            Remove(s, id).conns[i].member.writer.Enqueued() == s.conns[i].member.writer.Enqueued()
            + (if i in s.members && s.conns[i].member.key != key then [LeaveNotice(key)] else [])
  {
    var key := s.conns[id].member.key;
    var f := LeaveNotice(key);
    hide *;
    RoomFacts(s, id);
    RemoveIsDrop(s, id);
    NoticesAccepted(key);
    TellAdds(s, f, -1, i);
    AdditionIs(s, i, f);
    DroppedFacts(Tell(s, f, -1), Find(s.members, id), i);
  }

  lemma RoomFacts(s: System, id: nat)
    requires Inv(s) && id < |s.conns|
    ensures GoodKey(s.conns[id].member.key) && !s.crashed && !s.locked
  {
    hide Visible, RelayedFrom, Reader.Stream, Writer.Wire, Reader.Valid, Writer.Valid, GoodKey, LogOk, MembersOk;
    assert ConnOk(s.conns[id], id, s.log, id in s.members);
  }

  lemma AdditionIs(s: System, i: nat, f: bytes)
    requires i < |s.conns| && |f| >= HEADER_SIZE
    ensures Addition(s, i, f) == if i in s.members && s.conns[i].member.key != Origin(f) then [f] else []
  {
  }

  lemma DroppedFacts(s: System, k: nat, i: nat)
    requires k < |s.members| && s.members[k] < |s.conns| && i < |s.conns|
    ensures var s' := Dropped(s, k);
            && s'.crashed == s.crashed && s'.locked == s.locked && |s'.conns| == |s.conns|
            && s'.members == s.members[..k] + s.members[k + 1..]
            && s'.conns[i].member == s.conns[i].member
  {
  }

  /** What has ever been queued for member `j`. */
  ghost function Queued(s: System, j: nat): seq<bytes>
    requires j < |s.conns|
  {
    s.conns[j].member.writer.Enqueued()
  }

  lemma TellQueues(s: System, f: bytes, source: int, j: nat)
    requires Inv(s) && j < |s.conns| && |f| >= HEADER_SIZE
    ensures Queued(Tell(s, f, source), j) ==
            Queued(s, j) + if j in s.members && s.conns[j].member.key != Origin(f) then [f] else []
    ensures Queued(s, j) + [f] != Queued(s, j)
  {
    hide Inv, Origin, Tell, Writer.Enqueued;
    TellAdds(s, f, source, j);
    AdditionIs(s, j, f);
    assert |Queued(s, j) + [f]| == |Queued(s, j)| + 1;
  }

  /** A broadcast that names member `i` as its origin leaves the queue of `i` alone and,
      exactly when no other member has the same endpoint, joins that of everybody else. */
  lemma FilterExact(s: System, i: nat, f: bytes, source: int)
    requires Inv(s) && i in s.members && i < |s.conns| && |f| >= HEADER_SIZE && Origin(f) == s.conns[i].member.key
    ensures Queued(Tell(s, f, source), i) == Queued(s, i)
    ensures (forall j | j in s.members && j < |s.conns| && j != i ::
               Queued(Tell(s, f, source), j) == Queued(s, j) + [f])
       <==> (forall j | j in s.members && j < |s.conns| && j != i :: s.conns[j].member.key != s.conns[i].member.key)
  {
    hide Inv, Origin, Tell, Queued;
    TellQueues(s, f, source, i);
    forall j | j in s.members && j < |s.conns|
      ensures Queued(Tell(s, f, source), j) == Queued(s, j) + [f] <==> s.conns[j].member.key != s.conns[i].member.key
    {
      TellQueues(s, f, source, j);
    }
  }

  /** Endpoints that differ in address or port give different keys: a frame encoded by the
      client at `a:p` is queued for a member at `b:q` unless that is the same endpoint. */
  lemma OwnFrameSkipsOnlySender(
    s: System, source: int, j: nat, kind: byte, a: bytes, p: nat, b: bytes, q: nat, stringData: bytes)
    requires Inv(s) && j in s.members && j < |s.conns| && s.conns[j].member.key == Render(b, q) && NoNul(a)
    ensures var f := Encode(kind, Render(a, p), stringData);
            Queued(Tell(s, f, source), j) == Queued(s, j) + if a == b && p == q then [] else [f]
  {
    hide Render, Encode, Origin, Inv, Tell, Queued;
    RenderPlain(a, p);
    RenderInjective(a, p, b, q);
    OriginRoundTrip(kind, Render(a, p), stringData);
    TellQueues(s, Encode(kind, Render(a, p), stringData), source, j);
  }

  // ----- After leaving

  /** A connection whose member has left stays out, and nothing is queued for it, read from
      it or written to it any more. */
  lemma GoneForGood(s: System, a: Action, i: nat)
    requires Inv(s) && Enabled(s, a) && i < |s.conns| && i !in s.members
    ensures i < |Apply(s, a).conns| && i !in Apply(s, a).members
    ensures Apply(s, a).conns[i].member == s.conns[i].member
    ensures |Apply(s, a).conns[i].down| <= |s.conns[i].down|
  {
    hide Inv, Local, LocallyEnabled, Tell, Remove, Join, BadHeader;
    if a.Connect? {
      JoinLeavesOut(s, a.key, i);
    } else {
      InvMembers(s);
      if a.id == i {
        GoneLocally(s.conns[i], false, a);
      }
      ApplyCases(s, a);
      if Broadcasts(s, a) {
        TellLeavesOut(Moved(s, a), s.conns[a.id].member.reader.raw, a.id, i);
      } else if Removes(s, a) {
        RemoverIsMember(s, a);
        RemoveLeavesOut(Moved(s, a), a.id, i);
      }
    }
  }

  lemma GoneLocally(c: Conn, present: bool, a: Action)
    requires LocallyEnabled(c, present, a) && !present
    ensures Local(c, present, a).member == c.member && |Local(c, present, a).down| <= |c.down|
  {
    hide BadHeader, DataLen;
  }

  lemma TellLeavesOut(s: System, f: bytes, source: int, i: nat)
    requires i < |s.conns| && i !in s.members && |f| >= HEADER_SIZE
    ensures Tell(s, f, source).conns[i] == s.conns[i] && i !in Tell(s, f, source).members
  {
    hide Offer;
  }

  lemma JoinLeavesOut(s: System, key: bytes, i: nat)
    requires i < |s.conns| && i !in s.members
    ensures i < |Join(s, key).conns| && Join(s, key).conns[i] == s.conns[i] && i !in Join(s, key).members
  {
    hide Tell, JoinNotice;
    TellLeavesOut(s, JoinNotice(key), -1, i);
  }

  lemma RemoveLeavesOut(s: System, id: nat, i: nat)
    requires MembersOk(s.members, |s.conns|) && id < |s.conns| && i < |s.conns| && i !in s.members && id in s.members
    ensures i < |Remove(s, id).conns| && Remove(s, id).conns[i] == s.conns[i] && i !in Remove(s, id).members
  {
    hide Tell, LeaveNotice, Find;
    TellLeavesOut(s, LeaveNotice(s.conns[id].member.key), -1, i);
    FindPresent(s.members, id);
    WithoutIndex(s.members, Find(s.members, id), |s.conns|);
  }

  // ----- After a failed write

  /** Nothing has been written on the way from `w` to `w'`, and nothing ever will: both
      have failed, and only the queue has grown. */
  ghost predicate StuckSince(w: Writer, w': Writer) {
    && w.failed && w'.failed && w'.outstanding == 0
    && w'.done == w.done && w'.sent == w.sent && w.queue <= w'.queue
  }

  /** Once a client's write has failed, no run from there starts or completes another one,
      and nothing more reaches the wire. */
  lemma {:induction false} NoWriteAfterFailure(s: System, acts: seq<Action>, s': System, i: nat)
    requires Inv(s) && Continues(s, acts, s') && i < |s.conns| && s.conns[i].client.writer.failed
    ensures i < |s'.conns| && StuckSince(s.conns[i].client.writer, s'.conns[i].client.writer)
    decreases |acts|
  {
    hide Inv, Apply, Enabled;
    if acts == [] {
      FailedWriter(s, i);
    } else {
      StepAfterFailure(s, acts[0], i);
      StepKeeps(s, acts[0]);
      NoWriteAfterFailure(Apply(s, acts[0]), acts[1..], s', i);
    }
  }

  lemma StepAfterFailure(s: System, a: Action, i: nat)
    requires Inv(s) && Enabled(s, a) && i < |s.conns| && s.conns[i].client.writer.failed
    ensures i < |Apply(s, a).conns|
    ensures StuckSince(s.conns[i].client.writer, Apply(s, a).conns[i].client.writer)
  {
    hide Inv, Apply, Local, LocallyEnabled;
    FailedWriter(s, i);
    ClientAfter(s, a, i);
    if !a.Connect? && a.id == i {
      LocalAfterFailure(s.conns[i], i in s.members, a);
    }
  }

  lemma FailedWriter(s: System, i: nat)
    requires Inv(s) && i < |s.conns| && s.conns[i].client.writer.failed
    ensures s.conns[i].client.writer.outstanding == 0 && s.conns[i].client.writer.queue != []
  {
    hide Visible, RelayedFrom, Reader.Stream, Writer.Wire, Reader.Valid, Writer.Enqueued, GoodKey, LogOk, MembersOk,
         Live;
    assert ConnOk(s.conns[i], i, s.log, i in s.members);
  }

  lemma LocalAfterFailure(c: Conn, present: bool, a: Action)
    requires LocallyEnabled(c, present, a) && c.client.writer.failed
    requires c.client.writer.outstanding == 0 && c.client.writer.queue != []
    ensures StuckSince(c.client.writer, Local(c, present, a).client.writer)
  {
    hide BadHeader, DataLen, Write, Resize;
  }
}
