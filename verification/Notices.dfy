/** Where the room's own notices stand in the broadcast log, in every state of every run. */
module Notices {
  import opened Bytes
  import opened Frame
  import opened Framing
  import opened Endpoint
  import opened Relay
  import opened RelayInvariant

  /** Entry `p` is the notice that connection `i` joined. */
  ghost predicate JoinedAt(s: System, i: nat, p: nat)
    requires i < |s.conns|
  {
    p < |s.log| && p + 1 == s.conns[i].joinedAt && s.log[p] == Entry(JoinNotice(s.conns[i].member.key), -1)
  }

  /** Entry `p` is the notice that connection `i` left, which it has. */
  ghost predicate LeftAt(s: System, i: nat, p: nat)
    requires i < |s.conns|
  {
    && i !in s.members
    && p < |s.log| && p + 1 == s.conns[i].leftAt && s.log[p] == Entry(LeaveNotice(s.conns[i].member.key), -1)
  }

  /** Entry `p` is the join or the leave notice of some connection. */
  ghost predicate IsNotice(s: System, p: nat) {
    exists i: nat :: i < |s.conns| && (JoinedAt(s, i, p) || LeftAt(s, i, p))
  }

  /** Connection `i` has its notices in the log: of its join and, once gone, of its leave. */
  ghost predicate Noticed(s: System, i: nat)
    requires i < |s.conns|
  {
    && s.conns[i].joinedAt >= 1 && JoinedAt(s, i, s.conns[i].joinedAt - 1)
    && (i !in s.members ==> s.conns[i].leftAt >= 1 && LeftAt(s, i, s.conns[i].leftAt - 1))
  }

  /** The notices of the log are those of the joins and leaves that happened, and nothing
      else: each has its entry, each entry is one, and there are as many as both together. */
  ghost predicate NoticesOk(s: System) {
    && (forall i: nat | i < |s.conns| :: Noticed(s, i))
    && (forall p: nat | p < |s.log| && s.log[p].source == -1 :: IsNotice(s, p))
    && |RelayedFrom(s.log, -1)| == 2 * |s.conns| - |s.members|
  }

  lemma NoticeAt(s: System, p: nat)
    requires NoticesOk(s) && p < |s.log| && s.log[p].source == -1
    ensures IsNotice(s, p)
  {
    hide IsNotice;
  }

  /** The log only grew, and connection `i` is in the room as before, under its key. */
  ghost predicate Stays(s: System, s': System, i: nat)
    requires i < |s.conns| && i < |s'.conns|
  {
    && s.log <= s'.log && (i in s'.members <==> i in s.members)
    && s'.conns[i].joinedAt == s.conns[i].joinedAt && s'.conns[i].leftAt == s.conns[i].leftAt
    && s'.conns[i].member.key == s.conns[i].member.key
  }

  lemma StaysNoticed(s: System, s': System, i: nat)
    requires i < |s.conns| && i < |s'.conns| && Noticed(s, i) && Stays(s, s', i)
    ensures Noticed(s', i)
    ensures forall p: nat :: (JoinedAt(s, i, p) ==> JoinedAt(s', i, p)) && (LeftAt(s, i, p) ==> LeftAt(s', i, p))
  {
    hide JoinNotice, LeaveNotice;
  }

  /** If all connections but `but` stay, their notices stay. */
  lemma OldNotices(s: System, s': System, but: int)
    requires NoticesOk(s) && |s.conns| <= |s'.conns|
    requires forall i: nat | i < |s.conns| && i != but :: Stays(s, s', i)
    requires 0 <= but < |s.conns| ==> Noticed(s', but) && JoinsAgree(s, s', but) && but in s.members
    ensures forall i: nat | i < |s.conns| :: Noticed(s', i)
    ensures forall p: nat | p < |s.log| && s.log[p].source == -1 :: IsNotice(s', p)
  {
    hide Noticed, Stays, JoinedAt, RelayedFrom;
    forall i: nat | i < |s.conns| ensures Noticed(s', i) {
      if i != but {
        StaysNoticed(s, s', i);
      }
    }
    forall p: nat | p < |s.log| && s.log[p].source == -1 ensures IsNotice(s', p) {
      var i: nat :| i < |s.conns| && (JoinedAt(s, i, p) || LeftAt(s, i, p));
      if i != but {
        StaysNoticed(s, s', i);
      }
    }
  }

  ghost predicate JoinsAgree(s: System, s': System, i: nat)
    requires i < |s.conns| && i < |s'.conns|
  {
    forall p: nat :: JoinedAt(s, i, p) ==> JoinedAt(s', i, p)
  }

  // ----- Steps

  lemma LocalStays(c: Conn, present: bool, a: Action)
    requires LocallyEnabled(c, present, a)
    ensures var c' := Local(c, present, a);
            c'.joinedAt == c.joinedAt && c'.leftAt == c.leftAt && c'.member.key == c.member.key
  {
    hide BadHeader, DataLen;
  }

  lemma MovedKeeps(s: System, a: Action)
    requires NoticesOk(s) && Enabled(s, a) && !a.Connect?
    ensures NoticesOk(Moved(s, a)) && |Moved(s, a).conns| == |s.conns| && Moved(s, a).members == s.members
  {
    hide Local, Noticed, IsNotice, RelayedFrom, LocallyEnabled;
    LocalStays(s.conns[a.id], a.id in s.members, a);
    OldNotices(s, Moved(s, a), -1);
  }

  lemma TellStays(s: System, f: bytes, source: int, i: nat)
    requires i < |s.conns| && |f| >= HEADER_SIZE
    ensures Stays(s, Tell(s, f, source), i)
  {
    hide Origin, Writer.Send;
  }

  lemma RelayKeeps(s: System, f: bytes, source: nat)
    requires NoticesOk(s) && |f| >= HEADER_SIZE
    ensures NoticesOk(Tell(s, f, source))
  {
    hide Noticed, IsNotice, RelayedFrom, Stays, Offer;
    var told := Tell(s, f, source);
    forall i: nat | i < |s.conns| ensures Stays(s, told, i) {
      TellStays(s, f, source, i);
    }
    OldNotices(s, told, -1);
    RelayedAppend(s.log, Entry(f, source), -1);
  }

  lemma JoinNotices(s: System, key: bytes)
    requires NoticesOk(s) && MembersOk(s.members, |s.conns|)
    ensures NoticesOk(Join(s, key))
  {
    hide Noticed, IsNotice, RelayedFrom, Stays, Offer, JoinNotice, JoinedAt, LeftAt;
    var f := JoinNotice(key);
    var s' := Join(s, key);
    forall i: nat | i < |s.conns| ensures Stays(s, s', i) {
      JoinStays(s, key, i);
    }
    OldNotices(s, s', -1);
    JoinerNoticed(s, key);
    RelayedAppend(s.log, Entry(f, -1), -1);
    forall p: nat | p < |s'.log| && s'.log[p].source == -1 ensures IsNotice(s', p) {
      if p < |s.log| {
        assert s'.log[p] == s.log[p];
      }
    }
  }

  lemma JoinStays(s: System, key: bytes, i: nat)
    requires i < |s.conns|
    ensures i < |Join(s, key).conns| && Stays(s, Join(s, key), i)
  {
    hide JoinNotice, Offer;
    TellStays(s, JoinNotice(key), -1, i);
  }

  lemma JoinerNoticed(s: System, key: bytes)
    ensures |Join(s, key).conns| == |s.conns| + 1 && |Join(s, key).log| == |s.log| + 1
    ensures |Join(s, key).members| == |s.members| + 1
    ensures Join(s, key).log == s.log + [Entry(JoinNotice(key), -1)]
    ensures Noticed(Join(s, key), |s.conns|) && IsNotice(Join(s, key), |s.log|)
  {
    hide JoinNotice, Offer, NewReader;
    var s' := Join(s, key);
    assert s'.members[|s.members|] == |s.conns|;
    assert JoinedAt(s', |s.conns|, |s.log|);
  }

  lemma RemoveNotices(s: System, id: nat)
    requires NoticesOk(s) && MembersOk(s.members, |s.conns|) && id < |s.conns| && id in s.members
    ensures NoticesOk(Remove(s, id))
  {
    hide Noticed, IsNotice, RelayedFrom, Stays, Offer, LeaveNotice, JoinedAt, LeftAt, Remove;
    var s' := Remove(s, id);
    LeaverNoticed(s, id);
    forall i: nat | i < |s.conns| && i != id ensures Stays(s, s', i) {
      RemoveStays(s, id, i);
    }
    OldNotices(s, s', id);
    RelayedAppend(s.log, Entry(LeaveNotice(s.conns[id].member.key), -1), -1);
    forall p: nat | p < |s'.log| && s'.log[p].source == -1 ensures IsNotice(s', p) {
      if p < |s.log| {
        assert s'.log[p] == s.log[p];
      }
    }
  }

  lemma RemoveStays(s: System, id: nat, i: nat)
    requires MembersOk(s.members, |s.conns|) && id < |s.conns| && id in s.members && i < |s.conns| && i != id
    ensures Stays(s, Remove(s, id), i)
  {
    hide LeaveNotice, Offer, Find;
    TellStays(s, LeaveNotice(s.conns[id].member.key), -1, i);
    FindPresent(s.members, id);
    WithoutIndex(s.members, Find(s.members, id), |s.conns|);
  }

  lemma LeaverNoticed(s: System, id: nat)
    requires MembersOk(s.members, |s.conns|) && id < |s.conns| && id in s.members && Noticed(s, id)
    ensures var s' := Remove(s, id);
            && |s'.conns| == |s.conns| && |s'.members| == |s.members| - 1
            && s'.log == s.log + [Entry(LeaveNotice(s.conns[id].member.key), -1)]
            && Noticed(s', id) && JoinsAgree(s, s', id) && IsNotice(s', |s.log|)
  {
    hide LeaveNotice, JoinNotice, Offer, Find;
    TellStays(s, LeaveNotice(s.conns[id].member.key), -1, id);
    FindPresent(s.members, id);
    WithoutIndex(s.members, Find(s.members, id), |s.conns|);
    var s' := Remove(s, id);
    assert LeftAt(s', id, |s.log|);
  }

  lemma StepNotices(s: System, a: Action)
    requires Inv(s) && NoticesOk(s) && Enabled(s, a)
    ensures NoticesOk(Apply(s, a))
  {
    if a.Connect? {
      hide *;
      InvMembers(s);
      JoinNotices(s, a.key);
      ConnectIsJoin(s, a);
    } else {
      hide NoticesOk, Inv, Moved, Tell, Remove, LocallyEnabled, BadHeader;
      InvMembers(s);
      MovedKeeps(s, a);
      ApplyCases(s, a);
      if Broadcasts(s, a) {
        RelayKeeps(Moved(s, a), s.conns[a.id].member.reader.raw, a.id);
      } else if Removes(s, a) {
        RemoverIsMember(s, a);
        RemoveNotices(Moved(s, a), a.id);
      }
    }
  }

  lemma RemoverIsMember(s: System, a: Action)
    requires Enabled(s, a) && Removes(s, a)
    ensures !a.Connect? && a.id in s.members && a.id < |s.conns|
  {
    hide BadHeader;
  }

  lemma ConnectIsJoin(s: System, a: Action)
    requires Enabled(s, a) && a.Connect?
    ensures Apply(s, a) == Join(s, a.key)
  {
  }

  lemma InvMembers(s: System)
    requires Inv(s)
    ensures MembersOk(s.members, |s.conns|)
  {
    hide ConnOk, LogOk;
  }

  lemma {:induction false} NoticesKept(acts: seq<Action>, s: System)
    requires Reaches(acts, s)
    ensures NoticesOk(s)
    decreases |acts|
  {
    hide Inv, NoticesOk, Apply, Enabled;
    if acts == [] {
      assert NoticesOk(INITIAL) by { NoNotices(); }
    } else {
      var n := |acts| - 1;
      var s0: System :| Reaches(acts[..n], s0) && Enabled(s0, acts[n]) && s == Apply(s0, acts[n]);
      RunKeeps(acts[..n], s0);
      NoticesKept(acts[..n], s0);
      StepNotices(s0, acts[n]);
    }
  }

  /** The same, spelled out: each connection has its join in the log and, once gone, its
      leave; every notice in the log is one of these; and there are as many as both. */
  lemma NoticesMean(acts: seq<Action>, s: System)
    requires Reaches(acts, s)
    ensures forall i: nat | i < |s.conns| ::
              && 1 <= s.conns[i].joinedAt <= |s.log|
              && s.log[s.conns[i].joinedAt - 1] == Entry(JoinNotice(s.conns[i].member.key), -1)
              && (i !in s.members ==>
                    && 1 <= s.conns[i].leftAt <= |s.log|
                    && s.log[s.conns[i].leftAt - 1] == Entry(LeaveNotice(s.conns[i].member.key), -1))
    ensures forall p: nat | p < |s.log| && s.log[p].source == -1 ::
              exists i: nat :: (
                i < |s.conns|
                && (p + 1 == s.conns[i].joinedAt || (i !in s.members && p + 1 == s.conns[i].leftAt)))
    ensures |RelayedFrom(s.log, -1)| == 2 * |s.conns| - |s.members|
  {
    hide Reaches, JoinNotice, LeaveNotice, RelayedFrom;
    NoticesKept(acts, s);
    forall i: nat | i < |s.conns|
      ensures 1 <= s.conns[i].joinedAt <= |s.log|
      ensures s.log[s.conns[i].joinedAt - 1] == Entry(JoinNotice(s.conns[i].member.key), -1)
      ensures i !in s.members ==> 1 <= s.conns[i].leftAt <= |s.log|
      ensures i !in s.members ==> s.log[s.conns[i].leftAt - 1] == Entry(LeaveNotice(s.conns[i].member.key), -1)
    {
      assert Noticed(s, i);
    }
    forall p: nat | p < |s.log| && s.log[p].source == -1
      ensures exists i: nat :: (
                i < |s.conns|
                && (p + 1 == s.conns[i].joinedAt || (i !in s.members && p + 1 == s.conns[i].leftAt)))
    {
      NoticeAt(s, p);
    }
  }

  lemma NoNotices()
    ensures NoticesOk(INITIAL)
  {
  }
}
