/** Runs exist and do what users want: anyone can join and post in any state, and what is
    posted arrives. */
module Runs {
  import opened Bytes
  import opened Frame
  import opened Framing
  import opened Endpoint
  import opened Relay
  import opened RelayInvariant
  import opened Notices
  import opened Posts
  import opened RelayTheorems
  import opened Drain
  import opened Delivery

  // ----- What can happen

  /** In every state of every run a new client can join and every user can post; and every
      operation that is running can fail. */
  lemma AnythingCanHappen(acts: seq<Action>, s: System)
    requires Reaches(acts, s)
    ensures forall key | NoNul(key) && |key| <= 254 :: Enabled(s, Connect(key))
    ensures forall i: nat, f | i < |s.conns| && |f| >= 10 :: Enabled(s, Post(i, f))
    ensures forall i: nat | i < |s.conns| ::
              && (Enabled(s, ClientReadFailed(i)) <==> !s.conns[i].client.reader.closed)
              && (Enabled(s, ClientWriteFailed(i)) <==> s.conns[i].client.writer.outstanding > 0)
              && (Enabled(s, ServerReadFailed(i)) <==> i in s.members)
              && (Enabled(s, ServerWriteFailed(i)) <==> i in s.members && s.conns[i].member.writer.outstanding > 0)
  {
    hide Reaches;
    MembershipSafe(acts, s);
  }

  // ----- Longer runs

  lemma {:induction false} StepReaches(acts: seq<Action>, s: System, a: Action)
    requires Reaches(acts, s) && Enabled(s, a)
    ensures Reaches(acts + [a], Apply(s, a))
  {
    hide Enabled, Apply;
    assert (acts + [a])[..|acts|] == acts;
  }

  lemma {:induction false} ContinuesStep(s: System, acts: seq<Action>, s': System, a: Action)
    requires Continues(s, acts, s') && Enabled(s', a)
    ensures Continues(s, acts + [a], Apply(s', a))
    decreases |acts|
  {
    hide Enabled, Apply;
    if acts == [] {
      assert ([] + [a])[1..] == [];
    } else {
      assert (acts + [a])[0] == acts[0] && (acts + [a])[1..] == acts[1..] + [a];
      ContinuesStep(Apply(s, acts[0]), acts[1..], s', a);
    }
  }

  lemma {:induction false} ReachesOn(acts: seq<Action>, s: System, more: seq<Action>, s': System)
    requires Reaches(acts, s) && Continues(s, more, s')
    ensures Reaches(acts + more, s')
    decreases |more|
  {
    hide Enabled, Apply, Reaches;
    if more == [] {
      assert acts + more == acts;
    } else {
      StepReaches(acts, s, more[0]);
      assert acts + more == acts + [more[0]] + more[1..];
      ReachesOn(acts + [more[0]], Apply(s, more[0]), more[1..], s');
    }
  }

  lemma {:induction false} ReachedFromStart(acts: seq<Action>, s: System)
    requires Reaches(acts, s)
    ensures Continues(INITIAL, acts, s)
    decreases |acts|
  {
    hide Enabled, Apply, Continues;
    if acts == [] {
      NoStep(INITIAL);
    } else {
      var n := |acts| - 1;
      var s0: System :| Reaches(acts[..n], s0) && Enabled(s0, acts[n]) && s == Apply(s0, acts[n]);
      ReachedFromStart(acts[..n], s0);
      ContinuesStep(INITIAL, acts[..n], s0, acts[n]);
      assert acts[..n] + [acts[n]] == acts;
    }
  }

  lemma NoStep(s: System)
    ensures Continues(s, [], s)
  {
  }

  /** A state is reached by a run exactly when the run leads to it from the empty room. */
  lemma RunsAlike(acts: seq<Action>, s: System)
    ensures Reaches(acts, s) <==> Continues(INITIAL, acts, s)
  {
    hide *;
    if Continues(INITIAL, acts, s) {
      Nothing();
      ReachesOn([], INITIAL, acts, s);
      assert [] + acts == acts;
    }
    if Reaches(acts, s) {
      ReachedFromStart(acts, s);
    }
  }

  lemma {:induction false} ForwardReaches(acts: seq<Action>, s: System, more: seq<Action>, s': System)
    requires Reaches(acts, s) && Forward(s, more, s')
    ensures Reaches(acts + more, s')
    ensures forall i: nat :: PostsOf(acts + more, i) == PostsOf(acts, i)
    decreases |more|
  {
    hide Enabled, Apply, Reaches, Progress;
    if more == [] {
      assert acts + more == acts;
    } else {
      StepReaches(acts, s, more[0]);
      assert acts + more == acts + [more[0]] + more[1..];
      ForwardReaches(acts + [more[0]], Apply(s, more[0]), more[1..], s');
      ProgressIsNoPost(s, more[0]);
      forall i: nat ensures PostsOf(acts + more, i) == PostsOf(acts, i) {
        assert (acts + [more[0]])[..|acts|] == acts;
        assert PostsOf(acts, i) + [] == PostsOf(acts, i);
      }
    }
  }

  lemma ProgressIsNoPost(s: System, a: Action)
    requires Enabled(s, a) && Progress(s, a)
    ensures !a.Post? && !a.Connect?
  {
    hide Enabled, Removes;
  }

  lemma StepStays(s: System, a: Action, i: nat)
    requires Enabled(s, a) && Progress(s, a) && i < |s.conns|
    ensures i < |Apply(s, a).conns| && Stays(s, Apply(s, a), i)
  {
    hide Local, LocallyEnabled, Tell, BadHeader, DataLen;
    StepShape(s, a);
    LocalStays(s.conns[a.id], a.id in s.members, a);
    if Broadcasts(s, a) {
      TellStays(Moved(s, a), s.conns[a.id].member.reader.raw, a.id, i);
    }
  }

  lemma {:induction false} ForwardStays(s: System, acts: seq<Action>, s': System, i: nat)
    requires Forward(s, acts, s') && i < |s.conns|
    ensures i < |s'.conns| && Stays(s, s', i)
    decreases |acts|
  {
    hide Enabled, Apply, Progress;
    if acts == [] {
    } else {
      StepStays(s, acts[0], i);
      ForwardStays(Apply(s, acts[0]), acts[1..], s', i);
    }
  }

  // ----- What is posted arrives

  /** Entries that were in the log before do not hold frames that are sent later. */
  lemma LaterEntry(s: System, s': System, i: nat, p: nat)
    requires s.log <= s'.log && p < |s'.log| && s'.log[p].source == i
    requires |RelayedFrom(s.log, i)| <= Rank(s'.log, p)
    ensures p >= |s.log|
  {
    if p < |s.log| {
      RankMatches(s.log, p);
      RankKept(s.log, s'.log, p);
    }
  }

  lemma RankKept(log: seq<Entry>, log': seq<Entry>, p: nat)
    requires log <= log' && p < |log|
    ensures Rank(log', p) == Rank(log, p) && log'[p] == log[p]
  {
    assert log[..p] == log'[..p];
  }

  /** In every reached state, whatever else is still under way: what a connected client, which
      has sent only acceptable frames, posts next is decoded, once all has settled, by every
      connected client that is not named as its origin. */
  lemma PostArrives(acts: seq<Action>, s: System, i: nat, j: nat, f: bytes)
    returns (more: seq<Action>, s': System)
    requires Reaches(acts, s)
    requires i < |s.conns| && i in s.members && s.conns[i].client.open && AllAccepted(PostsOf(acts, i))
    requires j < |s.conns| && j in s.members && s.conns[j].client.open
    requires Accepted(f) && Origin(f) != s.conns[j].member.key
    ensures Reaches(acts + [Post(i, f)] + more, s') && Settled(s')
    ensures PostsOf(acts + [Post(i, f)] + more, i) == PostsOf(acts, i) + [f]
    ensures |s'.conns| == |s.conns| && f in s'.conns[j].client.reader.frames
  {
    hide *;
    AcceptedSize(f);
    AnythingCanHappen(acts, s);
    RunKeeps(acts, s);
    SentIsPosted(acts, s);
    Relayed(acts, s, i);
    RelayedShort(acts, s, i);
    StepReaches(acts, s, Post(i, f));
    var posted := Apply(s, Post(i, f));
    PostChanges(s, i, f);
    StepKeeps(s, Post(i, f));
    more, s' := Settles(posted);
    ForwardReaches(acts + [Post(i, f)], posted, more, s');
    PostsOfPost(acts, i, f);
    ForwardRunsEnd(posted, more, s');
    ForwardUsers(posted, more, s', i);
    ForwardUsers(posted, more, s', j);
    ForwardStays(posted, more, s', j);
    StaysMeans(posted, s', j);
    AcceptedMore(PostsOf(acts, i), f);
    var n := |PostsOf(acts, i)|;
    var p, k := FrameCarried(s', i, j, n);
    CarriedMeans(s', i, j, n, p, k);
    CarriedEntry(s', i, j, n, p, k);
    LaterEntry(posted, s', i, p);
    JoinedBefore(s, j);
  }

  lemma AcceptedSize(f: bytes)
    requires Accepted(f)
    ensures |f| >= HEADER_SIZE && HEADER_SIZE == 10
  {
  }

  lemma RelayedShort(acts: seq<Action>, s: System, i: nat)
    requires Reaches(acts, s) && i < |s.conns| && AllAccepted(PostsOf(acts, i))
    ensures |RelayedFrom(s.log, i)| <= |PostsOf(acts, i)|
  {
    hide Reaches, RelayedFrom, Accepted, Frames, InStep;
    Relayed(acts, s, i);
    FramesOfAccepted(PostsOf(acts, i));
  }

  lemma PostChanges(s: System, i: nat, f: bytes)
    requires Enabled(s, Post(i, f))
    ensures var s' := Apply(s, Post(i, f));
            && s'.log == s.log && s'.members == s.members && |s'.conns| == |s.conns|
            && i < |s.conns| && s'.conns[i].client.sentAll == s.conns[i].client.sentAll + [f]
            && forall j | 0 <= j < |s.conns| ::
                 && s'.conns[j].client.open == s.conns[j].client.open
                 && s'.conns[j].member == s.conns[j].member && s'.conns[j].joinedAt == s.conns[j].joinedAt
  {
  }

  lemma PostsOfPost(acts: seq<Action>, i: nat, f: bytes)
    ensures PostsOf(acts + [Post(i, f)], i) == PostsOf(acts, i) + [f]
  {
    assert (acts + [Post(i, f)])[..|acts|] == acts;
  }

  lemma ForwardUsers(s: System, acts: seq<Action>, s': System, i: nat)
    requires Inv(s) && Forward(s, acts, s') && i < |s.conns|
    ensures s'.members == s.members && |s'.conns| == |s.conns|
    ensures s'.conns[i].client.sentAll == s.conns[i].client.sentAll
    ensures s'.conns[i].client.open == s.conns[i].client.open
  {
    hide Inv, Forward;
    ForwardKeepsSent(s, acts, s');
  }

  lemma StaysMeans(s: System, s': System, j: nat)
    requires j < |s.conns| && j < |s'.conns| && Stays(s, s', j)
    ensures s.log <= s'.log && s'.conns[j].joinedAt == s.conns[j].joinedAt
    ensures s'.conns[j].member.key == s.conns[j].member.key
  {
  }

  lemma AcceptedMore(fs: seq<bytes>, f: bytes)
    requires AllAccepted(fs) && Accepted(f)
    ensures AllAccepted((fs + [f])[..|fs| + 1]) && (fs + [f])[|fs|] == f
  {
    hide Accepted;
    assert (fs + [f])[..|fs| + 1] == fs + [f];
  }

  lemma CarriedEntry(s: System, i: nat, j: nat, n: nat, p: nat, k: nat)
    requires i < |s.conns| && j < |s.conns| && n < |s.conns[i].client.sentAll| && Carried(s, i, j, n, p, k)
    ensures p < |s.log| && s.log[p].source == i && Rank(s.log, p) == n
  {
    hide Origin, Rank;
  }

  lemma JoinedBefore(s: System, j: nat)
    requires Inv(s) && j < |s.conns|
    ensures s.conns[j].joinedAt <= |s.log|
  {
    hide Inv;
    ConnFacts(s, j);
  }

  // ----- Two users

  /** Two clients can join an empty room. */
  lemma TwoJoin(a: bytes, b: bytes) returns (acts: seq<Action>, s: System)
    requires NoNul(a) && |a| <= 254 && NoNul(b) && |b| <= 254
    ensures Reaches(acts, s) && |s.conns| == 2 && s.members == [0, 1]
    ensures s.conns[0].member.key == a && s.conns[1].member.key == b
    ensures s.conns[0].client.open && s.conns[1].client.open
    ensures PostsOf(acts, 0) == [] && PostsOf(acts, 1) == []
  {
    hide *;
    Nothing();
    AnythingCanHappen([], INITIAL);
    StepReaches([], INITIAL, Connect(a));
    JoinsAre(INITIAL, a);
    var one := Apply(INITIAL, Connect(a));
    var acts1 := [] + [Connect(a)];
    AnythingCanHappen(acts1, one);
    StepReaches(acts1, one, Connect(b));
    JoinsAre(one, b);
    acts, s := acts1 + [Connect(b)], Apply(one, Connect(b));
    NoPosts(acts, 0);
    NoPosts(acts, 1);
  }

  lemma Nothing()
    ensures Reaches([], INITIAL) && INITIAL.conns == [] && INITIAL.members == []
  {
  }

  lemma JoinsAre(s: System, key: bytes)
    requires Enabled(s, Connect(key))
    ensures var s' := Apply(s, Connect(key));
            && |s'.conns| == |s.conns| + 1 && s'.members == s.members + [|s.conns|]
            && s'.conns[|s.conns|].member.key == key && s'.conns[|s.conns|].client.open
            && forall i | 0 <= i < |s.conns| ::
                 s'.conns[i].client == s.conns[i].client && s'.conns[i].member.key == s.conns[i].member.key
  {
    hide JoinNotice;
  }

  lemma {:induction false} NoPosts(acts: seq<Action>, i: nat)
    requires forall a | a in acts :: !a.Post?
    ensures PostsOf(acts, i) == []
    decreases |acts|
  {
    if acts == [] {
    } else {
      NoPosts(acts[..|acts| - 1], i);
    }
  }

  /** From the empty room two users can get to the point where one reads what the other wrote. */
  lemma TwoUsersTalk(a: bytes, b: bytes, f: bytes) returns (acts: seq<Action>, s: System)
    requires NoNul(a) && |a| <= 254 && NoNul(b) && |b| <= 254 && Accepted(f) && Origin(f) != b
    ensures Reaches(acts, s) && |s.conns| == 2 && PostsOf(acts, 0) == [f]
    ensures f in s.conns[1].client.reader.frames
  {
    hide *;
    var before, here := TwoJoin(a, b);
    NoneAccepted();
    var more;
    more, s := PostArrives(before, here, 0, 1, f);
    acts := before + [Post(0, f)] + more;
    assert [] + [f] == [f];
  }

  lemma NoneAccepted()
    ensures AllAccepted([])
  {
  }
}
