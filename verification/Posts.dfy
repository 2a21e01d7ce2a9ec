/** What users post in a run is what their clients send. */
module Posts {
  import opened Bytes
  import opened Frame
  import opened Framing
  import opened Endpoint
  import opened Relay
  import opened RelayInvariant

  /** The frames that the user of connection `i` posts in a run, in order. */
  function PostsOf(acts: seq<Action>, i: nat): seq<bytes>
    decreases |acts|
  {
    if acts == [] then []
    else
      var n := |acts| - 1;
      PostsOf(acts[..n], i) + if acts[n].Post? && acts[n].id == i then [acts[n].f] else []
  }

  /** How many clients have joined in a run. */
  function JoinsOf(acts: seq<Action>): nat
    decreases |acts|
  {
    if acts == [] then 0
    else
      var n := |acts| - 1;
      JoinsOf(acts[..n]) + if acts[n].Connect? then 1 else 0
  }

  // ----- What a step does to a client

  lemma TellKeepsClients(s: System, f: bytes, source: int, i: nat)
    requires i < |s.conns| && |f| >= HEADER_SIZE
    ensures Tell(s, f, source).conns[i].client == s.conns[i].client
  {
    hide Offer;
  }

  lemma RemoveKeepsClients(s: System, id: nat, i: nat)
    requires i < |s.conns| && id < |s.conns|
    ensures i < |Remove(s, id).conns| && Remove(s, id).conns[i].client == s.conns[i].client
  {
    hide LeaveNotice;
    TellKeepsClients(s, LeaveNotice(s.conns[id].member.key), -1, i);
    hide Tell;
  }

  /** A step changes a client only through that client's own local action. */
  lemma ClientAfter(s: System, a: Action, i: nat)
    requires Enabled(s, a) && i < |s.conns|
    ensures i < |Apply(s, a).conns|
    ensures Apply(s, a).conns[i].client ==
            if !a.Connect? && a.id == i then Local(s.conns[i], i in s.members, a).client else s.conns[i].client
  {
    hide Local, Tell, Remove, BadHeader;
    if a.Connect? {
      TellKeepsClients(s, JoinNotice(a.key), -1, i);
    } else if Broadcasts(s, a) {
      TellKeepsClients(Moved(s, a), s.conns[a.id].member.reader.raw, a.id, i);
    } else if Removes(s, a) {
      RemoveKeepsClients(Moved(s, a), a.id, i);
    }
  }

  lemma LocalSent(c: Conn, present: bool, a: Action)
    requires LocallyEnabled(c, present, a)
    ensures Local(c, present, a).client.sentAll == c.client.sentAll + if a.Post? then [a.f] else []
  {
    hide BadHeader, DataLen;
    assert c.client.sentAll + [] == c.client.sentAll;
  }

  lemma JoinFacts(s: System, key: bytes)
    ensures var s' := Join(s, key);
            && |s'.conns| == |s.conns| + 1
            && s'.conns[|s.conns|] == Conn(NewMember(key), NEW_CLIENT, [], [], |s.log| + 1, |s.log| + 1)
            && forall i | 0 <= i < |s.conns| :: s'.conns[i].client == s.conns[i].client
  {
    hide JoinNotice, Offer, NewMember;
  }

  lemma NewClientSent()
    ensures NEW_CLIENT.sentAll == []
  {
  }

  lemma StepConns(s: System, a: Action)
    requires Enabled(s, a)
    ensures |Apply(s, a).conns| == |s.conns| + if a.Connect? then 1 else 0
    ensures !a.Connect? ==> a.id < |s.conns| && LocallyEnabled(s.conns[a.id], a.id in s.members, a)
    ensures a.Connect? ==> Apply(s, a) == Join(s, a.key)
  {
    hide LocallyEnabled, Tell, Local, BadHeader;
    if a.Connect? {
      JoinFacts(s, a.key);
    } else {
      ApplyCases(s, a);
    }
  }

  /** What a client has sent, in every run, is exactly what its user has posted. */
  lemma {:induction false} SentIsPosted(acts: seq<Action>, s: System)
    requires Reaches(acts, s)
    ensures |s.conns| == JoinsOf(acts)
    ensures forall i: nat | i < |s.conns| :: s.conns[i].client.sentAll == PostsOf(acts, i)
    ensures forall i: nat | i >= |s.conns| :: PostsOf(acts, i) == []
    decreases |acts|
  {
    hide Apply, Enabled;
    if acts == [] {
    } else {
      var n := |acts| - 1;
      var a := acts[n];
      var s0: System :| Reaches(acts[..n], s0) && Enabled(s0, a) && s == Apply(s0, a);
      SentIsPosted(acts[..n], s0);
      StepConns(s0, a);
      forall i: nat | i < |s.conns| ensures s.conns[i].client.sentAll == PostsOf(acts, i) {
        SentStep(s0, a, i);
        assert PostsOf(acts[..n], i) + [] == PostsOf(acts[..n], i);
      }
    }
  }

  lemma SentStep(s: System, a: Action, i: nat)
    requires Enabled(s, a) && i < |Apply(s, a).conns|
    ensures Apply(s, a).conns[i].client.sentAll ==
            (if i < |s.conns| then s.conns[i].client.sentAll else [])
            + if a.Post? && a.id == i then [a.f] else []
  {
    hide Apply, Enabled, Local, LocallyEnabled, Join;
    StepConns(s, a);
    if i < |s.conns| {
      ClientAfter(s, a, i);
      if !a.Connect? && a.id == i {
        LocalSent(s.conns[i], i in s.members, a);
      }
    } else {
      JoinFacts(s, a.key);
      NewClientSent();
    }
  }
}
