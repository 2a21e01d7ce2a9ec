/** The room inside the relay is the room of the server's objects: what the steps of the
    system do to it is what `Broadcast`, `AddMember` and `RemoveMember` compute, which the
    methods of `Server.Room` are proved against. */
module RoomView {
  import opened Bytes
  import opened Frame
  import opened Endpoint
  import opened Relay
  import opened RelayInvariant

  ghost function LogFrames(log: seq<Entry>): (fs: seq<bytes>)
    ensures |fs| == |log|
  {
    seq(|log|, i requires 0 <= i < |log| => log[i].frame)
  }

  /** The members in the order of the list. */
  ghost function View(s: System): Room
    requires MembersOk(s.members, |s.conns|)
  {
    Room(seq(|s.members|, j requires 0 <= j < |s.members| => s.conns[s.members[j]].member), s.locked, LogFrames(s.log))
  }

  lemma TellIsBroadcast(s: System, f: bytes, source: int)
    requires MembersOk(s.members, |s.conns|) && |f| >= HEADER_SIZE
    ensures View(Tell(s, f, source)) == Broadcast(View(s), f)
  {
    hide Offer;
    var told := Tell(s, f, source);
    forall j | 0 <= j < |s.members|
      ensures told.conns[s.members[j]].member == Offer(s.conns[s.members[j]].member, f)
    {
      assert s.members[j] in s.members;
    }
    assert View(told).members == Broadcast(View(s), f).members;
    assert View(told).log == View(s).log + [f];
  }

  lemma JoinIsAddMember(s: System, key: bytes)
    requires MembersOk(s.members, |s.conns|)
    ensures MembersOk(Join(s, key).members, |Join(s, key).conns|)
    ensures View(Join(s, key)) == AddMember(View(s), key)
  {
    hide Offer, JoinNotice, NewMember;
    TellIsBroadcast(s, JoinNotice(key), -1);
    assert View(Join(s, key)).members == AddMember(View(s), key).members;
  }

  /** Taking entry `k` out of the list takes it out of the view. */
  lemma CutView(s: System, k: nat, leftAt: nat)
    requires MembersOk(s.members, |s.conns|) && k < |s.members|
    ensures var id, cut := s.members[k], s.members[..k] + s.members[k + 1..];
            var s' := s.(members := cut, conns := s.conns[id := s.conns[id].(leftAt := leftAt)]);
            && MembersOk(s'.members, |s'.conns|)
            && View(s').members == View(s).members[..k] + View(s).members[k + 1..]
  {
    hide View;
    var id, cut := s.members[k], s.members[..k] + s.members[k + 1..];
    var s' := s.(members := cut, conns := s.conns[id := s.conns[id].(leftAt := leftAt)]);
    CutOk(s.members, k, |s.conns|);
    ViewParts(s);
    ViewParts(s');
    hide MembersOk;
    var was, now := View(s).members, View(s').members;
    forall j | 0 <= j < |cut|
      ensures now[j] == was[if j < k then j else j + 1]
    {
      assert cut[j] == s.members[if j < k then j else j + 1];
    }
  }

  lemma CutOk(members: seq<nat>, k: nat, count: nat)
    requires MembersOk(members, count) && k < |members|
    ensures MembersOk(members[..k] + members[k + 1..], count)
  {
    var cut := members[..k] + members[k + 1..];
    assert forall j | 0 <= j < |cut| :: cut[j] == members[if j < k then j else j + 1];
  }

  lemma RemoveIsRemoveMember(s: System, k: nat)
    requires MembersOk(s.members, |s.conns|) && k < |s.members|
    ensures var s' := Remove(s, s.members[k]);
            && MembersOk(s'.members, |s'.conns|)
            && View(s') == RemoveMember(View(s), k)
            && s'.crashed == s.crashed
  {
    hide Offer, LeaveNotice, Find, View, MembersOk, Broadcast;
    ViewParts(s);
    var id := s.members[k];
    var f := LeaveNotice(s.conns[id].member.key);
    TellIsBroadcast(s, f, -1);
    FindAt(s.members, k);
    CutView(Tell(s, f, -1), k, |s.log| + 1);
    ViewParts(Tell(s, f, -1));
    ViewParts(Remove(s, id));
  }

  /** The exit for a missing member is taken exactly when the member is not in the list. */
  lemma RemoveCrashes(s: System, id: nat)
    requires id < |s.conns|
    ensures Remove(s, id).crashed <==> s.crashed || id !in s.members
    ensures id !in s.members ==> Remove(s, id).locked && Remove(s, id).members == s.members
    ensures id !in s.members ==> forall a :: !Enabled(Remove(s, id), a)
  {
    hide Offer, LeaveNotice;
    var k := Find(s.members, id);
    if k == |s.members| {
      assert s.members[..k] == s.members;
    }
  }

  lemma ViewParts(s: System)
    requires MembersOk(s.members, |s.conns|)
    ensures |View(s).members| == |s.members| && View(s).locked == s.locked && View(s).log == LogFrames(s.log)
    ensures forall j | 0 <= j < |s.members| ::
              s.members[j] < |s.conns| && View(s).members[j] == s.conns[s.members[j]].member
    ensures forall i, j | 0 <= i < j < |s.members| :: s.members[i] < s.members[j]
  {
  }

  lemma {:induction false} FindAt(members: seq<nat>, k: nat)
    requires k < |members|
    requires forall i, j | 0 <= i < j < |members| :: members[i] < members[j]
    ensures Find(members, members[k]) == k
  {
    if k == 0 {
    } else {
      FindAt(members[1..], k - 1);
    }
  }

  // ----- Whole handler steps are the methods of the member's object

  /** A member's own step changes that one entry of the view. */
  lemma MovedView(s: System, a: Action, k: nat)
    requires MembersOk(s.members, |s.conns|) && Enabled(s, a) && !a.Connect?
    requires k < |s.members| && a.id == s.members[k]
    ensures MembersOk(Moved(s, a).members, |Moved(s, a).conns|)
    ensures View(Moved(s, a)) == View(s).(members := View(s).members[k := Local(s.conns[a.id], true, a).member])
  {
    hide View, Local, LocallyEnabled;
    ViewParts(s);
    ViewParts(Moved(s, a));
    assert a.id in s.members;
    var was, now := View(s).members, View(Moved(s, a)).members;
    forall j | 0 <= j < |s.members|
      ensures now[j] == was[k := Local(s.conns[a.id], true, a).member][j]
    {
    }
  }

  /** The header handler, for a header that is taken: what `Member.OnHeader` does. */
  lemma HeaderStep(s: System, id: nat, k: nat)
    requires MembersOk(s.members, |s.conns|) && Enabled(s, ServerHandle(id)) && k < |s.members| && id == s.members[k]
    requires !s.conns[id].member.reader.inBody && !BadHeader(s.conns[id].member.reader.raw)
    ensures var s', m := Apply(s, ServerHandle(id)), View(s).members[k];
            && MembersOk(s'.members, |s'.conns|)
            && View(s') == View(s).(members := View(s).members[k := m.(reader := m.reader.Complete())])
  {
    hide View, BadHeader, DataLen;
    ViewParts(s);
    MovedView(s, ServerHandle(id), k);
  }

  /** The body handler: what `Member.OnBody` does, which broadcasts before it goes back to
      the header; here the reader moves first. */
  lemma BodyStep(s: System, id: nat, k: nat)
    requires MembersOk(s.members, |s.conns|) && Enabled(s, ServerHandle(id)) && k < |s.members| && id == s.members[k]
    requires s.conns[id].member.reader.inBody
    ensures var s', v, m := Apply(s, ServerHandle(id)), View(s), View(s).members[k];
            && |m.reader.raw| >= HEADER_SIZE
            && MembersOk(s'.members, |s'.conns|)
            && View(s').locked == v.locked && View(s').log == v.log + [m.reader.raw]
            && |View(s').members| == |v.members|
            && forall j | 0 <= j < |v.members| :: View(s').members[j] ==
                 Offer(if j == k then m.(reader := m.reader.Complete()) else v.members[j], m.reader.raw)
  {
    hide View, BadHeader, DataLen, Offer;
    ViewParts(s);
    var a := ServerHandle(id);
    MovedView(s, a, k);
    TellIsBroadcast(Moved(s, a), s.conns[id].member.reader.raw, id);
  }

  /** The handler of a completed write: what `Member.OnWritten` does. */
  lemma WrittenStep(s: System, id: nat, k: nat)
    requires MembersOk(s.members, |s.conns|) && Enabled(s, ServerWritten(id)) && k < |s.members| && id == s.members[k]
    ensures var s', m := Apply(s, ServerWritten(id)), View(s).members[k];
            && m.writer.queue != [] && m.writer.outstanding > 0 && MembersOk(s'.members, |s'.conns|)
            && View(s') == View(s).(members := View(s).members[k := m.(writer := m.writer.Written())])
  {
    hide View;
    ViewParts(s);
    MovedView(s, ServerWritten(id), k);
  }

  /** Every handler that meets a refused header or a failed operation: what the methods do
      by removing their member. */
  lemma FailureStep(s: System, a: Action, k: nat)
    requires MembersOk(s.members, |s.conns|) && Enabled(s, a) && Removes(s, a)
    requires k < |s.members| && a.id == s.members[k]
    ensures var s' := Apply(s, a);
            MembersOk(s'.members, |s'.conns|) && View(s') == RemoveMember(View(s), k)
  {
    hide View, Local, LocallyEnabled, BadHeader, RemoveMember, Remove;
    ViewParts(s);
    MovedView(s, a, k);
    FailureKeepsKey(s.conns[a.id], a);
    RemoveIsRemoveMember(Moved(s, a), k);
    RemovedForgotten(View(s), k, Local(s.conns[a.id], true, a).member);
  }

  /** A member that leaves has stopped reading, or has a failed write. */
  lemma FailureRecorded(s: System, a: Action)
    requires Enabled(s, a) && Removes(s, a)
    ensures a.id < |s.conns| && |Apply(s, a).conns| == |s.conns|
    ensures var m := Apply(s, a).conns[a.id].member;
            if a.ServerWriteFailed? then m.writer.failed else m.reader.closed
  {
    hide Offer, LeaveNotice, BadHeader, DataLen, Find;
    var id := a.id;
    var moved := Moved(s, a);
    var c := Local(s.conns[id], id in s.members, a);
    assert moved.conns[id] == c;
    assert if a.ServerWriteFailed? then c.member.writer.failed else c.member.reader.closed;
    LeaverKeeps(moved, id);
  }

  /** The notice of its own leave may be queued for the leaver, but changes nothing else. */
  lemma LeaverKeeps(s: System, id: nat)
    requires id < |s.conns|
    ensures var m, m' := s.conns[id].member, Remove(s, id).conns[id].member;
            m'.reader == m.reader && m'.writer.failed == m.writer.failed && m'.key == m.key
  {
    hide LeaveNotice, Find, Origin;
  }

  lemma FailureKeepsKey(c: Conn, a: Action)
    requires LocallyEnabled(c, true, a)
    ensures Local(c, true, a).member.key == c.member.key
  {
    hide BadHeader, DataLen;
  }

  /** The room without a member does not depend on the state that member was in. */
  lemma RemovedForgotten(r: Room, k: nat, m: Member)
    requires k < |r.members| && m.key == r.members[k].key
    ensures RemoveMember(r.(members := r.members[k := m]), k) == RemoveMember(r, k)
  {
    hide Offer, LeaveNotice;
  }
}
