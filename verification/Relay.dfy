/** Clients, wires and the room as one system that moves by single handler steps. */
module Relay {
  import opened Bytes
  import opened Frame
  import opened Framing
  import opened Endpoint

  /** A connected client. `posted` holds the sends handed to the event loop but not yet
      run; `sentAll` lists everything the user has ever sent. */
  datatype Client = Client(open: bool, posted: seq<bytes>, writer: Writer, reader: Reader, sentAll: seq<bytes>)

  const NEW_CLIENT: Client := Client(true, [], NEW_WRITER, NewReader(), [])

  /** Both ends of one connection and the bytes in transit each way. The member joined
      when the log had `joinedAt` entries and, once gone, left at `leftAt`. */
  datatype Conn = Conn(member: Member, client: Client, up: bytes, down: bytes, joinedAt: nat, leftAt: nat)

  /** One broadcast: `source` is the connection it was read from, or -1 for a notice. */
  datatype Entry = Entry(frame: bytes, source: int)

  /** `conns` lists all connections ever made; `members` those in the room, in the order
      of the room's list. `crashed` is the exit for removing a member that is not there. */
  datatype System = System(conns: seq<Conn>, members: seq<nat>, log: seq<Entry>, locked: bool, crashed: bool)

  const INITIAL: System := System([], [], [], false, false)

  // ----- What the steps do to the room

  function Tell(s: System, f: bytes, source: int): (s': System)
    requires |f| >= HEADER_SIZE
    ensures |s'.conns| == |s.conns| && s'.members == s.members
    ensures s'.locked == s.locked && s'.crashed == s.crashed
  {
    s.(conns := seq(|s.conns|, i requires 0 <= i < |s.conns| =>
         if i in s.members then s.conns[i].(member := Offer(s.conns[i].member, f)) else s.conns[i]),
       log := s.log + [Entry(f, source)])
  }

  function Join(s: System, key: bytes): System {
    var told := Tell(s, JoinNotice(key), -1);
    told.(conns := told.conns + [Conn(NewMember(key), NEW_CLIENT, [], [], |told.log|, |told.log|)],
          members := told.members + [|told.conns|])
  }

  /** The position of `id` in the member list, or its length. */
  function Find(members: seq<nat>, id: nat): (k: nat)
    ensures k <= |members|
    ensures k < |members| ==> members[k] == id
    ensures id !in members[..k]
  {
    if members == [] || members[0] == id then 0
    else
      var k := Find(members[1..], id);
      assert members[..k + 1] == [members[0]] + members[1..][..k];
      k + 1
  }

  /** `remove_member`: the notice, the lock, the scan; not finding the member throws
      with the lock still held. */
  function Remove(s: System, id: nat): (s': System)
    requires id < |s.conns|
    ensures |s'.conns| == |s.conns|
  {
    var told := Tell(s, LeaveNotice(s.conns[id].member.key), -1);
    var k := Find(told.members, id);
    if k == |told.members| then told.(locked := true, crashed := true)
    else told.(members := told.members[..k] + told.members[k + 1..],
               conns := told.conns[id := told.conns[id].(leftAt := |told.log|)])
  }

  // ----- Steps

  datatype Action =
    | Connect(key: bytes)
    | Post(id: nat, f: bytes)
    | RunPosted(id: nat)
    | ClientTransmit(id: nat, k: nat)
    | ClientWritten(id: nat)
    | ClientWriteFailed(id: nat)
    | ServerReceive(id: nat, k: nat)
    | ServerHandle(id: nat)
    | ServerReadFailed(id: nat)
    | ServerTransmit(id: nat, k: nat)
    | ServerWritten(id: nat)
    | ServerWriteFailed(id: nat)
    | ClientReceive(id: nat, k: nat)
    | ClientHandle(id: nat)
    | ClientReadFailed(id: nat)

  predicate CanTransmit(w: Writer, k: nat) {
    w.queue != [] && w.outstanding > 0 && 0 < k && w.sent + k <= |w.queue[0]|
  }

  predicate CanFinish(w: Writer) {
    w.queue != [] && w.outstanding > 0 && w.sent == |w.queue[0]|
  }

  predicate CanReceive(r: Reader, wire: bytes, k: nat) {
    && !r.closed && |r.raw| >= HEADER_SIZE && (r.inBody ==> |r.raw| == HEADER_SIZE + DataLen(r.raw))
    && 0 < k <= |wire| && r.got + k <= r.Wanted()
  }

  predicate CanHandle(r: Reader) {
    |r.raw| >= HEADER_SIZE && r.Ready()
  }

  /** Which steps can happen. Operations of a member that has left never complete; a client's
      read that was complete when a failed write closed its socket still has its handler run. */
  predicate Enabled(s: System, a: Action) {
    && !s.crashed
    && (a.Connect? ==> GoodKey(a.key))
    && (!a.Connect? ==> a.id < |s.conns| && LocallyEnabled(s.conns[a.id], a.id in s.members, a))
  }

  predicate LocallyEnabled(c: Conn, present: bool, a: Action) {
    match a
    case Connect(_) => false
    case Post(_, f) => |f| >= HEADER_SIZE
    case RunPosted(_) => c.client.posted != []
    case ClientTransmit(_, k) => c.client.open && CanTransmit(c.client.writer, k)
    case ClientWritten(_) => CanFinish(c.client.writer)
    case ClientWriteFailed(_) => c.client.writer.outstanding > 0
    case ServerReceive(_, k) => present && CanReceive(c.member.reader, c.up, k)
    case ServerHandle(_) => present && CanHandle(c.member.reader)
    case ServerReadFailed(_) => present
    case ServerTransmit(_, k) => present && CanTransmit(c.member.writer, k)
    case ServerWritten(_) => present && CanFinish(c.member.writer)
    case ServerWriteFailed(_) => present && c.member.writer.outstanding > 0
    case ClientReceive(_, k) => c.client.open && CanReceive(c.client.reader, c.down, k)
    case ClientHandle(_) => CanHandle(c.client.reader)
    case ClientReadFailed(_) => !c.client.reader.closed
  }

  /** The steps that touch one connection only. */
  function Local(c: Conn, present: bool, a: Action): Conn
    requires LocallyEnabled(c, present, a)
  {
    var cl, m := c.client, c.member;
    match a
    case Post(_, f) => c.(client := cl.(posted := cl.posted + [f], sentAll := cl.sentAll + [f]))
    case RunPosted(_) => c.(client := cl.(posted := cl.posted[1..], writer := cl.writer.Send(cl.posted[0])))
    case ClientTransmit(_, k) =>
      var w := cl.writer;
      c.(client := cl.(writer := w.Transmit(k)), up := c.up + w.queue[0][w.sent..w.sent + k])
    case ClientWritten(_) => c.(client := cl.(writer := cl.writer.Written()))
    case ClientWriteFailed(_) => c.(client := cl.(writer := cl.writer.WriteFailed(), open := false))
    case ServerReceive(_, k) => c.(member := m.(reader := m.reader.Receive(c.up[..k])), up := c.up[k..])
    case ServerHandle(_) => c.(member := m.(reader := m.reader.Complete()))
    case ServerReadFailed(_) => c.(member := m.(reader := m.reader.Fail()))
    case ServerTransmit(_, k) =>
      var w := m.writer;
      c.(member := m.(writer := w.Transmit(k)), down := c.down + w.queue[0][w.sent..w.sent + k])
    case ServerWritten(_) => c.(member := m.(writer := m.writer.Written()))
    case ServerWriteFailed(_) => c.(member := m.(writer := m.writer.WriteFailed()))
    case ClientReceive(_, k) => c.(client := cl.(reader := cl.reader.Receive(c.down[..k])), down := c.down[k..])
    case ClientHandle(_) =>
      var r := cl.reader.Complete();
      c.(client := cl.(reader := r, open := cl.open && !r.closed))
    case ClientReadFailed(_) => c.(client := cl.(reader := cl.reader.Fail(), open := false))
  }

  function Moved(s: System, a: Action): System
    requires Enabled(s, a) && !a.Connect?
  {
    s.(conns := s.conns[a.id := Local(s.conns[a.id], a.id in s.members, a)])
  }

  /** The handler of a complete body hands the message to the room. */
  predicate Broadcasts(s: System, a: Action)
    requires Enabled(s, a)
  {
    a.ServerHandle? && s.conns[a.id].member.reader.inBody
  }

  /** A refused header or a failed operation makes the member leave. */
  predicate Removes(s: System, a: Action)
    requires Enabled(s, a)
  {
    || a.ServerReadFailed? || a.ServerWriteFailed?
    || (a.ServerHandle? && !s.conns[a.id].member.reader.inBody && BadHeader(s.conns[a.id].member.reader.raw))
  }

  function Apply(s: System, a: Action): System
    requires Enabled(s, a)
  {
    if a.Connect? then Join(s, a.key)
    else if Broadcasts(s, a) then Tell(Moved(s, a), s.conns[a.id].member.reader.raw, a.id)
    else if Removes(s, a) then Remove(Moved(s, a), a.id)
    else Moved(s, a)
  }

  /** `acts` lead from `s` to `s'`. */
  ghost predicate Continues(s: System, acts: seq<Action>, s': System)
    decreases |acts|
  {
    if acts == [] then s' == s
    else Enabled(s, acts[0]) && Continues(Apply(s, acts[0]), acts[1..], s')
  }

  /** `s'` comes from the empty room by the steps `acts`. */
  ghost predicate Reaches(acts: seq<Action>, s': System)
    decreases |acts|
  {
    if acts == [] then s' == INITIAL
    else
      var n := |acts| - 1;
      exists s: System :: Reaches(acts[..n], s) && Enabled(s, acts[n]) && s' == Apply(s, acts[n])
  }
}
