/** The client of the system is the client's object: each method, run on the object behind a
    connection, does what the step of the system does to that connection's client. */
module ClientView {
  import opened Bytes
  import opened Frame
  import opened Framing
  import opened Relay
  import opened Posts
  import C = Client
  import L = ScrollingLog

  /** The client object behind connection `j` of the system. */
  ghost predicate Behind(c: C.Client, s: System, j: nat)
    reads c, c.log`text
  {
    j < |s.conns| && c.Valid() && c.Abs() == s.conns[j].client
  }

  /** A user's send is the call that hands the message to the event loop. */
  method PostStep(c: C.Client, ghost s: System, i: nat, f: bytes)
    requires Behind(c, s, i) && Enabled(s, Post(i, f))
    modifies c
    ensures Behind(c, Apply(s, Post(i, f)), i)
  {
    ClientAfter(s, Post(i, f), i);
    hide Apply;
    c.SendMessage(f);
  }

  /** The event loop runs the oldest message posted. */
  method RunPostedStep(c: C.Client, ghost s: System, i: nat)
    requires Behind(c, s, i) && Enabled(s, RunPosted(i))
    modifies c
    ensures Behind(c, Apply(s, RunPosted(i)), i)
  {
    ClientAfter(s, RunPosted(i), i);
    hide Apply;
    c.RunPosted();
  }

  method WrittenStep(c: C.Client, ghost s: System, i: nat)
    requires Behind(c, s, i) && Enabled(s, ClientWritten(i))
    modifies c
    ensures Behind(c, Apply(s, ClientWritten(i)), i)
  {
    ClientAfter(s, ClientWritten(i), i);
    hide Apply;
    c.OnWritten(true);
  }

  /** A failed write needs a message that was being written. */
  method WriteFailedStep(c: C.Client, ghost s: System, i: nat)
    requires Behind(c, s, i) && Enabled(s, ClientWriteFailed(i)) && c.queue != []
    modifies c
    ensures Behind(c, Apply(s, ClientWriteFailed(i)), i)
  {
    ClientAfter(s, ClientWriteFailed(i), i);
    hide Apply;
    c.OnWritten(false);
  }

  /** A completed header read. */
  method HeaderStep(c: C.Client, ghost s: System, i: nat)
    requires Behind(c, s, i) && Enabled(s, ClientHandle(i)) && !c.inBody
    modifies c
    ensures Behind(c, Apply(s, ClientHandle(i)), i)
  {
    hide BadHeader, DataLen, Resize;
    HandledClient(s, i);
    hide Apply, Local;
    c.OnHeader(true);
  }

  /** A completed body read. A message that the source could not read inside its buffer is
      left out. */
  method BodyStep(c: C.Client, ghost s: System, i: nat)
    requires Behind(c, s, i) && Enabled(s, ClientHandle(i)) && c.inBody
    requires c.log.Valid() && Accepted(c.raw) && Readable(c.raw)
    modifies c, c.log
    ensures Behind(c, Apply(s, ClientHandle(i)), i)
    ensures c.log.Valid()
  {
    hide Accepted, Readable, C.Report, C.Stores, BadHeader, DataLen, C.Client.Valid, L.ScrollingLog.Valid;
    HandledClient(s, i);
    hide Apply, Local;
    var inside := c.OnBody(true);
  }

  lemma HandledClient(s: System, i: nat)
    requires i < |s.conns| && Enabled(s, ClientHandle(i))
    ensures i < |Apply(s, ClientHandle(i)).conns|
    ensures var c := s.conns[i].client;
            && |c.reader.raw| >= HEADER_SIZE && !c.reader.closed
            && var r := c.reader.Complete();
            Apply(s, ClientHandle(i)).conns[i].client == c.(reader := r, open := c.open && !r.closed)
  {
    hide Apply, BadHeader, DataLen;
    ClientAfter(s, ClientHandle(i), i);
  }

  /** A failed header read. */
  method HeaderFailedStep(c: C.Client, ghost s: System, i: nat)
    requires Behind(c, s, i) && Enabled(s, ClientReadFailed(i)) && !c.inBody
    requires |c.raw| >= HEADER_SIZE
    modifies c
    ensures Behind(c, Apply(s, ClientReadFailed(i)), i)
  {
    ReadFailedClient(s, i);
    hide Apply, Local;
    c.OnHeader(false);
  }

  /** A failed body read. */
  method BodyFailedStep(c: C.Client, ghost s: System, i: nat)
    requires Behind(c, s, i) && Enabled(s, ClientReadFailed(i)) && c.inBody
    requires c.log.Valid() && |c.raw| >= HEADER_SIZE
    modifies c, c.log
    ensures Behind(c, Apply(s, ClientReadFailed(i)), i)
    ensures c.log.Valid()
  {
    hide C.Report, C.Stores, C.Client.Valid, L.ScrollingLog.Valid;
    ReadFailedClient(s, i);
    hide Apply, Local;
    var inside := c.OnBody(false);
  }

  lemma ReadFailedClient(s: System, i: nat)
    requires i < |s.conns| && Enabled(s, ClientReadFailed(i))
    ensures i < |Apply(s, ClientReadFailed(i)).conns| && !s.conns[i].client.reader.closed
    ensures var c := s.conns[i].client;
            Apply(s, ClientReadFailed(i)).conns[i].client == c.(reader := c.reader.Fail(), open := false)
  {
    hide Apply;
    ClientAfter(s, ClientReadFailed(i), i);
  }

  /** A connection that is made is a new object. */
  method ConnectStep(log: L.ScrollingLog, ghost s: System, key: bytes, address: bytes, port: nat)
    returns (c: C.Client)
    requires Enabled(s, Connect(key)) && log.Valid()
    modifies log
    ensures |Apply(s, Connect(key)).conns| == |s.conns| + 1
    ensures fresh(c) && log.Valid() && Behind(c, Apply(s, Connect(key)), |s.conns|)
  {
    JoinFacts(s, key);
    StepConns(s, Connect(key));
    hide Apply, Join;
    c := new C.Client(log, address, port);
  }
}
