/** What reaches the user at the other end: texts in the log and files on disk. */
module Delivery {
  import opened Bytes
  import opened Wrappers
  import opened Frame
  import opened Codec
  import opened Framing
  import opened Relay
  import opened RelayInvariant
  import opened RelayTheorems
  import opened Drain
  import opened ClientView
  import C = Client

  /** In the settled state `s`, what `i` sent as number `n` is entry `p` of the log, and
      client `j` has decoded it as its message `k`, unless it joined later or is named as
      its origin. */
  ghost predicate Carried(s: System, i: nat, j: nat, n: nat, p: nat, k: nat)
    requires i < |s.conns| && j < |s.conns| && n < |s.conns[i].client.sentAll|
  {
    var f, frames := s.conns[i].client.sentAll[n], s.conns[j].client.reader.frames;
    && p < |s.log| && s.log[p] == Entry(f, i) && Rank(s.log, p) == n
    && |f| >= HEADER_SIZE
    && (s.conns[j].joinedAt <= p && Origin(f) != s.conns[j].member.key ==> k < |frames| && frames[k] == f)
  }

  lemma FrameCarried(s: System, i: nat, j: nat, n: nat) returns (p: nat, k: nat)
    requires Inv(s) && Settled(s)
    requires i < |s.conns| && i in s.members && s.conns[i].client.open
    requires j < |s.conns| && j in s.members && s.conns[j].client.open
    requires n < |s.conns[i].client.sentAll| && AllAccepted(s.conns[i].client.sentAll[..n + 1])
    ensures Carried(s, i, j, n, p, k)
  {
    hide *;
    var sent := s.conns[i].client.sentAll;
    FramesOfHead(sent, n + 1);
    assert sent[..n + 1][n] == sent[n];
    p, k := EveryFrameArrives(s, i, j, n);
    CarriedBy(s, i, j, n, p, k);
  }

  lemma CarriedBy(s: System, i: nat, j: nat, n: nat, p: nat, k: nat)
    requires i < |s.conns| && j < |s.conns| && n < |s.conns[i].client.sentAll| && p < |s.log|
    requires s.log[p].source == i && Rank(s.log, p) == n && s.log[p].frame == s.conns[i].client.sentAll[n]
    requires |s.log[p].frame| >= HEADER_SIZE
    requires s.conns[j].joinedAt <= p && Origin(s.log[p].frame) != s.conns[j].member.key ==>
               k < |s.conns[j].client.reader.frames| && s.conns[j].client.reader.frames[k] == s.log[p].frame
    ensures Carried(s, i, j, n, p, k)
  {
    hide Origin, Rank;
  }

  /** The report on message `k` stands in the log of the client, in one piece. */
  lemma MessageLogged(c: C.Client, s: System, j: nat, k: nat) returns (from: nat, upTo: nat)
    requires Behind(c, s, j) && k < |s.conns[j].client.reader.frames|
    ensures c.files == C.AllStores(s.conns[j].client.reader.frames)
    ensures |s.conns[j].client.reader.frames[k]| >= HEADER_SIZE
    ensures from <= upTo <= |c.log.text| && c.log.text[from..upTo] == C.Report(s.conns[j].client.reader.frames[k])
  {
    hide C.Report, C.Occur, C.AllStores;
    from, upTo := C.OccurEach(C.AllReports(c.frames), c.log.text, k);
  }

  /** A file that a client sends, after frames that were all acceptable, is in the end
      written by every client that had joined before it, other than the origin it names, and
      logged there as intact; its name then holds its contents, unless a later message
      brought another file of that name. */
  lemma FileArrives(
    s: System, i: nat, j: nat, n: nat, origin: bytes, name: bytes, file: bytes, c: C.Client)
    returns (p: nat, k: nat, from: nat, upTo: nat)
    requires Inv(s) && Settled(s) && Behind(c, s, j)
    requires i < |s.conns| && i in s.members && s.conns[i].client.open
    requires j < |s.conns| && j in s.members && s.conns[j].client.open
    requires n < |s.conns[i].client.sentAll| && AllAccepted(s.conns[i].client.sentAll[..n])
    requires s.conns[i].client.sentAll[n] == FileFrame(origin, name, file)
    requires NoNul(origin) && NoNul(name) && |origin| <= 254 && |name| + 1 + |file| <= MAX_DATA_LENGTH
    ensures Carried(s, i, j, n, p, k)
    ensures s.conns[j].joinedAt <= p && origin != s.conns[j].member.key ==>
              var frames := s.conns[j].client.reader.frames;
              && k < |frames| && C.Stores(frames[k]) == [C.Stored(name, file)] && C.Stored(name, file) in c.files
              && from <= upTo <= |c.log.text|
              && c.log.text[from..upTo] == C.CHECKSUM_OK + [0x5B] + origin + C.AFTER_ORIGIN
                                           + C.FILE_TAG + name + [0x20] + Decimal(|file|) + C.BYTES_TAG
              && ((forall m | k < m < |frames| :: C.NotUnder(frames[m], name)) ==>
                  C.OnDisk(c.files, name) == Some(file))
  {
    Limit();
    hide *;
    var f := FileFrame(origin, name, file);
    FileFrameAccepted(origin, name, file);
    OriginRoundTrip(WRITE_FILE, origin, name + [NUL] + file);
    FramesAre(origin, name, file, []);
    AcceptedUpTo(s.conns[i].client.sentAll, n);
    from, upTo := 0, 0;
    p, k := FrameCarried(s, i, j, n);
    CarriedMeans(s, i, j, n, p, k);
    C.FileReport(origin, name, file);
    if s.conns[j].joinedAt <= p && origin != s.conns[j].member.key {
      var frames := s.conns[j].client.reader.frames;
      from, upTo := MessageLogged(c, s, j, k);
      StoredIn(frames, k, C.Stored(name, file));
      if forall m | k < m < |frames| :: C.NotUnder(frames[m], name) {
        LastHolds(frames, k, name, file);
      }
    }
  }

  lemma LastHolds(frames: seq<bytes>, k: nat, name: bytes, file: bytes)
    requires k < |frames| && C.Stores(frames[k]) == [C.Stored(name, file)]
    requires forall m | k < m < |frames| :: C.NotUnder(frames[m], name)
    ensures C.OnDisk(C.AllStores(frames), name) == Some(file)
  {
    hide C.Stores, C.NotUnder, C.OnDisk, C.AllStores;
    assert C.LastUnder(frames, k, name, file);
    C.OnDiskIsLast(frames, name, file);
  }

  lemma {:induction false} StoredIn(frames: seq<bytes>, k: nat, file: C.Stored)
    requires k < |frames| && file in C.Stores(frames[k])
    ensures file in C.AllStores(frames)
    decreases |frames|
  {
    hide C.Stores;
    var n := |frames| - 1;
    if k == n {
    } else {
      StoredIn(frames[..n], k, file);
    }
  }

  /** A text that a client sends arrives in the same way, in the log. */
  lemma TextArrives(
    s: System, i: nat, j: nat, n: nat, origin: bytes, text: bytes, c: C.Client)
    returns (p: nat, k: nat, from: nat, upTo: nat)
    requires Inv(s) && Settled(s) && Behind(c, s, j)
    requires i < |s.conns| && i in s.members && s.conns[i].client.open
    requires j < |s.conns| && j in s.members && s.conns[j].client.open
    requires n < |s.conns[i].client.sentAll| && AllAccepted(s.conns[i].client.sentAll[..n])
    requires s.conns[i].client.sentAll[n] == TextFrame(origin, text)
    requires NoNul(origin) && NoNul(text) && |origin| <= 254 && |text| + 1 <= MAX_DATA_LENGTH
    ensures Carried(s, i, j, n, p, k)
    ensures s.conns[j].joinedAt <= p && origin != s.conns[j].member.key ==>
              && from <= upTo <= |c.log.text|
              && c.log.text[from..upTo] == C.CHECKSUM_OK + [0x5B] + origin + C.AFTER_ORIGIN + text + [0x0A]
  {
    Limit();
    hide *;
    TextFrameAccepted(origin, text);
    OriginRoundTrip(TEXT, origin, text + [NUL]);
    FramesAre(origin, [], [], text);
    AcceptedUpTo(s.conns[i].client.sentAll, n);
    from, upTo := 0, 0;
    p, k := FrameCarried(s, i, j, n);
    CarriedMeans(s, i, j, n, p, k);
    C.TextReport(origin, text);
    if s.conns[j].joinedAt <= p && origin != s.conns[j].member.key {
      from, upTo := MessageLogged(c, s, j, k);
    }
  }

  lemma Limit()
    ensures MAX_DATA_LENGTH < 0x1_0000_0000
  {
  }

  lemma FramesAre(origin: bytes, name: bytes, file: bytes, text: bytes)
    ensures FileFrame(origin, name, file) == Encode(WRITE_FILE, origin, name + [NUL] + file)
    ensures TextFrame(origin, text) == Encode(TEXT, origin, text + [NUL])
  {
    hide Encode;
  }

  lemma CarriedMeans(s: System, i: nat, j: nat, n: nat, p: nat, k: nat)
    requires i < |s.conns| && j < |s.conns| && n < |s.conns[i].client.sentAll| && Carried(s, i, j, n, p, k)
    ensures |s.conns[i].client.sentAll[n]| >= HEADER_SIZE
    ensures s.conns[j].joinedAt <= p && Origin(s.conns[i].client.sentAll[n]) != s.conns[j].member.key ==>
              var frames := s.conns[j].client.reader.frames;
              k < |frames| && frames[k] == s.conns[i].client.sentAll[n]
  {
    hide Origin, Rank;
  }

  lemma AcceptedUpTo(fs: seq<bytes>, n: nat)
    requires n < |fs| && AllAccepted(fs[..n]) && Accepted(fs[n])
    ensures AllAccepted(fs[..n + 1])
  {
    hide Accepted;
    assert fs[..n + 1] == fs[..n] + [fs[n]];
  }
}
