/** What encoding a message and reading it back with the accessors gives. */
module Codec {
  import opened Bytes
  import opened CrcTable
  import opened Crc32
  import opened CrcTheory
  import opened CrcPeriod
  import opened Frame

  // ----- Round trip

  /** The origin length is stored in one byte, the string data length in four. */
  lemma LengthsStoredExactly(kind: byte, origin: bytes, stringData: bytes)
    ensures var raw := Encode(kind, origin, stringData);
            && (OriginLen(raw) == |origin| + 1 <==> |origin| <= 254)
            && (StringDataLen(raw) == |stringData| <==> |stringData| < 0x1_0000_0000)
  {
    hide Encode;
    EncodeFields(kind, origin, stringData);
  }

  /** The origin is read back whenever it has no NUL, and only then. */
  lemma OriginRoundTrip(kind: byte, origin: bytes, stringData: bytes)
    ensures Origin(Encode(kind, origin, stringData)) == origin <==> NoNul(origin)
  {
    EncodeFields(kind, origin, stringData);
    hide Encode, Crc;
    if NoNul(origin) {
      CStringTerminated(origin, stringData);
    }
  }

  lemma StringPart(kind: byte, origin: bytes, str: bytes, rest: bytes)
    requires |origin| <= 254
    ensures var raw := Encode(kind, origin, str + [NUL] + rest);
            && OriginLen(raw) == |origin| + 1
            && raw[DATA_OFFSET + OriginLen(raw)..] == str + [NUL] + rest
            && (String(raw) == str <==> NoNul(str))
  {
    var raw := Encode(kind, origin, str + [NUL] + rest);
    EncodeFields(kind, origin, str + [NUL] + rest);
    hide Encode, Crc, StringDataLen, OriginLen;
    assert raw[DATA_OFFSET + OriginLen(raw)..] == Data(raw)[|origin| + 1..];
    if NoNul(str) {
      CStringTerminated(str, rest);
    }
  }

  lemma EncodeWellFormed(kind: byte, origin: bytes, str: bytes, rest: bytes)
    requires kind == TEXT || kind == WRITE_FILE
    requires |origin| <= 254 && |str| + 1 + |rest| < 0x1_0000_0000
    ensures var raw := Encode(kind, origin, str + [NUL] + rest);
            && WellFormed(raw)
            && StringDataLen(raw) == |str| + 1 + |rest|
  {
    hide Encode, Crc, StringDataLen, OriginLen, CString, MessageType, Checksum, NoNul;
    var raw := Encode(kind, origin, str + [NUL] + rest);
    EncodeFields(kind, origin, str + [NUL] + rest);
    StringPart(kind, origin, str, rest);
    assert raw[DATA_OFFSET + OriginLen(raw) - 1] == Data(raw)[|origin|] == NUL;
    assert raw[DATA_OFFSET + OriginLen(raw)..][|str|] == NUL;
  }

  /** A text message is read back exactly: type, origin, text, no file, and a stored
      checksum equal to the recomputed one. */
  lemma TextRoundTrip(origin: bytes, text: bytes)
    requires NoNul(origin) && NoNul(text)
    requires |origin| <= 254 && |text| + 1 < 0x1_0000_0000
    ensures var raw := TextFrame(origin, text);
            && WellFormed(raw)
            && MessageType(raw) == TEXT && Origin(raw) == origin && String(raw) == text
            && File(raw) == [] && FileLen(raw) == 0
            && Checksum(raw) == Crc(CRC_START, Data(raw))
  {
    assert text + [NUL] + [] == text + [NUL];
    EncodeFields(TEXT, origin, text + [NUL]);
    OriginRoundTrip(TEXT, origin, text + [NUL]);
    StringPart(TEXT, origin, text, []);
    EncodeWellFormed(TEXT, origin, text, []);
    hide Encode, Crc, WellFormed, MessageType, Origin, String, Checksum;
  }

  /** A file message is read back exactly: type, origin, name and every file byte. */
  lemma FileRoundTrip(origin: bytes, name: bytes, file: bytes)
    requires NoNul(origin) && NoNul(name)
    requires |origin| <= 254 && |name| + 1 + |file| < 0x1_0000_0000
    ensures var raw := FileFrame(origin, name, file);
            && WellFormed(raw)
            && MessageType(raw) == WRITE_FILE && Origin(raw) == origin && String(raw) == name
            && File(raw) == file && FileLen(raw) == |file|
            && Checksum(raw) == Crc(CRC_START, Data(raw))
  {
    var raw := FileFrame(origin, name, file);
    EncodeFields(WRITE_FILE, origin, name + [NUL] + file);
    OriginRoundTrip(WRITE_FILE, origin, name + [NUL] + file);
    StringPart(WRITE_FILE, origin, name, file);
    EncodeWellFormed(WRITE_FILE, origin, name, file);
    hide Encode, Crc, WellFormed, MessageType, Origin, String, Checksum, StringDataLen, OriginLen;
    assert File(raw) == raw[DATA_OFFSET + OriginLen(raw)..][|name| + 1..];
  }

  /** The receiver takes a text message exactly when the stored length, which has
      wrapped around 2^32, is within the limit. */
  lemma TextAccepted(origin: bytes, text: bytes)
    ensures !BadHeader(TextFrame(origin, text)) <==> U32(|text| + 1) <= MAX_DATA_LENGTH
  {
    hide Encode;
    EncodeFields(TEXT, origin, text + [NUL]);
  }

  lemma FileAccepted(origin: bytes, name: bytes, file: bytes)
    ensures !BadHeader(FileFrame(origin, name, file)) <==> U32(|name| + 1 + |file|) <= MAX_DATA_LENGTH
  {
    hide Encode;
    EncodeFields(WRITE_FILE, origin, name + [NUL] + file);
  }

  /** A header the receiver takes announces the length the frame really has. */
  ghost predicate Honest(raw: bytes) {
    |raw| >= HEADER_SIZE && (!BadHeader(raw) ==> |raw| == HEADER_SIZE + DataLen(raw))
  }

  /** The encoder writes an honest frame exactly when no length field wraps around or the
      receiver refuses the header anyway. */
  lemma EncodeHonest(kind: byte, origin: bytes, stringData: bytes)
    ensures var raw := Encode(kind, origin, stringData);
            Honest(raw) <==> BadHeader(raw) || (|origin| <= 254 && |stringData| < 0x1_0000_0000)
  {
    EncodeFields(kind, origin, stringData);
    hide Encode, StringDataLen, OriginLen, MessageType;
  }

  // ----- Origins

  /** How the encoder and the room write a socket endpoint. */
  function Render(address: bytes, port: nat): bytes {
    address + [COLON] + Decimal(port)
  }

  lemma ColonTellsLength(a: bytes, p: nat, b: bytes, q: nat)
    requires |a| < |b|
    ensures Render(a, p) != Render(b, q)
  {
    DecimalPlain(p);
    hide Decimal;
    var r, s := Render(a, p), Render(b, q);
    if |r| == |s| {
      assert s[|b|] == COLON && r[|b|] == Decimal(p)[|b| - |a| - 1];
      assert r[|b|] in Decimal(p);
    }
  }

  /** Different endpoints are written differently, whatever the address looks like. */
  lemma RenderInjective(a: bytes, p: nat, b: bytes, q: nat)
    ensures Render(a, p) == Render(b, q) <==> a == b && p == q
  {
    DecimalRoundTrip(p);
    DecimalRoundTrip(q);
    var r, s := Render(a, p), Render(b, q);
    if r == s {
      if |a| < |b| {
        ColonTellsLength(a, p, b, q);
      } else if |b| < |a| {
        ColonTellsLength(b, q, a, p);
      }
      hide Decimal, FromDecimal;
      assert r[..|a|] == a && s[..|b|] == b;
      assert r[|a| + 1..] == Decimal(p) && s[|b| + 1..] == Decimal(q);
    }
  }

  lemma RenderPlain(address: bytes, port: nat)
    requires NoNul(address)
    ensures NoNul(Render(address, port))
  {
    hide Decimal;
    DecimalPlain(port);
  }

  /** The address, a colon, and the port in decimal digits. */
  lemma RenderParts(address: bytes, port: nat)
    ensures var r, n := Render(address, port), |address|;
            && n < |r| && r[..n] == address && r[n] == 0x3A
            && FromDecimal(r[n + 1..]) == port
            && (forall i | n < i < |r| :: 0x30 <= NatOf(r[i]) <= 0x39)
            && (port < 10 ==> |r| == n + 2) && (port > 0 ==> NatOf(r[n + 1]) != 0x30)
  {
    hide Decimal, FromDecimal, NatOf;
    var r, n := Render(address, port), |address|;
    assert r[..n] == address && r[n + 1..] == Decimal(port);
    DecimalRoundTrip(port);
    DecimalDigits(port);
    DecimalCanonical(port);
    forall i | n < i < |r| ensures 0x30 <= NatOf(r[i]) <= 0x39 {
      assert r[i] == Decimal(port)[i - n - 1];
    }
  }

  // ----- Base names

  predicate IsSeparator(b: byte) {
    b == 0x2F || b == 0x5C
  }

  /** `find_last_of("/\\")`, with -1 for `npos`. */
  function LastSeparator(path: bytes): (i: int)
    ensures -1 <= i < |path|
    ensures i >= 0 ==> IsSeparator(path[i])
    ensures forall j | i < j < |path| :: !IsSeparator(path[j])
  {
    if path == [] then -1
    else if IsSeparator(path[|path| - 1]) then |path| - 1
    else LastSeparator(path[..|path| - 1])
  }

  function BaseName(path: bytes): (name: bytes)
    ensures |name| <= |path| && path[|path| - |name|..] == name
    ensures forall b | b in name :: !IsSeparator(b)
    ensures |name| < |path| ==> IsSeparator(path[|path| - |name| - 1])
  {
    path[LastSeparator(path) + 1..]
  }

  /** What follows the last slash or backslash of a path; all of a path without any. */
  lemma BaseNameAfter(dir: bytes, name: bytes)
    requires forall b | b in name :: b != 0x2F && b != 0x5C
    ensures BaseName(dir + [0x2F] + name) == name && BaseName(dir + [0x5C] + name) == name && BaseName(name) == name
  {
    BaseNameIs(dir + [0x2F], name);
    BaseNameIs(dir + [0x5C], name);
    BaseNameIs([], name);
    assert [] + name == name;
  }

  /** `name` is all of the path after a slash or a backslash, or a path without any. */
  ghost predicate NameOf(path: bytes, name: bytes) {
    && (forall b | b in name :: b != 0x2F && b != 0x5C)
    && (path == name || exists dir: bytes :: path == dir + [0x2F] + name || path == dir + [0x5C] + name)
  }

  lemma BaseNameExact(path: bytes, name: bytes)
    ensures NameOf(path, name) <==> BaseName(path) == name
  {
    hide NameOf, BaseName;
    if BaseName(path) == name {
      BaseIsName(path);
    }
    if NameOf(path, name) {
      NameIsBase(path, name);
    }
  }

  lemma NameIsBase(path: bytes, name: bytes)
    requires NameOf(path, name)
    ensures BaseName(path) == name
  {
    hide BaseName;
    BaseNameAfter([], name);
    if path != name {
      var dir: bytes :| path == dir + [0x2F] + name || path == dir + [0x5C] + name;
      BaseNameAfter(dir, name);
    }
  }

  lemma BaseIsName(path: bytes)
    ensures NameOf(path, BaseName(path))
  {
    hide LastSeparator;
    var name := BaseName(path);
    var k := |path| - |name|;
    assert path == path[..k] + name;
    if k > 0 {
      var dir := path[..k - 1];
      assert path == dir + [path[k - 1]] + name;
    }
  }

  lemma BaseNameIs(front: bytes, name: bytes)
    requires forall b | b in name :: b != 0x2F && b != 0x5C
    requires front != [] ==> front[|front| - 1] == 0x2F || front[|front| - 1] == 0x5C
    ensures BaseName(front + name) == name
  {
    LastBefore(front, name);
    hide LastSeparator;
    assert (front + name)[|front|..] == name;
  }

  lemma {:induction false} LastBefore(front: bytes, name: bytes)
    requires forall b | b in name :: b != 0x2F && b != 0x5C
    requires front != [] ==> front[|front| - 1] == 0x2F || front[|front| - 1] == 0x5C
    ensures LastSeparator(front + name) == |front| - 1
    decreases |name|
  {
    if name == [] {
      assert front + name == front;
    } else {
      var n := |name| - 1;
      assert (front + name)[|front| + n] == name[n] && name[n] in name;
      assert (front + name)[..|front| + n] == front + name[..n];
      assert forall b | b in name[..n] :: b in name;
      LastBefore(front, name[..n]);
    }
  }

  // ----- The format, byte by byte

  /** The four bytes of the length field, lowest first. */
  lemma LengthField(raw: bytes)
    requires |raw| >= 10
    ensures StringDataLen(raw) ==
            NatOf(raw[2]) + 0x100 * NatOf(raw[3]) + 0x10000 * NatOf(raw[4]) + 0x1000000 * NatOf(raw[5])
  {
    hide NatOf;
    var s := raw[2..6];
    var s1 := s[1..];
    var s2 := s1[1..];
    var s3 := s2[1..];
    assert s3[1..] == [] && s3[0] == raw[5] && s2[0] == raw[4] && s1[0] == raw[3];
    assert FromLittleEndian(s3) == NatOf(raw[5]) + 256 * FromLittleEndian(s3[1..]);
    assert FromLittleEndian(s2) == NatOf(raw[4]) + 256 * FromLittleEndian(s3);
    assert FromLittleEndian(s1) == NatOf(raw[3]) + 256 * FromLittleEndian(s2);
  }

  /** A header is refused unless it says 1 or 2 and announces at most 2^30 bytes; it
      announces the sum of its two lengths, modulo 2^32. */
  lemma HeaderMeans(raw: bytes)
    requires |raw| >= 10
    ensures BadHeader(raw) <==> (raw[0] != 1 && raw[0] != 2) || StringDataLen(raw) > 1073741824
    ensures DataLen(raw) == (NatOf(raw[1]) + StringDataLen(raw)) % 4294967296
  {
    hide StringDataLen, NatOf;
  }

  /** A text frame: 1, the origin's length with its NUL, the text's length with its NUL, four
      bytes of checksum over all that follows, origin, 0, text, 0. */
  lemma TextLayout(origin: bytes, text: bytes)
    requires |origin| <= 254 && |text| + 1 < 0x1_0000_0000
    ensures var raw, n := TextFrame(origin, text), |origin|;
            && |raw| == 12 + n + |text|
            && raw[0] == 1 && NatOf(raw[1]) == n + 1 && StringDataLen(raw) == |text| + 1
            && Checksum(raw) == Crc(0xFFFFFFFF, raw[10..])
            && raw[10..10 + n] == origin && raw[10 + n] == 0
            && raw[11 + n..11 + n + |text|] == text && raw[11 + n + |text|] == 0
  {
    EncodeFields(TEXT, origin, text + [NUL]);
    hide Encode, Crc, StringDataLen, Checksum, NatOf;
    var raw, n := TextFrame(origin, text), |origin|;
    assert Data(raw) == origin + [NUL] + (text + [NUL]);
    DataSlices(raw, origin, text, []);
    assert text + [NUL] + [] == text + [NUL];
  }

  /** A file frame: the same with a 2, the name for the text, and the contents behind it. */
  lemma FileLayout(origin: bytes, name: bytes, file: bytes)
    requires |origin| <= 254 && |name| + 1 + |file| < 0x1_0000_0000
    ensures var raw, n := FileFrame(origin, name, file), |origin|;
            && |raw| == 12 + n + |name| + |file|
            && raw[0] == 2 && NatOf(raw[1]) == n + 1 && StringDataLen(raw) == |name| + 1 + |file|
            && Checksum(raw) == Crc(0xFFFFFFFF, raw[10..])
            && raw[10..10 + n] == origin && raw[10 + n] == 0
            && raw[11 + n..11 + n + |name|] == name && raw[11 + n + |name|] == 0
            && raw[12 + n + |name|..] == file
  {
    EncodeFields(WRITE_FILE, origin, name + [NUL] + file);
    hide Encode, Crc, StringDataLen, Checksum, NatOf;
    var raw := FileFrame(origin, name, file);
    assert Data(raw) == origin + [NUL] + (name + [NUL] + file);
    DataSlices(raw, origin, name, file);
  }

  lemma DataSlices(raw: bytes, origin: bytes, str: bytes, rest: bytes)
    requires |raw| >= 10 && raw[10..] == origin + [0] + (str + [0] + rest)
    ensures var n := |origin|;
            && |raw| == 12 + n + |str| + |rest|
            && raw[10..10 + n] == origin && raw[10 + n] == 0
            && raw[11 + n..11 + n + |str|] == str && raw[11 + n + |str|] == 0
            && raw[12 + n + |str|..] == rest
  {
    var data, n := raw[10..], |origin|;
    assert forall k | 10 <= k < |raw| :: raw[k] == data[k - 10];
    assert raw[10..10 + n] == data[..n];
    assert raw[11 + n..11 + n + |str|] == data[n + 1..n + 1 + |str|];
    assert raw[12 + n + |str|..] == data[n + |str| + 2..];
  }

  /** Any message laid out like that reads back, whatever its checksum says. */
  lemma AnyReadBack(raw: bytes, origin: bytes, str: bytes, rest: bytes)
    requires |raw| >= 10 && raw[10..] == origin + [0] + (str + [0] + rest)
    requires NoNul(origin) && NoNul(str)
    requires NatOf(raw[1]) == |origin| + 1 && StringDataLen(raw) == |str| + 1 + |rest|
    ensures Readable(raw) && Origin(raw) == origin && String(raw) == str
    ensures raw[0] == 2 ==> File(raw) == rest && FileLen(raw) == |rest|
    ensures raw[0] != 2 ==> File(raw) == []
  {
    hide StringDataLen, NatOf, CString;
    var n := |origin|;
    DataSlices(raw, origin, str, rest);
    CStringTerminated(origin, str + [0] + rest);
    CStringTerminated(str, rest);
    assert raw[11 + n..] == str + [0] + rest by {
      assert raw[11 + n..] == raw[10..][n + 1..];
    }
    assert raw[11 + n..][|str|] == 0;
  }

  // ----- The receiver's check

  /** What the client computes after a body has arrived. */
  predicate ChecksumOk(raw: bytes)
    requires |raw| >= HEADER_SIZE
  {
    Checksum(raw) == Crc(CRC_START, Data(raw))
  }

  /** A message an encoder could have written, with a checksum that fits its data. */
  ghost predicate Intact(raw: bytes) {
    WellFormed(raw) && ChecksumOk(raw)
  }

  lemma IntactHonest(raw: bytes)
    requires Intact(raw)
    ensures Honest(raw)
  {
    hide StringDataLen, MessageType, Checksum, Crc, NatOf;
    assert OriginLen(raw) < 256;
  }

  lemma TextIntact(origin: bytes, text: bytes)
    requires |origin| <= 254 && |text| + 1 < 0x1_0000_0000
    ensures Intact(TextFrame(origin, text))
  {
    EncodeFields(TEXT, origin, text + [NUL]);
    EncodeWellFormed(TEXT, origin, text, []);
    hide Encode, WellFormed, Checksum, Crc;
    assert text + [NUL] + [] == text + [NUL];
  }

  lemma FileIntact(origin: bytes, name: bytes, file: bytes)
    requires |origin| <= 254 && |name| + 1 + |file| < 0x1_0000_0000
    ensures Intact(FileFrame(origin, name, file))
  {
    EncodeFields(WRITE_FILE, origin, name + [NUL] + file);
    EncodeWellFormed(WRITE_FILE, origin, name, file);
    hide Encode, WellFormed, Checksum, Crc;
  }

  /** An intact message passes the check; one whose data part suffered a burst of at
      most 32 bits does not. */
  lemma BurstRejected(kind: byte, origin: bytes, stringData: bytes, received: bytes, s: nat, w: nat)
    requires var raw := Encode(kind, origin, stringData);
             && |received| == |raw| && received[..DATA_OFFSET] == raw[..DATA_OFFSET]
             && DifferInWindow(Bits(Data(raw)), Bits(Data(received)), s, w) && w <= 32
    ensures ChecksumOk(Encode(kind, origin, stringData))
    ensures ChecksumOk(received) <==> received == Encode(kind, origin, stringData)
  {
    var raw := Encode(kind, origin, stringData);
    EncodeFields(kind, origin, stringData);
    hide Encode, Crc, DifferInWindow, Bits, FromWordBytes;
    assert raw[CHECKSUM_OFFSET..DATA_OFFSET] == raw[..DATA_OFFSET][CHECKSUM_OFFSET..];
    assert received[CHECKSUM_OFFSET..DATA_OFFSET] == received[..DATA_OFFSET][CHECKSUM_OFFSET..];
    if received != raw {
      assert raw == raw[..DATA_OFFSET] + Data(raw) && received == received[..DATA_OFFSET] + Data(received);
      BurstDetected(CRC_START, Data(raw), Data(received), s, w);
    }
  }

  /** Two flipped bits in the data pass exactly at a distance that is a multiple of 2^32 - 1. */
  lemma TwoBitsRejected(kind: byte, origin: bytes, stringData: bytes, received: bytes, s: nat, d: nat)
    requires var raw := Encode(kind, origin, stringData);
             && |received| == |raw| && received[..DATA_OFFSET] == raw[..DATA_OFFSET]
             && d >= 1 && s + d < 8 * |Data(raw)|
             && forall i | 0 <= i < 8 * |Data(raw)| ::
                  Bits(Data(raw))[i] != Bits(Data(received))[i] <==> i == s || i == s + d
    ensures ChecksumOk(received) <==> d % 4294967295 == 0
  {
    hide Encode, Crc, Bits, FromWordBytes;
    var raw := Encode(kind, origin, stringData);
    EncodeFields(kind, origin, stringData);
    assert raw[CHECKSUM_OFFSET..DATA_OFFSET] == raw[..DATA_OFFSET][CHECKSUM_OFFSET..];
    assert received[CHECKSUM_OFFSET..DATA_OFFSET] == received[..DATA_OFFSET][CHECKSUM_OFFSET..];
    TwoBitsUnnoticed(CRC_START, Data(raw), Data(received), s, d);
  }

  /** Whatever happens to the stored checksum and the data, it goes unnoticed exactly when
      the checksum of the change to the data, from an empty register, is the change to the
      stored checksum. */
  lemma DamageUnnoticed(kind: byte, origin: bytes, stringData: bytes, received: bytes)
    requires |received| == |Encode(kind, origin, stringData)|
    ensures var raw := Encode(kind, origin, stringData);
            ChecksumOk(received) <==>
            Crc(0, XorBytes(Data(raw), Data(received))) == Add(Checksum(raw), Checksum(received))
  {
    hide Encode, Crc, XorBytes, Checksum, Data, Add;
    var raw := Encode(kind, origin, stringData);
    EncodeFields(kind, origin, stringData);
    DataLengths(raw, received);
    DifferenceCrc(CRC_START, Data(raw), Data(received));
    if Crc(0, XorBytes(Data(raw), Data(received))) == Add(Checksum(raw), Checksum(received)) {
      AddCancel(Checksum(raw), Crc(CRC_START, Data(received)), Checksum(received));
    }
  }

  lemma DataLengths(a: bytes, b: bytes)
    requires |a| == |b| >= HEADER_SIZE
    ensures |Data(a)| == |Data(b)|
  {
  }

  /** Any change confined to the stored checksum is rejected as well. */
  lemma ChecksumFieldRejected(kind: byte, origin: bytes, stringData: bytes, received: bytes)
    requires var raw := Encode(kind, origin, stringData);
             && |received| == |raw| && Data(received) == Data(raw)
             && received[..CHECKSUM_OFFSET] == raw[..CHECKSUM_OFFSET]
    ensures ChecksumOk(received) <==> received == Encode(kind, origin, stringData)
  {
    var raw := Encode(kind, origin, stringData);
    EncodeFields(kind, origin, stringData);
    hide Encode, Crc, FromWordBytes;
    var c, d := raw[CHECKSUM_OFFSET..DATA_OFFSET], received[CHECKSUM_OFFSET..DATA_OFFSET];
    assert raw == raw[..CHECKSUM_OFFSET] + c + Data(raw);
    assert received == received[..CHECKSUM_OFFSET] + d + Data(received);
    FromWordBytesRoundTrip(c);
    FromWordBytesRoundTrip(d);
  }
}
