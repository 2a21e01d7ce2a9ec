/** The frame layout: ten header bytes, then the data that the checksum covers. */
module Frame {
  import opened Bytes
  import opened CrcTable
  import opened Crc32

  const TEXT: byte := 1
  const WRITE_FILE: byte := 2
  const MAX_DATA_LENGTH: nat := 1073741824

  const MESSAGE_TYPE_OFFSET: nat := 0
  const ORIGIN_LEN_OFFSET: nat := 1
  const STRINGDATA_LEN_OFFSET: nat := 2
  const CHECKSUM_OFFSET: nat := 6
  const DATA_OFFSET: nat := 10
  const HEADER_SIZE: nat := 10

  const CRC_START: Word := 0xFFFFFFFF

  // ----- The two unsigned widths of the source

  function U8(n: nat): (m: nat)
    ensures m < 256
  {
    n % 256
  }

  function U32(n: nat): (m: nat)
    ensures m < 0x1_0000_0000
  {
    n % 0x1_0000_0000
  }

  function WordBytes(w: Word): (s: bytes)
    ensures |s| == 4
  {
    [(w & 0xFF) as byte, ((w >> 8) & 0xFF) as byte, ((w >> 16) & 0xFF) as byte, ((w >> 24) & 0xFF) as byte]
  }

  function FromWordBytes(s: bytes): Word
    requires |s| == 4
  {
    (s[0] as Word) | ((s[1] as Word) << 8) | ((s[2] as Word) << 16) | ((s[3] as Word) << 24)
  }

  lemma WordBytesRoundTrip(w: Word)
    ensures FromWordBytes(WordBytes(w)) == w
  {
  }

  lemma FromWordBytesRoundTrip(s: bytes)
    requires |s| == 4
    ensures WordBytes(FromWordBytes(s)) == s
  {
    assert s == [s[0], s[1], s[2], s[3]];
    WordParts(s[0], s[1], s[2], s[3]);
    hide FromWordBytes;
  }

  lemma WordParts(a: byte, b: byte, c: byte, d: byte)
    ensures var w := FromWordBytes([a, b, c, d]);
            && (w & 0xFF) as byte == a && ((w >> 8) & 0xFF) as byte == b
            && ((w >> 16) & 0xFF) as byte == c && ((w >> 24) & 0xFF) as byte == d
  {
  }

  // ----- Both 32-bit fields are written alike

  /** The word of value `n`, counted up from zero. */
  function WordOf(n: nat): Word {
    if n == 0 then 0 else WordOf(n - 1) + 1
  }

  /** Adds one to a little-endian number, dropping the last carry. */
  function Increment(s: bytes): (t: bytes)
    ensures |t| == |s|
  {
    if s == [] then []
    else if s[0] == 0xFF then [0] + Increment(s[1..])
    else [s[0] + 1] + s[1..]
  }

  lemma IncrementHead(a: byte, rest: bytes)
    ensures Increment([a] + rest) == if a == 0xFF then [0] + Increment(rest) else [a + 1] + rest
    ensures Increment([]) == []
  {
    assert ([a] + rest)[1..] == rest;
  }

  lemma IncrementFour(a: byte, b: byte, c: byte, d: byte)
    ensures Increment([a, b, c, d]) ==
            if a != 0xFF then [a + 1, b, c, d]
            else if b != 0xFF then [0, b + 1, c, d]
            else if c != 0xFF then [0, 0, c + 1, d]
            else [0, 0, 0, d + 1]
  {
    IncrementHead(a, [b, c, d]);
    IncrementHead(b, [c, d]);
    IncrementHead(c, [d]);
    IncrementHead(d, []);
    hide Increment;
    assert [a] + [b, c, d] == [a, b, c, d] && [b] + [c, d] == [b, c, d] && [c] + [d] == [c, d] && [d] + [] == [d];
    assert d == 0xFF ==> d + 1 == 0;
  }

  lemma WordBytesIncrement(w: Word)
    ensures WordBytes(w + 1) == Increment(WordBytes(w))
  {
    hide Increment;
    var s := WordBytes(w);
    IncrementFour(s[0], s[1], s[2], s[3]);
  }

  lemma ByteOfNext(n: nat)
    requires n < 256
    ensures ByteOf(n) == 0xFF <==> n == 255
    ensures n < 255 ==> ByteOf(n + 1) == ByteOf(n) + 1
  {
    ByteValue(n);
    ByteValue(255);
    assert NatOf(0xFF) == 255;
  }

  lemma {:induction false} LittleEndianIncrement(n: nat, k: nat)
    ensures LittleEndian(n + 1, k) == Increment(LittleEndian(n, k))
    decreases k
  {
    hide ByteOf, LittleEndian;
    LittleEndianIs(n, k);
    LittleEndianIs(n + 1, k);
    if k == 0 {
    } else {
      hide Increment;
      var low, high := n % 256, n / 256;
      NextDigit(n);
      ByteOfNext(low);
      ByteOfZero();
      IncrementHead(ByteOf(low), LittleEndian(high, k - 1));
      LittleEndianIncrement(high, k - 1);
    }
  }

  lemma NextDigit(n: nat)
    ensures n % 256 == 255 ==> (n + 1) % 256 == 0 && (n + 1) / 256 == n / 256 + 1
    ensures n % 256 < 255 ==> (n + 1) % 256 == n % 256 + 1 && (n + 1) / 256 == n / 256
  {
  }

  lemma LittleEndianIs(n: nat, k: nat)
    ensures LittleEndian(n, k) == if k == 0 then [] else [ByteOf(n % 256)] + LittleEndian(n / 256, k - 1)
  {
  }

  lemma ByteOfZero()
    ensures ByteOf(0) == 0
  {
  }

  lemma {:induction false} LittleEndianZero(k: nat)
    ensures LittleEndian(0, k) == seq(k, i => 0)
    decreases k
  {
    if k == 0 {
    } else {
      LittleEndianZero(k - 1);
    }
  }

  /** The length and the checksum are stored in the same way: four bytes, lowest first. */
  lemma {:induction false} WordBytesLittleEndian(n: nat)
    ensures WordBytes(WordOf(n)) == LittleEndian(n, 4)
  {
    hide WordBytes, LittleEndian, Increment;
    if n == 0 {
      LittleEndianZero(4);
      assert WordBytes(0) == [0, 0, 0, 0] by { WordBytesZero(); }
    } else {
      WordBytesLittleEndian(n - 1);
      WordBytesIncrement(WordOf(n - 1));
      LittleEndianIncrement(n - 1, 4);
    }
  }

  lemma WordBytesZero()
    ensures WordBytes(0) == [0, 0, 0, 0]
  {
  }

  // ----- Header fields of a raw message

  function MessageType(raw: bytes): byte
    requires |raw| >= HEADER_SIZE
  {
    raw[MESSAGE_TYPE_OFFSET]
  }

  function OriginLen(raw: bytes): nat
    requires |raw| >= HEADER_SIZE
  {
    NatOf(raw[ORIGIN_LEN_OFFSET])
  }

  function StringDataLen(raw: bytes): nat
    requires |raw| >= HEADER_SIZE
  {
    FromLittleEndian(raw[STRINGDATA_LEN_OFFSET..CHECKSUM_OFFSET])
  }

  function Checksum(raw: bytes): Word
    requires |raw| >= HEADER_SIZE
  {
    FromWordBytes(raw[CHECKSUM_OFFSET..DATA_OFFSET])
  }

  function DataLen(raw: bytes): nat
    requires |raw| >= HEADER_SIZE
  {
    U32(OriginLen(raw) + StringDataLen(raw))
  }

  predicate BadHeader(raw: bytes)
    requires |raw| >= HEADER_SIZE
  {
    (MessageType(raw) != TEXT && MessageType(raw) != WRITE_FILE) || StringDataLen(raw) > MAX_DATA_LENGTH
  }

  lemma DistinctKinds()
    ensures TEXT != WRITE_FILE
  {
  }

  // ----- Strings of a raw message

  function Data(raw: bytes): bytes
    requires |raw| >= HEADER_SIZE
  {
    raw[DATA_OFFSET..]
  }

  function Origin(raw: bytes): (o: bytes)
    requires |raw| >= HEADER_SIZE
    ensures NoNul(o)
  {
    CString(Data(raw))
  }

  function String(raw: bytes): (s: bytes)
    requires |raw| >= HEADER_SIZE && DATA_OFFSET + OriginLen(raw) <= |raw|
    ensures NoNul(s)
  {
    CString(raw[DATA_OFFSET + OriginLen(raw)..])
  }

  /** What every accessor relies on to stay inside the buffer: lengths that match it, and a
      NUL inside the string data. */
  predicate Readable(raw: bytes) {
    && |raw| >= HEADER_SIZE
    && |raw| == HEADER_SIZE + OriginLen(raw) + StringDataLen(raw)
    && NUL in raw[DATA_OFFSET + OriginLen(raw)..]
  }

  /** The layout that the encoders write: readable, of a known type, and with a NUL at the
      end of the origin. */
  ghost predicate WellFormed(raw: bytes) {
    && Readable(raw)
    && (MessageType(raw) == TEXT || MessageType(raw) == WRITE_FILE)
    && OriginLen(raw) >= 1 && raw[DATA_OFFSET + OriginLen(raw) - 1] == NUL
  }

  lemma {:induction false} CStringInside(s: bytes)
    requires NUL in s
    ensures |CString(s)| < |s| && s[|CString(s)|] == NUL
  {
    if s[0] == NUL {
    } else {
      CStringInside(s[1..]);
    }
  }

  /** The file part, absent unless the message carries a file. */
  function FileLen(raw: bytes): nat
    requires Readable(raw)
  {
    CStringInside(raw[DATA_OFFSET + OriginLen(raw)..]);
    if MessageType(raw) != WRITE_FILE then 0 else StringDataLen(raw) - |String(raw)| - 1
  }

  function File(raw: bytes): (f: bytes)
    requires Readable(raw)
    ensures |f| == FileLen(raw)
  {
    CStringInside(raw[DATA_OFFSET + OriginLen(raw)..]);
    if MessageType(raw) != WRITE_FILE then [] else raw[DATA_OFFSET + OriginLen(raw) + |String(raw)| + 1..]
  }

  // ----- The frame the encoders write

  /** A raw message of type `kind` with the given origin and string data. */
  function Encode(kind: byte, origin: bytes, stringData: bytes): (raw: bytes)
    ensures |raw| == HEADER_SIZE + |origin| + 1 + |stringData|
  {
    var data := origin + [NUL] + stringData;
    [kind, ByteOf(U8(|origin| + 1))] + LittleEndian(U32(|stringData|), 4) + WordBytes(Crc(CRC_START, data)) + data
  }

  function TextFrame(origin: bytes, text: bytes): bytes {
    Encode(TEXT, origin, text + [NUL])
  }

  function FileFrame(origin: bytes, name: bytes, file: bytes): bytes {
    Encode(WRITE_FILE, origin, name + [NUL] + file)
  }

  lemma EncodeFields(kind: byte, origin: bytes, stringData: bytes)
    ensures var raw := Encode(kind, origin, stringData);
            && MessageType(raw) == kind
            && OriginLen(raw) == U8(|origin| + 1)
            && StringDataLen(raw) == U32(|stringData|)
            && Checksum(raw) == Crc(CRC_START, Data(raw))
            && Data(raw) == origin + [NUL] + stringData
  {
    hide Crc, LittleEndian, FromLittleEndian, WordBytes, FromWordBytes, ByteOf, NatOf;
    var raw := Encode(kind, origin, stringData);
    var data := origin + [NUL] + stringData;
    ByteValue(U8(|origin| + 1));
    assert raw[2..6] == LittleEndian(U32(|stringData|), 4);
    LittleEndianRoundTrip(U32(|stringData|), 4);
    assert raw[6..10] == WordBytes(Crc(CRC_START, data));
    WordBytesRoundTrip(Crc(CRC_START, data));
    assert raw[10..] == data;
  }
}
