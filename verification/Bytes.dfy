/** Byte strings, as held by the source's `std::string` and `std::vector<std::uint8_t>`. */
module Bytes {

  type byte = bv8
  type bytes = seq<byte>

  const NUL: byte := 0
  const COLON: byte := 0x3A

  // ----- Bytes and numbers

  function NatOf(b: byte): (n: nat)
    ensures n < 256
  {
    b as nat
  }

  lemma Successor(b: byte)
    requires NatOf(b) < 255
    ensures NatOf(b + 1) == NatOf(b) + 1
  {
  }

  /** The byte of value `n`, counted up from zero. */
  function ByteOf(n: nat): (b: byte)
    requires n < 256
  {
    if n == 0 then 0 else ByteOf(n - 1) + 1
  }

  lemma {:induction false} ByteValue(n: nat)
    requires n < 256
    ensures NatOf(ByteOf(n)) == n
  {
    if n == 0 {
    } else {
      ByteValue(n - 1);
      Successor(ByteOf(n - 1));
    }
  }

  function Power256(k: nat): (p: nat)
    ensures p >= 1
  {
    if k == 0 then 1 else 256 * Power256(k - 1)
  }

  /** The native integer writes of the source, on a little-endian host. */
  function LittleEndian(n: nat, k: nat): (s: bytes)
    ensures |s| == k
  {
    if k == 0 then [] else [ByteOf(n % 256)] + LittleEndian(n / 256, k - 1)
  }

  function FromLittleEndian(s: bytes): nat {
    if s == [] then 0 else NatOf(s[0]) + 256 * FromLittleEndian(s[1..])
  }

  lemma {:induction false} LittleEndianRoundTrip(n: nat, k: nat)
    requires n < Power256(k)
    ensures FromLittleEndian(LittleEndian(n, k)) == n
    decreases k
  {
    hide NatOf, ByteOf;
    if k == 0 {
    } else {
      ByteValue(n % 256);
      LittleEndianRoundTrip(n / 256, k - 1);
    }
  }

  // ----- NUL-terminated strings

  predicate NoNul(s: bytes) {
    NUL !in s
  }

  /** What a `char*` to the start of `s` denotes: everything before the first NUL. */
  function CString(s: bytes): (c: bytes)
    ensures |c| <= |s| && NoNul(c)
  {
    if s == [] || s[0] == NUL then [] else [s[0]] + CString(s[1..])
  }

  lemma {:induction false} CStringTerminated(s: bytes, rest: bytes)
    requires NoNul(s)
    ensures CString(s + [NUL] + rest) == s
  {
    if s == [] {
    } else {
      assert (s + [NUL] + rest)[1..] == s[1..] + [NUL] + rest;
      CStringTerminated(s[1..], rest);
    }
  }

  // ----- Buffers

  /** `std::vector::resize`: cut, or filled up with zero bytes. */
  function Resize(s: bytes, n: nat): (r: bytes)
    ensures |r| == n
  {
    if n <= |s| then s[..n] else s + seq(n - |s|, i => NUL)
  }

  /** Overwrites the bytes from position `at` on. */
  function Write(s: bytes, at: nat, data: bytes): (r: bytes)
    requires at + |data| <= |s|
    ensures |r| == |s|
  {
    s[..at] + data + s[at + |data|..]
  }

  lemma ResizeBytes(s: bytes, n: nat)
    ensures forall i | 0 <= i < n :: Resize(s, n)[i] == if i < |s| then s[i] else 0x00
  {
  }

  lemma WriteBytes(s: bytes, at: nat, data: bytes)
    requires at + |data| <= |s|
    ensures forall i | 0 <= i < |s| :: Write(s, at, data)[i] == if at <= i < at + |data| then data[i - at] else s[i]
  {
  }

  /** The bytes are the characters of the text. */
  ghost predicate Spells(s: bytes, text: string) {
    |s| == |text| && forall i | 0 <= i < |s| :: NatOf(s[i]) == text[i] as nat
  }

  lemma SpellsOne(s: bytes, t: bytes, text: string)
    requires Spells(s, text) && Spells(t, text)
    ensures s == t
  {
    forall i | 0 <= i < |s| ensures s[i] == t[i] {
      SameNumber(s[i], t[i]);
    }
  }

  lemma SameNumber(a: byte, b: byte)
    requires NatOf(a) == NatOf(b)
    ensures a == b
  {
  }

  function Concat(parts: seq<bytes>): bytes {
    if parts == [] then [] else parts[0] + Concat(parts[1..])
  }

  lemma {:induction false} ConcatAppend(a: seq<bytes>, b: seq<bytes>)
    ensures Concat(a + b) == Concat(a) + Concat(b)
  {
    if a == [] {
      assert a + b == b;
    } else {
      assert (a + b)[1..] == a[1..] + b;
      ConcatAppend(a[1..], b);
    }
  }

  // ----- Decimal numbers, as written by `std::to_string`

  function Digit(d: nat): byte
    requires d < 10
  {
    ByteOf(0x30 + d)
  }

  function Decimal(n: nat): (s: bytes)
    ensures |s| >= 1
  {
    if n < 10 then [Digit(n)] else Decimal(n / 10) + [Digit(n % 10)]
  }

  function FromDecimal(s: bytes): int {
    if s == [] then 0 else 10 * FromDecimal(s[..|s| - 1]) + NatOf(s[|s| - 1]) - 0x30
  }

  lemma {:induction false} DecimalRoundTrip(n: nat)
    ensures FromDecimal(Decimal(n)) == n
  {
    hide ByteOf, NatOf;
    ByteValue(0x30 + n % 10);
    var s := Decimal(n);
    if n < 10 {
      assert s[..0] == [];
    } else {
      DecimalRoundTrip(n / 10);
      assert s[..|s| - 1] == Decimal(n / 10);
    }
  }

  lemma {:induction false} DecimalDigits(n: nat)
    ensures forall b | b in Decimal(n) :: 0x30 <= NatOf(b) <= 0x39
  {
    hide ByteOf, NatOf;
    ByteValue(0x30 + n % 10);
    if n < 10 {
    } else {
      DecimalDigits(n / 10);
    }
  }

  /** No digit to spare: one below ten, and no leading zero from ten on. */
  lemma {:induction false} DecimalCanonical(n: nat)
    ensures n < 10 ==> |Decimal(n)| == 1
    ensures n > 0 ==> NatOf(Decimal(n)[0]) != 0x30
    ensures n >= 10 ==> |Decimal(n)| == |Decimal(n / 10)| + 1
  {
    hide ByteOf, NatOf;
    ByteValue(0x30 + n % 10);
    if n < 10 {
    } else {
      DecimalCanonical(n / 10);
    }
  }

  lemma DecimalShort(n: nat)
    requires n < 0x10000
    ensures |Decimal(n)| <= 5
  {
    hide Decimal;
    DecimalCanonical(n);
    DecimalCanonical(n / 10);
    DecimalCanonical(n / 100);
    DecimalCanonical(n / 1000);
    DecimalCanonical(n / 10000);
    assert n / 10 / 10 == n / 100 && n / 100 / 10 == n / 1000 && n / 1000 / 10 == n / 10000;
  }

  lemma DecimalPlain(n: nat)
    ensures COLON !in Decimal(n) && NoNul(Decimal(n))
  {
    DecimalDigits(n);
    hide Decimal;
    assert NatOf(COLON) == 0x3A && NatOf(NUL) == 0;
  }
}
