/** The CRC-32 loops of the source, and the bit-at-a-time checksum they compute. */
module Crc32 {
  import opened Bytes
  import opened CrcTable

  // ----- Specification: one input bit per clock, least significant bit of each byte first

  function BitWord(b: bool): Word {
    if b then 1 else 0
  }

  function Clock(r: Word, b: bool): Word {
    Shift(Add(r, BitWord(b)))
  }

  function Serial(r: Word, bits: seq<bool>): Word
    decreases |bits|
  {
    if bits == [] then r else Serial(Clock(r, bits[0]), bits[1..])
  }

  predicate Has(b: byte, mask: byte) {
    b & mask == mask
  }

  function ByteBits(b: byte): (bits: seq<bool>)
    ensures |bits| == 8
  {
    [Has(b, 0x01), Has(b, 0x02), Has(b, 0x04), Has(b, 0x08), Has(b, 0x10), Has(b, 0x20), Has(b, 0x40), Has(b, 0x80)]
  }

  function Bits(data: bytes): (bits: seq<bool>)
    ensures |bits| == 8 * |data|
  {
    if data == [] then [] else ByteBits(data[0]) + Bits(data[1..])
  }

  /** The register after clocking in `data`, starting from `r`. */
  function Crc(r: Word, data: bytes): Word {
    Serial(r, Bits(data))
  }

  // ----- Chaining

  lemma {:induction false} SerialConcat(r: Word, a: seq<bool>, b: seq<bool>)
    ensures Serial(r, a + b) == Serial(Serial(r, a), b)
    decreases |a|
  {
    hide Clock;
    if a == [] {
      assert a + b == b;
    } else {
      assert (a + b)[1..] == a[1..] + b;
      SerialConcat(Clock(r, a[0]), a[1..], b);
    }
  }

  lemma {:induction false} BitsConcat(a: bytes, b: bytes)
    ensures Bits(a + b) == Bits(a) + Bits(b)
  {
    hide ByteBits;
    if a == [] {
      assert a + b == b;
    } else {
      assert (a + b)[1..] == a[1..] + b;
      BitsConcat(a[1..], b);
    }
  }

  /** Checksumming a concatenation is chaining the register over its parts. */
  lemma CrcConcat(r: Word, a: bytes, b: bytes)
    ensures Crc(r, a + b) == Crc(Crc(r, a), b)
  {
    BitsConcat(a, b);
    SerialConcat(r, Bits(a), Bits(b));
  }

  // ----- Absorbing up to 32 bits at once

  function PackStep(b: bool, p: Word): Word {
    if b then (p << 1) | 1 else p << 1
  }

  /** The first bit at position 0, the next at position 1, and so on. */
  function Pack(bits: seq<bool>): Word {
    if bits == [] then 0 else PackStep(bits[0], Pack(bits[1..]))
  }

  /** No bit at position `k` or above. */
  predicate Below(w: Word, k: Word)
    requires k <= 32
  {
    w >> k == 0
  }

  lemma PackStepBound(b: bool, p: Word, k: Word)
    requires k < 32 && Below(p, k)
    ensures Below(PackStep(b, p), k + 1)
    ensures (k + 1) as int == k as int + 1
  {
  }

  lemma {:induction false} PackBound(bits: seq<bool>) returns (k: Word)
    requires |bits| <= 31
    ensures k as int == |bits| && k <= 32 && Below(Pack(bits), k)
    ensures Pack(bits) < 0x80000000
  {
    if bits == [] {
      k := 0;
    } else {
      var k' := PackBound(bits[1..]);
      PackStepBound(bits[0], Pack(bits[1..]), k');
      k := k' + 1;
    }
  }

  lemma OrAsSum(r: Word, p: Word)
    ensures Add(r, (p << 1) | 1) == Add(Add(r, 1), p << 1)
  {
  }

  lemma AddNothing(r: Word, p: Word)
    ensures Add(r, p << 1) == Add(Add(r, 0), p << 1)
  {
  }

  lemma PackStepAsSum(r: Word, b: bool, p: Word)
    ensures Add(r, PackStep(b, p)) == Add(Add(r, BitWord(b)), p << 1)
  {
    hide Add;
    OrAsSum(r, p);
    AddNothing(r, p);
  }

  lemma ShiftOfDoubled(p: Word)
    requires p < 0x80000000
    ensures Shift(p << 1) == p
  {
  }

  lemma AbsorbOne(r: Word, b: bool, p: Word)
    requires p < 0x80000000
    ensures Shift(Add(r, PackStep(b, p))) == Add(Clock(r, b), p)
  {
    hide Shift, Add, PackStep, BitWord;
    PackStepAsSum(r, b, p);
    ShiftAdd(Add(r, BitWord(b)), p << 1);
    ShiftOfDoubled(p);
  }

  lemma AddZero(r: Word)
    ensures Add(r, 0) == r
  {
  }

  /** Clocking in at most 32 bits is adding them to the register first and clocking zeros. */
  lemma {:induction false} Absorb(r: Word, bits: seq<bool>)
    requires |bits| <= 32
    ensures Serial(r, bits) == ShiftMany(Add(r, Pack(bits)), |bits|)
    decreases |bits|
  {
    hide Shift, Add, Clock, PackStep;
    if bits == [] {
      AddZero(r);
    } else {
      var k := PackBound(bits[1..]);
      AbsorbOne(r, bits[0], Pack(bits[1..]));
      Absorb(Clock(r, bits[0]), bits[1..]);
    }
  }

  // ----- The table-driven step

  lemma NestedByte(b: byte)
    ensures var s := ByteBits(b);
            PackStep(s[0], PackStep(s[1], PackStep(s[2], PackStep(s[3],
              PackStep(s[4], PackStep(s[5], PackStep(s[6], PackStep(s[7], 0)))))))) == b as Word
  {
  }

  lemma PackByte(b: byte)
    ensures Pack(ByteBits(b)) == b as Word
  {
    hide PackStep, ByteBits;
    var s := ByteBits(b);
    assert s[7..][1..] == [];
    assert s[6..][1..] == s[7..] && s[5..][1..] == s[6..];
    assert s[4..][1..] == s[5..] && s[3..][1..] == s[4..];
    assert s[2..][1..] == s[3..] && s[1..][1..] == s[2..];
    assert Pack(s[7..]) == PackStep(s[7], 0);
    assert Pack(s[6..]) == PackStep(s[6], Pack(s[7..]));
    assert Pack(s[5..]) == PackStep(s[5], Pack(s[6..]));
    assert Pack(s[4..]) == PackStep(s[4], Pack(s[5..]));
    assert Pack(s[3..]) == PackStep(s[3], Pack(s[4..]));
    assert Pack(s[2..]) == PackStep(s[2], Pack(s[3..]));
    assert Pack(s[1..]) == PackStep(s[1], Pack(s[2..]));
    NestedByte(b);
  }

  function Halve(y: Word): Word {
    y >> 1
  }

  predicate Even(y: Word) {
    y & 1 == 0
  }

  function High(x: Word): Word {
    x & 0xFFFFFF00
  }

  function Low(x: Word): (l: Word)
    ensures l < 256
  {
    x & 0xFF
  }

  function Down8(x: Word): Word {
    (x >> 8) & 0x00FFFFFF
  }

  lemma ShiftEven(y: Word)
    requires Even(y)
    ensures Shift(y) == Halve(y)
  {
  }

  lemma HighHalves(x: Word)
    ensures var y := High(x);
            && Even(y) && Even(Halve(y)) && Even(Halve(Halve(y))) && Even(Halve(Halve(Halve(y))))
            && Even(Halve(Halve(Halve(Halve(y))))) && Even(Halve(Halve(Halve(Halve(Halve(y))))))
            && Even(Halve(Halve(Halve(Halve(Halve(Halve(y)))))))
            && Even(Halve(Halve(Halve(Halve(Halve(Halve(Halve(y))))))))
            && Halve(Halve(Halve(Halve(Halve(Halve(Halve(Halve(y)))))))) == Down8(x)
  {
  }

  /** A register whose low byte is zero only moves when clocked eight times. */
  lemma Shift8High(x: Word)
    ensures Shift8(High(x)) == Down8(x)
  {
    hide Shift, High, Even, Halve, Down8;
    HighHalves(x);
    var y1 := Halve(High(x));
    var y2 := Halve(y1);
    var y3 := Halve(y2);
    var y4 := Halve(y3);
    var y5 := Halve(y4);
    var y6 := Halve(y5);
    ShiftEven(High(x)); ShiftEven(y1); ShiftEven(y2); ShiftEven(y3);
    ShiftEven(y4); ShiftEven(y5); ShiftEven(y6); ShiftEven(Halve(y6));
  }

  lemma Split(x: Word)
    ensures x == Add(High(x), Low(x))
  {
  }

  lemma Shift8Split(x: Word)
    ensures |CRC32_TABLE| == 256
    ensures Shift8(x) == Add(Down8(x), CRC32_TABLE[Low(x) as int])
  {
    hide Shift8, CRC32_TABLE, Add, High, Low, Down8;
    Split(x);
    Shift8Add(High(x), Low(x));
    TableEntry(Low(x));
    Shift8High(x);
  }

  /** The table index of the source's update. */
  function Index(r: Word, b: byte): (i: Word)
    ensures i < 256
  {
    (r ^ b as Word) & 0xFF
  }

  /** The source's update of the register, given the table entry. */
  function Update(r: Word, entry: Word): Word {
    ((r >> 8) & 0x00FFFFFF) ^ entry
  }

  /** What the byte adds to the register never reaches the moved part. */
  lemma UpdateParts(r: Word, b: byte, entry: Word)
    ensures Index(r, b) == Low(Add(r, b as Word))
    ensures Update(r, entry) == Add(Down8(Add(r, b as Word)), entry)
  {
    assert Down8(Add(r, b as Word)) == (r >> 8) & 0x00FFFFFF;
  }

  /** The source's update of the register by one byte does the work of eight clocks. */
  lemma TableStep(r: Word, b: byte)
    ensures |CRC32_TABLE| == 256
    ensures Update(r, CRC32_TABLE[Index(r, b) as int]) == Serial(r, ByteBits(b))
  {
    hide *;
    var x := Add(r, b as Word);
    Absorb(r, ByteBits(b));
    PackByte(b);
    Shift8IsMany(x);
    Shift8Split(x);
    UpdateParts(r, b, CRC32_TABLE[Low(x) as int]);
  }

  // ----- The loops

  /** The buffer overload: it starts at all ones unless told otherwise and leaves
      the register as it is, without a final complement. */
  method GetCrc32(buffer: bytes, size: nat, crc32: Word := 0xFFFFFFFF) returns (r: Word)
    requires size <= |buffer|
    ensures r == Crc(crc32, buffer[..size])
  {
    hide *;
    CrcEmpty(crc32, buffer);
    r := crc32;
    var cur, left := 0, size;
    while left != 0
      invariant cur + left == size
      invariant r == Crc(crc32, buffer[..cur])
    {
      CrcAppend(crc32, buffer, cur);
      TableStep(r, buffer[cur]);
      r := Update(r, CRC32_TABLE[Index(r, buffer[cur]) as int]);
      cur, left := cur + 1, left - 1;
    }
  }

  lemma CrcEmpty(r: Word, data: bytes)
    ensures Crc(r, data[..0]) == r
  {
  }

  lemma CrcAppend(r: Word, data: bytes, n: nat)
    requires n < |data|
    ensures Crc(r, data[..n + 1]) == Serial(Crc(r, data[..n]), ByteBits(data[n]))
  {
    hide Serial;
    assert data[..n + 1] == data[..n] + [data[n]];
    CrcConcat(r, data[..n], [data[n]]);
    assert Bits([data[n]]) == ByteBits(data[n]) + [] == ByteBits(data[n]);
  }
}
