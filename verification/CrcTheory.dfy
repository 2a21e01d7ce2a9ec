/** What the checksum detects: algebra of the register, bursts, and the polynomial remainder. */
module CrcTheory {
  import opened Bytes
  import opened CrcTable
  import opened Crc32
  import opened Polynomial

  // ----- Linearity, jointly in register and data

  function XorBytes(a: bytes, b: bytes): (c: bytes)
    requires |a| == |b|
    ensures |c| == |a|
  {
    seq(|a|, i requires 0 <= i < |a| => a[i] ^ b[i])
  }

  lemma HasXor(a: byte, b: byte, m: byte)
    requires m == 0x01 || m == 0x02 || m == 0x04 || m == 0x08 || m == 0x10 || m == 0x20 || m == 0x40 || m == 0x80
    ensures Has(a ^ b, m) == (Has(a, m) != Has(b, m))
  {
  }

  lemma ByteBitsXor(a: byte, b: byte)
    ensures ByteBits(a ^ b) == Xor(ByteBits(a), ByteBits(b))
  {
    hide Has, Xor;
    HasXor(a, b, 0x01); HasXor(a, b, 0x02); HasXor(a, b, 0x04); HasXor(a, b, 0x08);
    HasXor(a, b, 0x10); HasXor(a, b, 0x20); HasXor(a, b, 0x40); HasXor(a, b, 0x80);
    XorEight(ByteBits(a), ByteBits(b));
  }

  lemma EightItems<T>(s: seq<T>)
    requires |s| == 8
    ensures s == [s[0], s[1], s[2], s[3], s[4], s[5], s[6], s[7]]
  {
  }

  lemma XorEight(p: Poly, q: Poly)
    requires |p| == |q| == 8
    ensures Xor(p, q) == [p[0] != q[0], p[1] != q[1], p[2] != q[2], p[3] != q[3],
                          p[4] != q[4], p[5] != q[5], p[6] != q[6], p[7] != q[7]]
  {
    EightItems(Xor(p, q));
  }

  lemma XorConcat(a: Poly, b: Poly, c: Poly, d: Poly)
    requires |a| == |c| && |b| == |d|
    ensures Xor(a + b, c + d) == Xor(a, c) + Xor(b, d)
  {
  }

  lemma {:induction false} BitsXor(a: bytes, b: bytes)
    requires |a| == |b|
    ensures Bits(XorBytes(a, b)) == Xor(Bits(a), Bits(b))
  {
    hide ByteBits, Xor;
    if a == [] {
      assert Xor([], []) == [];
    } else {
      assert XorBytes(a, b)[1..] == XorBytes(a[1..], b[1..]);
      BitsXor(a[1..], b[1..]);
      ByteBitsXor(a[0], b[0]);
      XorConcat(ByteBits(a[0]), Bits(a[1..]), ByteBits(b[0]), Bits(b[1..]));
    }
  }

  lemma BitWordXor(a: bool, b: bool)
    ensures BitWord(a != b) == Add(BitWord(a), BitWord(b))
  {
  }

  lemma AddAssoc(a: Word, b: Word, c: Word)
    ensures Add(Add(a, b), c) == Add(a, Add(b, c))
  {
  }

  lemma AddComm(a: Word, b: Word)
    ensures Add(a, b) == Add(b, a)
  {
  }

  lemma AddSwap(a: Word, b: Word, c: Word, d: Word)
    ensures Add(Add(a, b), Add(c, d)) == Add(Add(a, c), Add(b, d))
  {
    hide Add;
    AddAssoc(a, b, Add(c, d));
    AddAssoc(b, c, d);
    AddComm(b, c);
    AddAssoc(c, b, d);
    AddAssoc(a, c, Add(b, d));
  }

  lemma ClockXor(r: Word, s: Word, a: bool, b: bool)
    ensures Clock(Add(r, s), a != b) == Add(Clock(r, a), Clock(s, b))
  {
    hide Add, Shift, BitWord;
    BitWordXor(a, b);
    AddSwap(r, s, BitWord(a), BitWord(b));
    ShiftAdd(Add(r, BitWord(a)), Add(s, BitWord(b)));
  }

  lemma {:induction false} SerialXor(r: Word, s: Word, a: seq<bool>, b: seq<bool>)
    requires |a| == |b|
    ensures Serial(Add(r, s), Xor(a, b)) == Add(Serial(r, a), Serial(s, b))
    decreases |a|
  {
    hide Clock, Add;
    if a == [] {
    } else {
      assert Xor(a, b)[1..] == Xor(a[1..], b[1..]);
      ClockXor(r, s, a[0], b[0]);
      SerialXor(Clock(r, a[0]), Clock(s, b[0]), a[1..], b[1..]);
    }
  }

  /** The checksum is XOR-linear in register and data together. */
  lemma CrcLinear(r: Word, s: Word, a: bytes, b: bytes)
    requires |a| == |b|
    ensures Crc(r ^ s, XorBytes(a, b)) == Crc(r, a) ^ Crc(s, b)
  {
    assert Crc(Add(r, s), XorBytes(a, b)) == Add(Crc(r, a), Crc(s, b)) by {
      hide Add, Serial, XorBytes;
      BitsXor(a, b);
      SerialXor(r, s, Bits(a), Bits(b));
    }
    hide Crc, XorBytes;
  }

  // ----- The register step can be undone

  function Flip(r: Word): Word {
    r ^ POLYNOMIAL
  }

  /** The register before the clock that led to `r`: bit 31 tells whether the
      polynomial was added, because the polynomial has its own bit 31 set. */
  function Unshift(r: Word): Word {
    if r < 0x80000000 then r << 1 else (Flip(r) << 1) | 1
  }

  lemma UnshiftShift(r: Word)
    ensures Unshift(Shift(r)) == r
  {
  }

  lemma ShiftOdd(x: Word)
    requires x < 0x80000000
    ensures Shift((x << 1) | 1) == Flip(x)
  {
  }

  lemma FlipTop(r: Word)
    requires r >= 0x80000000
    ensures Flip(r) < 0x80000000 && Flip(Flip(r)) == r
  {
  }

  lemma ShiftUnshift(r: Word)
    ensures Shift(Unshift(r)) == r
  {
    hide Shift, Flip;
    if r < 0x80000000 {
      ShiftOfDoubled(r);
    } else {
      FlipTop(r);
      ShiftOdd(Flip(r));
    }
  }

  function Unclock(r: Word, b: bool): Word {
    Add(Unshift(r), BitWord(b))
  }

  lemma AddTwice(r: Word, w: Word)
    ensures Add(Add(r, w), w) == r
  {
  }

  lemma UnclockInverse(r: Word, b: bool)
    ensures Unclock(Clock(r, b), b) == r && Clock(Unclock(r, b), b) == r
  {
    hide Add, Shift, Unshift, BitWord;
    UnshiftShift(Add(r, BitWord(b)));
    AddTwice(r, BitWord(b));
    AddTwice(Unshift(r), BitWord(b));
    ShiftUnshift(r);
  }

  /** Runs the register backwards over `bits`. */
  function Rewind(r: Word, bits: seq<bool>): Word
    decreases |bits|
  {
    if bits == [] then r else Unclock(Rewind(r, bits[1..]), bits[0])
  }

  lemma {:induction false} RewindInverse(r: Word, bits: seq<bool>)
    ensures Rewind(Serial(r, bits), bits) == r && Serial(Rewind(r, bits), bits) == r
    decreases |bits|
  {
    hide Clock, Unclock;
    if bits == [] {
    } else {
      RewindInverse(Clock(r, bits[0]), bits[1..]);
      RewindInverse(r, bits[1..]);
      UnclockInverse(r, bits[0]);
      UnclockInverse(Rewind(r, bits[1..]), bits[0]);
    }
  }

  /** For fixed data the map from the first register to the last one is a bijection. */
  lemma CrcBijective(data: bytes)
    ensures forall r, s :: Crc(r, data) == Crc(s, data) ==> r == s
    ensures forall t :: Crc(Rewind(t, Bits(data)), data) == t
  {
    hide Serial, Rewind, Bits;
    forall r, s | Crc(r, data) == Crc(s, data) ensures r == s {
      RewindInverse(r, Bits(data));
      RewindInverse(s, Bits(data));
    }
    forall t ensures Crc(Rewind(t, Bits(data)), data) == t {
      RewindInverse(t, Bits(data));
    }
  }

  lemma SerialInjectiveInRegister(r: Word, s: Word, bits: seq<bool>)
    requires Serial(r, bits) == Serial(s, bits)
    ensures r == s
  {
    RewindInverse(r, bits);
    RewindInverse(s, bits);
  }

  // ----- Burst errors

  predicate Odd(w: Word) {
    w & 1 == 1
  }

  lemma DoubledUndone(p: Word)
    requires p < 0x80000000
    ensures Halve(p << 1) == p && Halve((p << 1) | 1) == p
    ensures !Odd(p << 1) && Odd((p << 1) | 1)
  {
  }

  lemma PackStepUndone(a: bool, p: Word)
    requires p < 0x80000000
    ensures Halve(PackStep(a, p)) == p && Odd(PackStep(a, p)) == a
  {
    hide Halve, Odd;
    DoubledUndone(p);
  }

  lemma {:induction false} PackInjective(a: seq<bool>, b: seq<bool>)
    requires |a| == |b| <= 32
    requires Pack(a) == Pack(b)
    ensures a == b
  {
    hide PackStep, Halve, Odd;
    if a == [] {
    } else {
      var k := PackBound(a[1..]);
      var l := PackBound(b[1..]);
      PackStepUndone(a[0], Pack(a[1..]));
      PackStepUndone(b[0], Pack(b[1..]));
      PackInjective(a[1..], b[1..]);
      assert a == [a[0]] + a[1..] && b == [b[0]] + b[1..];
    }
  }

  lemma {:induction false} ShiftManyInjective(r: Word, s: Word, n: nat)
    requires ShiftMany(r, n) == ShiftMany(s, n)
    ensures r == s
    decreases n
  {
    hide Shift, Unshift;
    if n == 0 {
    } else {
      ShiftManyInjective(Shift(r), Shift(s), n - 1);
      UnshiftShift(r);
      UnshiftShift(s);
    }
  }

  lemma AddCancel(r: Word, a: Word, b: Word)
    requires Add(r, a) == Add(r, b)
    ensures a == b
  {
  }

  /** From a fixed register, at most 32 bits are absorbed without loss. */
  lemma ShortInjective(r: Word, a: seq<bool>, b: seq<bool>)
    requires |a| == |b| <= 32
    requires Serial(r, a) == Serial(r, b)
    ensures a == b
  {
    hide ShiftMany, Add, Serial, Pack;
    Absorb(r, a);
    Absorb(r, b);
    ShiftManyInjective(Add(r, Pack(a)), Add(r, Pack(b)), |a|);
    AddCancel(r, Pack(a), Pack(b));
    PackInjective(a, b);
  }

  /** Outside the window of `w` bits that starts at bit `s`, the two lists agree. */
  ghost predicate DifferInWindow(a: seq<bool>, b: seq<bool>, s: nat, w: nat) {
    && |a| == |b| && s + w <= |a|
    && a[..s] == b[..s] && a[s + w..] == b[s + w..]
  }

  lemma BurstChangesRegister(r: Word, a: seq<bool>, b: seq<bool>, s: nat, w: nat)
    requires DifferInWindow(a, b, s, w) && w <= 32
    requires Serial(r, a) == Serial(r, b)
    ensures a == b
  {
    var head, tail := a[..s], a[s + w..];
    var ma, mb := a[s..s + w], b[s..s + w];
    assert a == head + (ma + tail) && b == head + (mb + tail);
    hide *;
    SerialConcat(r, head, ma + tail);
    SerialConcat(r, head, mb + tail);
    var r' := Serial(r, head);
    SerialConcat(r', ma, tail);
    SerialConcat(r', mb, tail);
    SerialInjectiveInRegister(Serial(r', ma), Serial(r', mb), tail);
    ShortInjective(r', ma, mb);
  }

  lemma WidenInjective(a: byte, b: byte)
    requires a as Word == b as Word
    ensures a == b
  {
  }

  lemma {:induction false} BitsInjective(a: bytes, b: bytes)
    requires Bits(a) == Bits(b)
    ensures a == b
  {
    hide ByteBits;
    assert |a| == |b|;
    if a == [] {
    } else {
      var x, y := ByteBits(a[0]), ByteBits(b[0]);
      assert x == Bits(a)[..8] && y == Bits(b)[..8];
      assert Bits(a[1..]) == Bits(a)[8..] && Bits(b[1..]) == Bits(b)[8..];
      PackByte(a[0]);
      PackByte(b[0]);
      WidenInjective(a[0], b[0]);
      BitsInjective(a[1..], b[1..]);
      assert a == [a[0]] + a[1..] && b == [b[0]] + b[1..];
    }
  }

  /** Two payloads that differ, with all differences inside a window of at most 32
      consecutive bits, never have the same checksum. */
  lemma BurstDetected(r: Word, a: bytes, b: bytes, s: nat, w: nat)
    requires a != b
    requires DifferInWindow(Bits(a), Bits(b), s, w) && w <= 32
    ensures Crc(r, a) != Crc(r, b)
  {
    hide DifferInWindow, Bits, Serial;
    if Crc(r, a) == Crc(r, b) {
      BurstChangesRegister(r, Bits(a), Bits(b), s, w);
      BitsInjective(a, b);
    }
  }

  /** From a fixed register, at most four bytes are absorbed without loss. */
  lemma FourBytesInjective(r: Word, a: bytes, b: bytes)
    requires |a| == |b| <= 4
    ensures Crc(r, a) == Crc(r, b) <==> a == b
  {
    hide Bits, Serial;
    if Crc(r, a) == Crc(r, b) {
      ShortInjective(r, Bits(a), Bits(b));
      BitsInjective(a, b);
    }
  }

  // ----- Exactly which corruptions go unnoticed

  /** The checksums of two messages differ by the checksum, from an empty register, of the
      difference of the messages. */
  lemma DifferenceCrc(r: Word, a: bytes, b: bytes)
    requires |a| == |b|
    ensures Crc(0, XorBytes(a, b)) == Add(Crc(r, a), Crc(r, b))
  {
    hide Crc, XorBytes;
    CrcLinear(r, r, a, b);
    XorSelf(r);
  }

  /** Two payloads have the same checksum from one register exactly when their
      difference leaves the zero register at zero. */
  lemma SameChecksum(r: Word, a: bytes, b: bytes)
    requires |a| == |b|
    ensures Crc(r, a) == Crc(r, b) <==> Crc(0, XorBytes(a, b)) == 0
  {
    hide *;
    CrcLinear(r, r, a, b);
    XorSelf(r);
    XorEqual(Crc(r, a), Crc(r, b));
  }

  lemma XorSelf(r: Word)
    ensures r ^ r == 0
  {
  }

  lemma XorEqual(x: Word, y: Word)
    ensures x ^ y == 0 <==> x == y
  {
  }

  /** The coefficients of a register: `n` bits, lowest first, so highest power first. */
  function LowBits(w: Word, n: nat): (p: Poly)
    ensures |p| == n
  {
    if n == 0 then [] else [Odd(w)] + LowBits(Halve(w), n - 1)
  }

  function Coefficients(w: Word): (p: Poly)
    ensures |p| == 32
  {
    LowBits(w, 32)
  }

  /** The generator, with its leading power 32. */
  function Generator(): (p: Poly)
    ensures |p| == 33 && p[0]
  {
    [true] + Coefficients(POLYNOMIAL)
  }

  lemma HalveAdd(x: Word, y: Word)
    ensures Halve(Add(x, y)) == Add(Halve(x), Halve(y))
    ensures Odd(Add(x, y)) == (Odd(x) != Odd(y))
  {
    XorLowBit(x, y);
  }

  lemma {:induction false} LowBitsAdd(x: Word, y: Word, n: nat)
    ensures LowBits(Add(x, y), n) == Xor(LowBits(x, n), LowBits(y, n))
    decreases n
  {
    hide Add, Halve, Odd;
    if n == 0 {
    } else {
      HalveAdd(x, y);
      LowBitsAdd(Halve(x), Halve(y), n - 1);
    }
  }

  lemma HalveBound(w: Word, k: Word)
    requires 0 < k <= 32 && Below(w, k)
    ensures Below(Halve(w), k - 1)
    ensures (k - 1) as int == k as int - 1
  {
  }

  lemma ZeroIsEven()
    ensures Halve(0) == 0 && !Odd(0)
  {
  }

  lemma BoundZero(w: Word)
    requires Below(w, 0)
    ensures w == 0
  {
  }

  lemma {:induction false} LowBitsTop(w: Word, n: nat, k: Word)
    requires n == k as int && k <= 32 && Below(w, k)
    ensures LowBits(w, n + 1) == LowBits(w, n) + [false]
    decreases n
  {
    hide Halve, Odd, Below;
    if n > 0 {
      HalveBound(w, k);
      LowBitsTop(Halve(w), n - 1, k - 1);
    } else {
      BoundZero(w);
      ZeroIsEven();
    }
  }

  lemma {:induction false} LowBitsZero(n: nat)
    ensures LowBits(0, n) == Zeros(n)
  {
    if n == 0 {
    } else {
      ZeroIsEven();
      LowBitsZero(n - 1);
    }
  }

  lemma ShiftAsSum(y: Word)
    ensures Shift(y) == Add(Halve(y), if Odd(y) then POLYNOMIAL else 0)
  {
    if Odd(y) {
    } else {
    }
  }

  /** One clock is multiplication by x and, when the power 32 appears, one
      subtraction of the generator. */
  lemma ShiftDivides(y: Word)
    ensures Coefficients(y) + [false] == Xor(Scale(Odd(y), Generator()), [false] + Coefficients(Shift(y)))
  {
    hide Halve, LowBits, Shift, Odd, Add, POLYNOMIAL, Xor, Scale;
    var top := Odd(y);
    var p := if top then POLYNOMIAL else 0;
    LowBitsNext(y);
    ShiftAsSum(y);
    LowBitsAdd(Halve(y), p, 32);
    LowBitsZero(32);
    ScaledGenerator(top, Coefficients(POLYNOMIAL));
    ScaledSum(top, Coefficients(POLYNOMIAL), Coefficients(p), LowBits(Halve(y), 32));
  }

  lemma LowBitsNext(y: Word)
    ensures Coefficients(y) + [false] == [Odd(y)] + LowBits(Halve(y), 32)
  {
    hide Halve, Odd;
    assert Below(y, 32);
    LowBitsTop(y, 32, 32);
  }

  lemma ScaledGenerator(top: bool, g: Poly)
    ensures Scale(top, [true] + g) == [top] + Scale(top, g)
    ensures Scale(top, g) == if top then g else Zeros(|g|)
  {
  }

  /** Subtracting a multiple of the generator twice changes nothing. */
  lemma ScaledSum(top: bool, g: Poly, p: Poly, h: Poly)
    requires |p| == |g| == |h| && p == Scale(top, g)
    ensures [top] + h == Xor([top] + Scale(top, g), [false] + Xor(h, p))
  {
  }

  // ----- The checksum is a polynomial remainder

  /** The message times x^32, plus the first register times x^|m|. */
  function Dividend(r: Word, m: Poly): (d: Poly)
    ensures |d| == |m| + 32
  {
    Xor(Coefficients(r) + Zeros(|m|), m + Zeros(32))
  }

  function Quotient(r: Word, m: Poly): (q: Poly)
    ensures |q| == |m|
    decreases |m|
  {
    if m == [] then []
    else
      var n := |m| - 1;
      Quotient(r, m[..n]) + [Odd(Add(Serial(r, m[..n]), BitWord(m[n])))]
  }

  /** Bringing down one more message bit. */
  lemma DividendStep(r: Word, m: Poly, b: bool)
    ensures Dividend(r, m + [b]) == Xor(Dividend(r, m) + [false], Zeros(|m|) + ([b] + Zeros(32)))
  {
    hide Coefficients;
    var n := |m|;
    var d, e := Dividend(r, m + [b]), Xor(Dividend(r, m) + [false], Zeros(n) + ([b] + Zeros(32)));
    forall i | 0 <= i < n + 33 ensures d[i] == e[i] {
      if i < n {
        assert (m + [b] + Zeros(32))[i] == m[i];
      }
    }
  }

  lemma AddedBit(s: Word, b: bool)
    ensures Coefficients(Add(s, BitWord(b))) == Xor(Coefficients(s), [b] + Zeros(31))
  {
    LowBitsAdd(s, BitWord(b), 32);
    if b {
      assert Odd(1) && Halve(1) == 0;
    } else {
      assert !Odd(0) && Halve(0) == 0;
    }
    LowBitsZero(31);
  }

  /** The long-division step on coefficient lists: `rest` is the running remainder,
      `g` the multiple of the generator taken off, `rest'` the next remainder. */
  lemma DivisionStep(product: Poly, rest: Poly, b: bool, g: Poly, rest': Poly, n: nat)
    requires |product| == n + 32 && |rest| == |rest'| == 32 && |g| == 33
    requires Xor(rest, [b] + Zeros(31)) + [false] == Xor(g, [false] + rest')
    ensures Xor(Xor(product, Zeros(n) + rest) + [false], Zeros(n) + ([b] + Zeros(32)))
         == Xor(Xor(product + [false], Zeros(n) + g), Zeros(n + 1) + rest')
  {
    var d := Xor(Xor(product, Zeros(n) + rest) + [false], Zeros(n) + ([b] + Zeros(32)));
    var e := Xor(Xor(product + [false], Zeros(n) + g), Zeros(n + 1) + rest');
    var h := Xor(g, [false] + rest');
    forall i | 0 <= i < n + 33 ensures d[i] == e[i] {
      if i < n {
        assert d[i] == product[i] == e[i];
      } else {
        var j := i - n;
        assert h[j] == (Xor(rest, [b] + Zeros(31)) + [false])[j];
      }
    }
  }

  /** The register after `m` is the remainder, and `Quotient` the quotient, of the
      dividend by the generator. */
  lemma {:induction false} Divides(r: Word, m: Poly)
    ensures Dividend(r, m) == Xor(Mul(Quotient(r, m), Generator()), Zeros(|m|) + Coefficients(Serial(r, m)))
    decreases |m|
  {
    if m == [] {
      DividesEmpty(r);
    } else {
      var n := |m| - 1;
      var m0, b := m[..n], m[n];
      assert m == m0 + [b];
      var s := Serial(r, m0);
      var y := Add(s, BitWord(b));
      var q0 := Quotient(r, m0);
      SerialLast(r, m0, b);
      assert Quotient(r, m) == q0 + [Odd(y)];
      assert Mul(q0 + [Odd(y)], Generator()) ==
             Xor(Mul(q0, Generator()) + [false], Zeros(n) + Scale(Odd(y), Generator())) by {
        assert (q0 + [Odd(y)])[..n] == q0;
      }
      hide *;
      Divides(r, m0);
      DividendStep(r, m0, b);
      AddedBit(s, b);
      ShiftDivides(y);
      DivisionStep(Mul(q0, Generator()), Coefficients(s), b, Scale(Odd(y), Generator()), Coefficients(Shift(y)), n);
    }
  }

  lemma DividesEmpty(r: Word)
    ensures Dividend(r, []) == Xor(Mul([], Generator()), Zeros(0) + Coefficients(Serial(r, [])))
  {
    hide Coefficients;
  }

  lemma SerialLast(r: Word, m: seq<bool>, b: bool)
    ensures Serial(r, m + [b]) == Shift(Add(Serial(r, m), BitWord(b)))
  {
    hide Shift, Add, BitWord;
    SerialConcat(r, m, [b]);
    assert Serial(Serial(r, m), [b]) == Clock(Serial(r, m), b);
  }

  lemma {:induction false} LowBitsInjective(w: Word, v: Word, n: nat, k: Word)
    requires n == k as int && k <= 32 && Below(w, k) && Below(v, k)
    requires LowBits(w, n) == LowBits(v, n)
    ensures w == v
    decreases n
  {
    hide Halve, Odd, Below;
    if n > 0 {
      HalveBound(w, k);
      HalveBound(v, k);
      assert LowBits(Halve(w), n - 1) == LowBits(w, n)[1..] && LowBits(Halve(v), n - 1) == LowBits(v, n)[1..];
      LowBitsInjective(Halve(w), Halve(v), n - 1, k - 1);
      assert Odd(w) == LowBits(w, n)[0] && Odd(v) == LowBits(v, n)[0];
      HalvesDecide(w, v);
    } else {
      BoundZero(w);
      BoundZero(v);
    }
  }

  lemma HalvesDecide(w: Word, v: Word)
    requires Halve(w) == Halve(v) && Odd(w) == Odd(v)
    ensures w == v
  {
  }

  /** `t` is the remainder of the dividend by the generator, for some quotient. */
  ghost predicate IsRemainder(r: Word, m: Poly, t: Word) {
    exists q: Poly | |q| == |m| :: Dividend(r, m) == Xor(Mul(q, Generator()), Zeros(|m|) + Coefficients(t))
  }

  /** The checksum of a buffer is the remainder, over GF(2), of its bits times x^32
      plus the first register shifted up, and nothing else is. */
  lemma CrcIsRemainder(r: Word, data: bytes, t: Word)
    ensures t == Crc(r, data) <==> IsRemainder(r, Bits(data), t)
  {
    var m := Bits(data);
    Divides(r, m);
    assert Crc(r, data) == Serial(r, m);
    hide Bits, Serial, Mul, Coefficients, Generator, Dividend, Quotient, Xor;
    if IsRemainder(r, m, t) {
      var q: Poly :| |q| == |m| && Dividend(r, m) == Xor(Mul(q, Generator()), Zeros(|m|) + Coefficients(t));
      DivisionUnique(q, Coefficients(t), Quotient(r, m), Coefficients(Serial(r, m)), Generator());
      CoefficientsInjective(t, Serial(r, m));
    }
  }

  lemma CoefficientsInjective(w: Word, v: Word)
    requires Coefficients(w) == Coefficients(v)
    ensures w == v
  {
    assert Below(w, 32) && Below(v, 32);
    LowBitsInjective(w, v, 32, 32);
  }

  /** A corruption goes unnoticed exactly when the difference of the payloads, times
      x^32, is a multiple of the generator. */
  lemma UndetectedIffMultiple(r: Word, a: bytes, b: bytes)
    requires |a| == |b|
    ensures Crc(r, a) == Crc(r, b) <==>
            exists q: Poly | |q| == 8 * |a| :: Xor(Bits(a), Bits(b)) + Zeros(32) == Mul(q, Generator())
  {
    hide Bits, Mul, Generator, XorBytes, Crc, Xor, Dividend, LowBits, Zeros;
    var d := Xor(Bits(a), Bits(b));
    SameChecksum(r, a, b);
    BitsXor(a, b);
    CrcIsRemainder(0, XorBytes(a, b), 0);
    LowBitsZero(32);
    ZeroDividend(d);
    forall q: Poly | |q| == |d|
      ensures Xor(Mul(q, Generator()), Zeros(|d|) + Zeros(32)) == Mul(q, Generator())
    {
      XorZeros(Mul(q, Generator()), |d|, 32);
    }
  }

  lemma XorZeros(p: Poly, m: nat, n: nat)
    requires |p| == m + n
    ensures Xor(p, Zeros(m) + Zeros(n)) == p
  {
  }

  lemma ZeroDividend(d: Poly)
    requires Coefficients(0) == Zeros(32)
    ensures Dividend(0, d) == d + Zeros(32)
  {
    hide Coefficients;
    var e := Dividend(0, d);
    forall i | 0 <= i < |e| ensures e[i] == (d + Zeros(32))[i] {
      assert !(Zeros(32) + Zeros(|d|))[i];
    }
  }

  // ----- The window of 32 bits is the best possible

  /** The 33 coefficients of the generator, laid over five bytes. */
  const GENERATOR_BYTES: bytes := [0x41, 0x06, 0x71, 0xDB, 0x01]

  lemma GeneratorEntries()
    ensures |CRC32_TABLE| == 256 && CRC32_TABLE[0] == 0 && CRC32_TABLE[0x41] == 0x01db7106
  {
    assert CRC32_TABLE[0x41] == Row(4)[1] && CRC32_TABLE[0] == Row(0)[0];
  }

  lemma GeneratorUpdates()
    ensures Index(0, 0x41) == 0x41 && Update(0, 0x01db7106) == 0x01db7106
    ensures Index(0x01db7106, 0x06) == 0 && Update(0x01db7106, 0) == 0x01db71
    ensures Index(0x01db71, 0x71) == 0 && Update(0x01db71, 0) == 0x01db
    ensures Index(0x01db, 0xDB) == 0 && Update(0x01db, 0) == 0x01
    ensures Index(0x01, 0x01) == 0 && Update(0x01, 0) == 0
  {
  }

  lemma ByteAfter(data: bytes, n: nat, c: Word)
    requires n < |data| && Crc(0, data[..n]) == c
    ensures |CRC32_TABLE| == 256
    ensures Crc(0, data[..n + 1]) == Update(c, CRC32_TABLE[Index(c, data[n]) as int])
  {
    hide *;
    CrcAppend(0, data, n);
    TableStep(c, data[n]);
  }

  lemma GeneratorIs()
    ensures var g := GENERATOR_BYTES;
            && |g| == 5 && g[..5] == g
            && g[0] == 0x41 && g[1] == 0x06 && g[2] == 0x71 && g[3] == 0xDB && g[4] == 0x01
  {
  }

  lemma GeneratorBytesVanish()
    ensures Crc(0, GENERATOR_BYTES) == 0
  {
    hide *;
    var g := GENERATOR_BYTES;
    GeneratorIs();
    CrcEmpty(0, g);
    GeneratorEntries();
    GeneratorUpdates();
    ByteAfter(g, 0, 0);
    ByteAfter(g, 1, 0x01db7106);
    ByteAfter(g, 2, 0x01db71);
    ByteAfter(g, 3, 0x01db);
    ByteAfter(g, 4, 0x01);
  }

  lemma GeneratorBits(i: nat)
    requires 33 <= i < 40
    ensures !Bits(GENERATOR_BYTES)[i]
  {
    hide ByteBits, Has;
    var g := GENERATOR_BYTES;
    assert g == g[..4] + [0x01];
    BitsConcat(g[..4], [0x01]);
    assert Bits([0x01]) == ByteBits(0x01) + [] == ByteBits(0x01);
    assert forall j | 1 <= j < 8 :: !ByteBits(0x01)[j] by { LastByte(); }
  }

  lemma LastByte()
    ensures forall j | 1 <= j < 8 :: !ByteBits(0x01)[j]
  {
  }

  lemma FirstByteChanges(a: bytes, g: bytes)
    requires |a| == |g| > 0 && g[0] == 0x41
    ensures XorBytes(a, g) != a
  {
    assert XorBytes(a, g)[0] == a[0] ^ 0x41;
    assert a[0] ^ 0x41 != a[0];
  }

  lemma SameTail(a: Poly, g: Poly, w: nat)
    requires |a| == |g| && w <= |a| && forall i | w <= i < |g| :: !g[i]
    ensures DifferInWindow(a, Xor(a, g), 0, w)
  {
    assert a[w..] == Xor(a, g)[w..];
  }

  lemma GeneratorOverFive(five: bytes)
    requires |five| == 5
    ensures var x := XorBytes(five, GENERATOR_BYTES);
            x != five && DifferInWindow(Bits(five), Bits(x), 0, 33)
  {
    FirstByteChanges(five, GENERATOR_BYTES);
    BitsXor(five, GENERATOR_BYTES);
    forall i | 33 <= i < 40 ensures !Bits(GENERATOR_BYTES)[i] {
      GeneratorBits(i);
    }
    hide *;
    SameTail(Bits(five), Bits(GENERATOR_BYTES), 33);
  }

  /** Windows of 33 bits are too wide: adding the generator to any five bytes, with
      anything before and after them, changes the payload and not the checksum. */
  lemma WindowOf33Undetected(r: Word, pre: bytes, five: bytes, post: bytes)
    requires |five| == 5
    ensures var a, b := pre + five + post, pre + XorBytes(five, GENERATOR_BYTES) + post;
            a != b && Crc(r, a) == Crc(r, b) && DifferInWindow(Bits(a), Bits(b), 8 * |pre|, 33)
  {
    var x := XorBytes(five, GENERATOR_BYTES);
    var a, b := pre + five + post, pre + x + post;
    GeneratorOverFive(five);
    assert a[|pre|..|pre| + 5] == five && b[|pre|..|pre| + 5] == x;
    assert Crc(r, a) == Crc(r, b) by {
      hide Crc, XorBytes;
      var r' := Crc(r, pre);
      CrcConcat(r, pre + five, post);
      CrcConcat(r, pre + x, post);
      CrcConcat(r, pre, five);
      CrcConcat(r, pre, x);
      CrcLinear(r', 0, five, GENERATOR_BYTES);
      GeneratorBytesVanish();
      XorZero(r');
      XorZero(Crc(r', five));
    }
    assert DifferInWindow(Bits(a), Bits(b), 8 * |pre|, 33) by {
      BitsConcat(pre + five, post);
      BitsConcat(pre + x, post);
      BitsConcat(pre, five);
      BitsConcat(pre, x);
      hide Bits;
      WindowInContext(Bits(pre), Bits(five), Bits(x), Bits(post), 33);
    }
  }

  lemma XorZero(r: Word)
    ensures r ^ 0 == r
  {
  }

  lemma WindowInContext(pre: seq<bool>, a: seq<bool>, b: seq<bool>, post: seq<bool>, w: nat)
    requires DifferInWindow(a, b, 0, w)
    ensures DifferInWindow(pre + a + post, pre + b + post, |pre|, w)
  {
    var n := |pre|;
    var c, d := pre + a + post, pre + b + post;
    assert c[n + w..] == a[w..] + post && d[n + w..] == b[w..] + post;
    assert c[..n] == pre == d[..n];
  }
}
