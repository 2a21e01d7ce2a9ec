/** Two flipped bits: they go unnoticed exactly when their distance is a multiple of the
    period 2^32 - 1 of the generator, the order of x modulo it. */
module CrcPeriod {
  import opened Bytes
  import opened Numbers
  import opened CrcTable
  import opened Crc32
  import opened Polynomial
  import opened CrcTheory

  /** The register that stands for the polynomial 1. */
  const ONE: Word := 0x80000000

  const PERIOD: nat := 0xFFFF_FFFF

  /** The n-th power of x, modulo the generator. */
  function Pow(n: nat): Word {
    ShiftMany(ONE, n)
  }

  // ----- Products modulo the generator

  /** `v` if the coefficient of the power 0 in `u` is set. */
  function Pick(u: Word, v: Word): Word {
    (0 - (u >> 31)) & v
  }

  function Twice(u: Word): Word {
    u << 1
  }

  /** The first `k` coefficients of `u` times `v`. */
  function Combine(u: Word, v: Word, k: nat): Word
    decreases k
  {
    if k == 0 then 0 else Add(Pick(u, v), Combine(Twice(u), Shift(v), k - 1))
  }

  lemma {:induction false} ShiftManySum(r: Word, m: nat, n: nat)
    ensures ShiftMany(r, m + n) == ShiftMany(ShiftMany(r, m), n)
    decreases m
  {
    hide Shift;
    if m == 0 {
    } else {
      ShiftManySum(Shift(r), m - 1, n);
    }
  }

  lemma {:induction false} ShiftManyZero(n: nat)
    ensures ShiftMany(0, n) == 0
    decreases n
  {
    if n == 0 {
    } else {
      ShiftZero();
      hide Shift;
      ShiftManyZero(n - 1);
    }
  }

  lemma ShiftZero()
    ensures Shift(0) == 0
  {
  }

  lemma PickShift(u: Word, v: Word, n: nat)
    ensures ShiftMany(Pick(u, v), n) == Pick(u, ShiftMany(v, n))
  {
    PickIs(u, v);
    PickIs(u, ShiftMany(v, n));
    hide Pick;
    ShiftManyZero(n);
  }

  predicate Lead(u: Word) {
    u >> 31 == 1
  }

  lemma PickIs(u: Word, v: Word)
    ensures Pick(u, v) == if Lead(u) then v else 0
  {
    assert u >> 31 == 0 || u >> 31 == 1;
  }

  /** Clocking a product clocks its second factor. */
  lemma {:induction false} CombineShift(u: Word, v: Word, k: nat, n: nat)
    ensures ShiftMany(Combine(u, v, k), n) == Combine(u, ShiftMany(v, n), k)
    decreases k
  {
    hide Shift, Pick, Add, ShiftMany, Twice;
    if k == 0 {
      ShiftManyZero(n);
    } else {
      ShiftManyAdd(Pick(u, v), Combine(Twice(u), Shift(v), k - 1), n);
      PickShift(u, v, n);
      CombineShift(Twice(u), Shift(v), k - 1, n);
      ShiftCommutes(v, n);
    }
  }

  lemma ShiftCommutes(v: Word, n: nat)
    ensures ShiftMany(Shift(v), n) == Shift(ShiftMany(v, n))
  {
    hide Shift;
    ShiftManySum(v, 1, n);
    ShiftManySum(v, n, 1);
    assert ShiftMany(v, 1) == Shift(v);
    assert ShiftMany(ShiftMany(v, n), 1) == Shift(ShiftMany(v, n));
  }

  // ----- Products of given words

  /** `Shift`, without a branch. */
  function Next(v: Word): Word {
    (v >> 1) ^ ((0 - (v & 1)) & POLYNOMIAL)
  }

  lemma NextIsShift(v: Word)
    ensures Next(v) == Shift(v)
  {
    assert v & 1 == 0 || v & 1 == 1;
    if v & 1 == 1 {
    } else {
    }
  }

  lemma NoneLeft(u: Word, v: Word)
    ensures Combine(u, v, 0) == 0
  {
  }

  /** The sum over eight coefficients of `u`, added to `r`. */
  function Eight(u: Word, v: Word, r: Word): Word {
    var u1, v1 := Twice(u), Next(v);
    var u2, v2 := Twice(u1), Next(v1);
    var u3, v3 := Twice(u2), Next(v2);
    var u4, v4 := Twice(u3), Next(v3);
    var u5, v5 := Twice(u4), Next(v4);
    var u6, v6 := Twice(u5), Next(v5);
    var u7, v7 := Twice(u6), Next(v6);
    Add(Pick(u, v), Add(Pick(u1, v1), Add(Pick(u2, v2), Add(Pick(u3, v3),
    Add(Pick(u4, v4), Add(Pick(u5, v5), Add(Pick(u6, v6), Add(Pick(u7, v7), r))))))))
  }

  function Twice8(u: Word): Word {
    Twice(Twice(Twice(Twice(Twice(Twice(Twice(Twice(u))))))))
  }

  function Next8(v: Word): Word {
    Next(Next(Next(Next(Next(Next(Next(Next(v))))))))
  }

  function Times(u: Word, v: Word): Word {
    var u1, v1 := Twice8(u), Next8(v);
    var u2, v2 := Twice8(u1), Next8(v1);
    var u3, v3 := Twice8(u2), Next8(v2);
    Eight(u, v, Eight(u1, v1, Eight(u2, v2, Eight(u3, v3, 0))))
  }

  lemma CombineNext(u: Word, v: Word, k: nat)
    requires k > 0
    ensures Combine(u, v, k) == Add(Pick(u, v), Combine(Twice(u), Next(v), k - 1))
  {
    hide Pick, Add, Twice, Next, Shift;
    NextIsShift(v);
  }

  lemma CombineFour(u: Word, v: Word, k: nat)
    requires k >= 4
    ensures var u1, v1 := Twice(u), Next(v);
            var u2, v2 := Twice(u1), Next(v1);
            var u3, v3 := Twice(u2), Next(v2);
            Combine(u, v, k) == Add(Pick(u, v), Add(Pick(u1, v1), Add(Pick(u2, v2), Add(Pick(u3, v3),
                                Combine(Twice(u3), Next(v3), k - 4)))))
  {
    hide *;
    var u1, v1 := Twice(u), Next(v);
    var u2, v2 := Twice(u1), Next(v1);
    CombineNext(u, v, k);
    CombineNext(u1, v1, k - 1);
    CombineNext(u2, v2, k - 2);
    CombineNext(Twice(u2), Next(v2), k - 3);
  }

  lemma CombineEight(u: Word, v: Word, k: nat)
    requires k >= 8
    ensures Combine(u, v, k) == Eight(u, v, Combine(Twice8(u), Next8(v), k - 8))
  {
    hide Combine, Pick, Add, Twice, Next;
    CombineFour(u, v, k);
    CombineFour(Twice(Twice(Twice(Twice(u)))), Next(Next(Next(Next(v)))), k - 4);
  }

  lemma TimesIs(u: Word, v: Word)
    ensures Times(u, v) == Combine(u, v, 32)
  {
    hide Combine, Eight, Twice8, Next8;
    var u1, v1 := Twice8(u), Next8(v);
    var u2, v2 := Twice8(u1), Next8(v1);
    CombineEight(u, v, 32);
    CombineEight(u1, v1, 24);
    CombineEight(u2, v2, 16);
    CombineEight(Twice8(u2), Next8(v2), 8);
    NoneLeft(Twice8(Twice8(u2)), Next8(Next8(v2)));
  }

  // ----- Powers

  function Right(u: Word, j: Word): Word
    requires j <= 32
  {
    u >> j
  }

  predicate Sums(u: Word, j: Word)
    requires j < 32
  {
    Add(Pick(u, Right(ONE, j)), Right(Twice(u), j + 1)) == Right(u, j)
  }

  lemma Sums0(u: Word, j: Word)
    requires j < 8
    ensures Sums(u, j)
  {
    assert j == 0 || j == 1 || j == 2 || j == 3 || j == 4 || j == 5 || j == 6 || j == 7;
  }

  lemma Sums8(u: Word, j: Word)
    requires 8 <= j < 16
    ensures Sums(u, j)
  {
    assert j == 8 || j == 9 || j == 10 || j == 11 || j == 12 || j == 13 || j == 14 || j == 15;
  }

  lemma Sums16(u: Word, j: Word)
    requires 16 <= j < 24
    ensures Sums(u, j)
  {
    assert j == 16 || j == 17 || j == 18 || j == 19 || j == 20 || j == 21 || j == 22 || j == 23;
  }

  lemma Sums24(u: Word, j: Word)
    requires 24 <= j < 32
    ensures Sums(u, j)
  {
    assert j == 24 || j == 25 || j == 26 || j == 27 || j == 28 || j == 29 || j == 30 || j == 31;
  }

  lemma TopBit(u: Word, j: Word)
    requires j < 32
    ensures Add(Pick(u, Right(ONE, j)), Right(Twice(u), j + 1)) == Right(u, j)
  {
    hide Add, Pick, Right, Twice;
    assert Sums(u, j) by {
      hide Sums;
      if j < 8 {
        Sums0(u, j);
      } else if j < 16 {
        Sums8(u, j);
      } else if j < 24 {
        Sums16(u, j);
      } else {
        Sums24(u, j);
      }
    }
  }

  lemma NextRight(j: Word)
    requires j < 31
    ensures Shift(Right(ONE, j)) == Right(ONE, j + 1)
  {
    hide Shift;
    NextIsShift(Right(ONE, j));
  }

  lemma StepRight(j: Word)
    requires j as int < 32
    ensures j < 32 && (j + 1) as int == j as int + 1
  {
  }

  lemma BelowLast(j: Word)
    requires j as int < 31
    ensures j < 31
  {
  }

  lemma AllGone(u: Word, j: Word)
    requires j as int == 32
    ensures j <= 32 && Right(u, j) == 0
  {
  }

  /** The bits of `u` from the power `j` on, moved down. */
  lemma {:induction false} CombineTop(u: Word, k: nat, j: Word)
    requires j as int + k == 32
    ensures j <= 32 && Combine(u, Right(ONE, j), k) == Right(u, j)
    decreases k
  {
    hide *;
    if k == 0 {
      AllGone(u, j);
      NoneLeft(u, Right(ONE, j));
    } else {
      StepRight(j);
      TopBit(u, j);
      CombineTop(Twice(u), k - 1, j + 1);
      CombineStep(u, Right(ONE, j), k);
      if k == 1 {
        NoneLeft(Twice(u), Shift(Right(ONE, j)));
        NoneLeft(Twice(u), Right(ONE, j + 1));
      } else {
        BelowLast(j);
        NextRight(j);
      }
    }
  }

  lemma CombineStep(u: Word, v: Word, k: nat)
    requires k > 0
    ensures Combine(u, v, k) == Add(Pick(u, v), Combine(Twice(u), Shift(v), k - 1))
  {
  }

  lemma TimesOne(u: Word)
    ensures Combine(u, ONE, 32) == u
  {
    hide Combine;
    CombineTop(u, 32, 0);
    assert Right(ONE, 0) == ONE && Right(u, 0) == u;
  }

  lemma PowSum(m: nat, n: nat)
    ensures Pow(m + n) == ShiftMany(Pow(m), n)
    ensures Pow(m + n) == Combine(Pow(m), Pow(n), 32)
  {
    hide Combine, ShiftMany;
    ShiftManySum(ONE, m, n);
    TimesOne(Pow(m));
    CombineShift(Pow(m), ONE, 32, n);
  }

  lemma Product(m: nat, n: nat, u: Word, v: Word, w: Word)
    requires Pow(m) == u && Pow(n) == v && Times(u, v) == w
    ensures Pow(m + n) == w
  {
    hide *;
    PowSum(m, n);
    TimesIs(u, v);
  }
  /** The powers 15 and 16 of x. */
  lemma Powers15()
    requires Pow(1) == 0x40000000
    ensures Pow(15) == 0x00010000
    ensures Pow(16) == 0x00008000
  {
    hide Pow;
    Product(1, 1, 0x40000000, 0x40000000, 0x20000000);
    Product(2, 1, 0x20000000, 0x40000000, 0x10000000);
    Product(3, 3, 0x10000000, 0x10000000, 0x02000000);
    Product(6, 6, 0x02000000, 0x02000000, 0x00080000);
    Product(12, 3, 0x00080000, 0x10000000, 0x00010000);
    Product(15, 1, 0x00010000, 0x40000000, 0x00008000);
  }

  /** The power 2^8 - 1. */
  lemma Powers255()
    requires Pow(15) == 0x00010000
    ensures Pow(255) == 0x01b5fd1d
  {
    hide Pow;
    Product(15, 15, 0x00010000, 0x00010000, 0x00000002);
    Product(30, 30, 0x00000002, 0x00000002, 0xc5b428ef);
    Product(60, 60, 0xc5b428ef, 0xc5b428ef, 0x60c76fe0);
    Product(120, 120, 0x60c76fe0, 0x60c76fe0, 0x9e36506b);
    Product(240, 15, 0x9e36506b, 0x00010000, 0x01b5fd1d);
  }

  /** The power 2^8 - 1, shifted by four. */
  lemma Powers4080()
    requires Pow(255) == 0x01b5fd1d
    ensures Pow(4080) == 0xf4e5307f
  {
    hide Pow;
    Product(255, 255, 0x01b5fd1d, 0x01b5fd1d, 0x4ed61b5f);
    Product(510, 510, 0x4ed61b5f, 0x4ed61b5f, 0x16d5d82a);
    Product(1020, 1020, 0x16d5d82a, 0x16d5d82a, 0x278d37c1);
    Product(2040, 2040, 0x278d37c1, 0x278d37c1, 0xf4e5307f);
  }

  /** The power 2^16 - 1. */
  lemma Powers65535()
    requires Pow(255) == 0x01b5fd1d && Pow(4080) == 0xf4e5307f
    ensures Pow(65535) == 0xdc7b5c5f
  {
    hide Pow;
    Product(4080, 4080, 0xf4e5307f, 0xf4e5307f, 0x5df97b6b);
    Product(8160, 8160, 0x5df97b6b, 0x5df97b6b, 0x8ccf5292);
    Product(16320, 16320, 0x8ccf5292, 0x8ccf5292, 0xba1c8c47);
    Product(32640, 32640, 0xba1c8c47, 0xba1c8c47, 0x3ef534d3);
    Product(65280, 255, 0x3ef534d3, 0x01b5fd1d, 0xdc7b5c5f);
  }

  /** The power 2^8. */
  lemma Powers256()
    requires Pow(16) == 0x00008000
    ensures Pow(256) == 0xed627dae
  {
    hide Pow;
    Product(16, 16, 0x00008000, 0x00008000, 0xedb88320);
    Product(32, 32, 0xedb88320, 0xedb88320, 0xb1e6b092);
    Product(64, 64, 0xb1e6b092, 0xb1e6b092, 0xa06a2517);
    Product(128, 128, 0xa06a2517, 0xa06a2517, 0xed627dae);
  }

  /** The power 2^12. */
  lemma Powers4096()
    requires Pow(256) == 0xed627dae
    ensures Pow(4096) == 0x8e7ea170
  {
    hide Pow;
    Product(256, 256, 0xed627dae, 0xed627dae, 0x88d14467);
    Product(512, 512, 0x88d14467, 0x88d14467, 0xd7bbfe6a);
    Product(1024, 1024, 0xd7bbfe6a, 0xd7bbfe6a, 0xec447f11);
    Product(2048, 2048, 0xec447f11, 0xec447f11, 0x8e7ea170);
  }

  /** The power 2^16 + 1. */
  lemma Powers65537()
    requires Pow(1) == 0x40000000 && Pow(4096) == 0x8e7ea170
    ensures Pow(65537) == 0xac7a15a7
  {
    hide Pow;
    Product(4096, 4096, 0x8e7ea170, 0x8e7ea170, 0x6427800e);
    Product(8192, 8192, 0x6427800e, 0x6427800e, 0x4d47bae0);
    Product(16384, 16384, 0x4d47bae0, 0x4d47bae0, 0x09fe548f);
    Product(32768, 32768, 0x09fe548f, 0x09fe548f, 0x83852d0f);
    Product(65536, 1, 0x83852d0f, 0x40000000, 0xac7a15a7);
  }

  /** Three and 15 times 2^16 + 1. */
  lemma PowersY()
    requires Pow(65537) == 0xac7a15a7
    ensures Pow(983055) == 0x28545337
  {
    hide Pow;
    Product(65537, 65537, 0xac7a15a7, 0xac7a15a7, 0xe1b508e6);
    Product(131074, 65537, 0xe1b508e6, 0xac7a15a7, 0xc8986d7d);
    Product(196611, 196611, 0xc8986d7d, 0xc8986d7d, 0xdbbce6a9);
    Product(393222, 393222, 0xdbbce6a9, 0xdbbce6a9, 0x8fac3b58);
    Product(786444, 196611, 0x8fac3b58, 0xc8986d7d, 0x28545337);
  }

  /** All of the period but the factor 257. */
  lemma PowersOver257()
    requires Pow(983055) == 0x28545337
    ensures Pow(16711935) == 0x351c22c9
  {
    hide Pow;
    Product(983055, 983055, 0x28545337, 0x28545337, 0xe51741c2);
    Product(1966110, 1966110, 0xe51741c2, 0xe51741c2, 0xbdb635ef);
    Product(3932220, 3932220, 0xbdb635ef, 0xbdb635ef, 0x3878d0af);
    Product(7864440, 7864440, 0x3878d0af, 0x3878d0af, 0xffa85b1d);
    Product(15728880, 983055, 0xffa85b1d, 0x28545337, 0x351c22c9);
  }

  /** Sixteen times 2^16 + 1. */
  lemma PowersY16()
    requires Pow(65537) == 0xac7a15a7
    ensures Pow(1048592) == 0x816532e8
  {
    hide Pow;
    Product(65537, 65537, 0xac7a15a7, 0xac7a15a7, 0xe1b508e6);
    Product(131074, 131074, 0xe1b508e6, 0xe1b508e6, 0x216c9960);
    Product(262148, 262148, 0x216c9960, 0x216c9960, 0x345f273d);
    Product(524296, 524296, 0x345f273d, 0x345f273d, 0x816532e8);
  }

  /** 257 times 2^16 + 1. */
  lemma PowersZ()
    requires Pow(65537) == 0xac7a15a7 && Pow(1048592) == 0x816532e8
    ensures Pow(16843009) == 0x316b5ba1
  {
    hide Pow;
    Product(1048592, 1048592, 0x816532e8, 0x816532e8, 0x923cf1d7);
    Product(2097184, 2097184, 0x923cf1d7, 0x923cf1d7, 0x934ee480);
    Product(4194368, 4194368, 0x934ee480, 0x934ee480, 0x2eb63450);
    Product(8388736, 8388736, 0x2eb63450, 0x2eb63450, 0x4630d51a);
    Product(16777472, 65537, 0x4630d51a, 0xac7a15a7, 0x316b5ba1);
  }

  /** All of the period but the factor 17. */
  lemma PowersOver17()
    requires Pow(16843009) == 0x316b5ba1
    ensures Pow(252645135) == 0x8c283ca0
  {
    hide Pow;
    Product(16843009, 16843009, 0x316b5ba1, 0x316b5ba1, 0x5b219b1c);
    Product(33686018, 16843009, 0x5b219b1c, 0x316b5ba1, 0x8b030439);
    Product(50529027, 50529027, 0x8b030439, 0x8b030439, 0x5fc9dfce);
    Product(101058054, 101058054, 0x5fc9dfce, 0x5fc9dfce, 0x1f3d5aaf);
    Product(202116108, 50529027, 0x1f3d5aaf, 0x8b030439, 0x8c283ca0);
  }

  /** 17 times 257 times 2^16 + 1. */
  lemma PowersV()
    requires Pow(16843009) == 0x316b5ba1
    ensures Pow(286331153) == 0x3d436701
  {
    hide Pow;
    Product(16843009, 16843009, 0x316b5ba1, 0x316b5ba1, 0x5b219b1c);
    Product(33686018, 33686018, 0x5b219b1c, 0x5b219b1c, 0xaebf57a4);
    Product(67372036, 67372036, 0xaebf57a4, 0xaebf57a4, 0x7db7e260);
    Product(134744072, 134744072, 0x7db7e260, 0x7db7e260, 0x0c283ca0);
    Product(269488144, 16843009, 0x0c283ca0, 0x316b5ba1, 0x3d436701);
  }

  /** All of the period but the factors 5 and 3, and the period itself. */
  lemma PowersOver3()
    requires Pow(286331153) == 0x3d436701
    ensures Pow(858993459) == 0x84011278
    ensures Pow(1431655765) == 0xc736eb52
    ensures Pow(4294967295) == 0x80000000
  {
    hide Pow;
    Product(286331153, 286331153, 0x3d436701, 0x3d436701, 0xfa758c53);
    Product(572662306, 286331153, 0xfa758c53, 0x3d436701, 0x84011278);
    Product(572662306, 572662306, 0xfa758c53, 0xfa758c53, 0xbd436701);
    Product(1145324612, 286331153, 0xbd436701, 0x3d436701, 0xc736eb52);
    Product(1431655765, 1431655765, 0xc736eb52, 0xc736eb52, 0x4736eb52);
    Product(2863311530, 1431655765, 0x4736eb52, 0xc736eb52, 0x80000000);
  }

  /** The period is a period, and no part of it with one prime factor less is. */
  lemma PeriodWords()
    ensures Pow(PERIOD) == ONE
    ensures Pow(1431655765) != ONE && Pow(858993459) != ONE && Pow(252645135) != ONE
    ensures Pow(16711935) != ONE && Pow(65535) != ONE
  {
    assert Pow(1) == 0x40000000 by { PowOne(); }
    hide Pow;
    Powers15();
    Powers255();
    Powers4080();
    Powers65535();
    Powers256();
    Powers4096();
    Powers65537();
    PowersY();
    PowersOver257();
    PowersY16();
    PowersZ();
    PowersOver17();
    PowersV();
    PowersOver3();
  }

  lemma PowOne()
    ensures Pow(1) == 0x40000000
  {
    assert ShiftMany(ONE, 1) == Shift(ONE);
  }

  // ----- The order of x

  lemma PowAfter(m: nat, n: nat)
    requires Pow(m) == ONE
    ensures Pow(m + n) == Pow(n)
  {
    hide ShiftMany;
    ShiftManySum(ONE, m, n);
  }

  lemma {:induction false} PowMultiple(m: nat, q: nat)
    requires Pow(m) == ONE
    ensures Pow(m * q) == ONE
    decreases q
  {
    hide Pow;
    if q == 0 {
      assert Pow(0) == ONE by { PowNone(); }
    } else {
      PowMultiple(m, q - 1);
      PowAfter(m, m * (q - 1));
      assert m + m * (q - 1) == m * q;
    }
  }

  lemma PowNone()
    ensures Pow(0) == ONE
  {
  }

  /** Euclid's algorithm: what both powers share is a power that gives 1. */
  lemma {:induction false} Common(a: nat, b: nat) returns (g: nat, x: nat, y: nat)
    requires a > 0 && Pow(a) == ONE && Pow(b) == ONE
    ensures g > 0 && Pow(g) == ONE && a == g * x && b == g * y
    decreases b
  {
    hide Pow;
    if b == 0 {
      g, x, y := a, 1, 0;
    } else {
      var q, r := a / b, a % b;
      PowMultiple(b, q);
      PowAfter(b * q, r);
      assert b * q + r == a;
      var x', y';
      g, x', y' := Common(b, r);
      x, y := x' * q + y', x';
      Regroup(g, x', y', q);
    }
  }

  lemma Regroup(g: nat, x: nat, y: nat, q: nat)
    ensures (g * x) * q + g * y == g * (x * q + y)
  {
  }

  /** A proper divisor of the period leaves out one of its five prime factors. */
  lemma MissingFactor(g: nat, k: nat)
    requires g * k == PERIOD && k != 1
    ensures k % 3 == 0 || k % 5 == 0 || k % 17 == 0 || k % 257 == 0 || k % 65537 == 0
  {
    PrimeFactors();
    hide Prime;
    if !(k % 3 == 0 || k % 5 == 0 || k % 17 == 0 || k % 257 == 0 || k % 65537 == 0) {
      var a := Strip(3, g, k, 1431655765);
      var b := Strip(5, a, k, 286331153);
      var c := Strip(17, b, k, 16843009);
      var d := Strip(257, c, k, 65537);
      var e := Strip(65537, d, k, 1);
      ProductOne(e, k);
    }
  }

  lemma ProductOne(e: nat, k: nat)
    requires e * k == 1
    ensures k == 1
  {
    if k >= 2 {
      MulMono(k, 1, e);
    }
  }

  /** If `p` divides the cofactor of `g`, then what is left of the period without `p` is a
      multiple of `g`. */
  lemma PartIsPeriod(g: nat, k: nat, p: nat, part: nat)
    requires Pow(g) == ONE && g * k == p * part && p > 0 && k % p == 0
    ensures Pow(part) == ONE
  {
    hide Pow;
    var q := k / p;
    assert k == p * q;
    assert p * (g * q) == p * part;
    Cancel(p, g * q, part);
    PowMultiple(g, q);
  }

  /** The powers of x that give 1 are the multiples of the period. */
  lemma PeriodExact(d: nat)
    ensures Pow(d) == ONE <==> d % PERIOD == 0
  {
    PeriodWords();
    hide Pow;
    if d % PERIOD == 0 {
      PowMultiple(PERIOD, d / PERIOD);
      assert d == PERIOD * (d / PERIOD);
    }
    if Pow(d) == ONE {
      var g, k, y := Common(PERIOD, d);
      if k == 1 {
        MultipleMod(PERIOD, y);
      } else {
        MissingFactor(g, k);
        if k % 3 == 0 {
          PartIsPeriod(g, k, 3, 1431655765);
        } else if k % 5 == 0 {
          PartIsPeriod(g, k, 5, 858993459);
        } else if k % 17 == 0 {
          PartIsPeriod(g, k, 17, 252645135);
        } else if k % 257 == 0 {
          PartIsPeriod(g, k, 257, 16711935);
        } else {
          PartIsPeriod(g, k, 65537, 65535);
        }
      }
    }
  }

  // ----- Leading zeros

  /** The register of all ones has an inverse, so only whole periods of clocks bring it back. */
  lemma OnesReturn(n: nat)
    ensures ShiftMany(0xFFFFFFFF, n) == 0xFFFFFFFF <==> n % PERIOD == 0
  {
    OnesInverse();
    hide ShiftMany, Combine, PERIOD;
    TimesOne(0xe57248ce);
    CombineShift(0xe57248ce, 0xFFFFFFFF, 32, n);
    PeriodExact(n);
    CombineShift(0xFFFFFFFF, ONE, 32, n);
    TimesOne(0xFFFFFFFF);
    assert Pow(n) == ShiftMany(ONE, n);
  }

  lemma OnesInverse()
    ensures Combine(0xe57248ce, 0xFFFFFFFF, 32) == ONE
  {
    TimesIs(0xe57248ce, 0xFFFFFFFF);
    OnesProduct();
    hide *;
  }

  lemma OnesProduct()
    ensures Times(0xe57248ce, 0xFFFFFFFF) == ONE
  {
  }

  lemma {:induction false} ZeroBytes(n: nat)
    ensures Bits(seq(n, i => 0)) == Zeros(8 * n)
    decreases n
  {
    var zeros: bytes := seq(n, i => 0);
    if n == 0 {
    } else {
      assert zeros[1..] == seq(n - 1, i => 0);
      ZeroBytes(n - 1);
      ZeroByte();
      hide ByteBits;
      assert Zeros(8) + Zeros(8 * (n - 1)) == Zeros(8 * n);
    }
  }

  lemma ZeroByte()
    ensures ByteBits(0) == Zeros(8)
  {
  }

  /** From the register of all ones, zero bytes in front of a message change the checksum,
      unless their number is a multiple of 2^32 - 1. */
  lemma LeadingZeros(n: nat, data: bytes)
    ensures Crc(0xFFFFFFFF, seq(n, i => 0) + data) == Crc(0xFFFFFFFF, data) <==> n % 4294967295 == 0
  {
    hide ShiftMany, Serial;
    var zeros: bytes := seq(n, i => 0);
    CrcConcat(0xFFFFFFFF, zeros, data);
    ZeroBytes(n);
    SerialZeros(0xFFFFFFFF, 8 * n);
    OnesReturn(8 * n);
    EightIsUnit(n);
    hide Bits;
    if Crc(Crc(0xFFFFFFFF, zeros), data) == Crc(0xFFFFFFFF, data) {
      SerialInjectiveInRegister(Crc(0xFFFFFFFF, zeros), 0xFFFFFFFF, Bits(data));
    }
  }

  lemma EightIsUnit(n: nat)
    ensures (8 * n) % PERIOD == 0 <==> n % PERIOD == 0
  {
    var q, r := n / PERIOD, n % PERIOD;
    assert 8 * n == 8 * PERIOD * q + 8 * r;
    var t, u := (8 * r) / PERIOD, (8 * r) % PERIOD;
    assert 8 * n == PERIOD * (8 * q + t) + u;
    QuotientUnique(8 * n, PERIOD, 8 * q + t, u);
  }

  /** The check value that catalogues of checksums give for "123456789", before and after
      the final complement. */
  lemma CheckValue()
    ensures Crc(0xFFFFFFFF, [0x31, 0x32, 0x33, 0x34, 0x35, 0x36, 0x37, 0x38, 0x39]) == 0x340BC6D9
    ensures Crc(0xFFFFFFFF, [0x31, 0x32, 0x33, 0x34, 0x35, 0x36, 0x37, 0x38, 0x39]) ^ 0xFFFFFFFF == 0xCBF43926
  {
    hide Crc;
    var s: bytes := [0x31, 0x32, 0x33, 0x34, 0x35, 0x36, 0x37, 0x38, 0x39];
    assert s[..9] == s;
    CrcEmpty(0xFFFFFFFF, s);
    CheckStep(s, 0, 0x31, 0xffffffff, 0x7c231048);
    CheckStep(s, 1, 0x32, 0x7c231048, 0xb0acbb32);
    CheckStep(s, 2, 0x33, 0xb0acbb32, 0x77b79c2d);
    CheckStep(s, 3, 0x34, 0x77b79c2d, 0x641c1f5c);
    CheckStep(s, 4, 0x35, 0x641c1f5c, 0x340ac5e3);
    CheckStep(s, 5, 0x36, 0x340ac5e3, 0xf68d2c9e);
    CheckStep(s, 6, 0x37, 0xf68d2c9e, 0xaffc9660);
    CheckStep(s, 7, 0x38, 0xaffc9660, 0x651f2550);
    CheckStep(s, 8, 0x39, 0x651f2550, 0x340bc6d9);
  }

  lemma CheckStep(s: bytes, n: nat, b: byte, r: Word, t: Word)
    requires n < |s| && s[n] == b && Crc(0xFFFFFFFF, s[..n]) == r
    requires Next8(r ^ (b as Word)) == t
    ensures Crc(0xFFFFFFFF, s[..n + 1]) == t
  {
    hide Crc, Next8;
    CrcAppend(0xFFFFFFFF, s, n);
    OneByte(r, b);
  }

  lemma OneByte(r: Word, b: byte)
    ensures Serial(r, ByteBits(b)) == Next8(r ^ (b as Word))
  {
    hide Serial, ByteBits, Next8, Shift8, ShiftMany;
    var x := r ^ (b as Word);
    Absorb(r, ByteBits(b));
    PackByte(b);
    Shift8IsMany(x);
    Next8IsShift8(x);
  }

  lemma Next8IsShift8(v: Word)
    ensures Next8(v) == Shift8(v)
  {
    hide Next, Shift;
    var v1 := Next(v);
    var v2 := Next(v1);
    var v3 := Next(v2);
    var v4 := Next(v3);
    var v5 := Next(v4);
    var v6 := Next(v5);
    NextIsShift(v);
    NextIsShift(v1);
    NextIsShift(v2);
    NextIsShift(v3);
    NextIsShift(v4);
    NextIsShift(v5);
    NextIsShift(v6);
    NextIsShift(Next(v6));
  }

  // ----- Two flipped bits

  /** The two differ in the bits `s` and `s + d`, and in no other. */
  ghost predicate DifferAtTwo(a: seq<bool>, b: seq<bool>, s: nat, d: nat) {
    && |a| == |b| && d >= 1 && s + d < |a|
    && forall i | 0 <= i < |a| :: a[i] != b[i] <==> i == s || i == s + d
  }

  lemma {:induction false} SerialZeros(r: Word, n: nat)
    ensures Serial(r, Zeros(n)) == ShiftMany(r, n)
    decreases n
  {
    hide Shift;
    if n == 0 {
    } else {
      assert Zeros(n)[1..] == Zeros(n - 1);
      assert Clock(r, false) == Shift(r) by { ClockZero(r); }
      SerialZeros(Shift(r), n - 1);
    }
  }

  lemma ClockZero(r: Word)
    ensures Clock(r, false) == Shift(r)
  {
    hide Shift;
    assert Add(r, 0) == r;
  }

  lemma ClockOne(r: Word)
    ensures Clock(r, true) == Add(Shift(r), Shift(1))
  {
    hide Shift;
    ShiftAdd(r, 1);
  }

  lemma SerialOne(r: Word)
    ensures Serial(r, [true]) == Add(Shift(r), Shift(1))
  {
    hide Shift, Add;
    ClockOne(r);
    assert [true][1..] == [];
  }

  lemma UnitIsPower()
    ensures Pow(31) == 1
  {
    hide Pow;
    assert Pow(1) == 0x40000000 by { PowOne(); }
    Powers15();
    Product(15, 16, 0x00010000, 0x00008000, 1);
  }

  /** The register after the difference of two messages with two flipped bits. */
  lemma SerialTwo(s: nat, d: nat, rest: nat)
    requires d >= 1
    ensures Serial(0, Zeros(s) + ([true] + (Zeros(d - 1) + ([true] + Zeros(rest))))) ==
            ShiftMany(Add(Pow(32 + d), Pow(32)), rest)
  {
    hide *;
    var tail := [true] + Zeros(rest);
    var middle := Zeros(d - 1) + tail;
    SerialConcat(0, Zeros(s), [true] + middle);
    SerialZeros(0, s);
    ShiftManyZero(s);
    SerialConcat(0, [true], middle);
    SerialOne(0);
    ShiftZero();
    PowNext();
    NothingAdded(Pow(32));
    SerialConcat(Pow(32), Zeros(d - 1), tail);
    SerialZeros(Pow(32), d - 1);
    PowSum(32, d - 1);
    SerialConcat(Pow(31 + d), [true], Zeros(rest));
    SerialOne(Pow(31 + d));
    PowStep(31 + d);
    SerialZeros(Add(Pow(32 + d), Pow(32)), rest);
  }

  lemma NothingAdded(w: Word)
    ensures Add(0, w) == w
  {
  }

  lemma PowStep(n: nat)
    ensures Shift(Pow(n)) == Pow(n + 1)
  {
    hide Shift, ShiftMany;
    ShiftManySum(ONE, n, 1);
    ShiftOnce(ShiftMany(ONE, n));
  }

  lemma ShiftOnce(r: Word)
    ensures ShiftMany(r, 1) == Shift(r)
  {
    hide Shift;
  }

  lemma PowNext()
    ensures Shift(1) == Pow(32)
  {
    hide Shift, Pow;
    UnitIsPower();
    PowStep(31);
  }

  lemma SumVanishes(a: Word, b: Word, n: nat)
    ensures ShiftMany(Add(a, b), n) == 0 <==> a == b
  {
    hide ShiftMany;
    ShiftManyZero(n);
    if ShiftMany(Add(a, b), n) == 0 {
      ShiftManyInjective(Add(a, b), 0, n);
    }
    XorEqual(a, b);
  }

  lemma TwoBits(a: seq<bool>, b: seq<bool>, s: nat, d: nat)
    requires DifferAtTwo(a, b, s, d)
    ensures Xor(a, b) == Zeros(s) + ([true] + (Zeros(d - 1) + ([true] + Zeros(|a| - s - d - 1))))
  {
    var x, y := Xor(a, b), Zeros(s) + ([true] + (Zeros(d - 1) + ([true] + Zeros(|a| - s - d - 1))));
    forall i | 0 <= i < |a| ensures x[i] == y[i] {
    }
  }

  /** Two flipped bits go unnoticed exactly when their distance is a multiple of 2^32 - 1. */
  lemma TwoBitsUnnoticed(r: Word, a: bytes, b: bytes, s: nat, d: nat)
    requires |a| == |b| && d >= 1 && s + d < 8 * |a|
    requires forall i | 0 <= i < 8 * |a| :: Bits(a)[i] != Bits(b)[i] <==> i == s || i == s + d
    ensures Crc(r, a) == Crc(r, b) <==> d % 4294967295 == 0
  {
    hide *;
    AtTwo(Bits(a), Bits(b), s, d);
    CrcOfDifference(r, a, b);
    LastBit(Bits(a), Bits(b), s, d);
    var rest := |Bits(a)| - s - d - 1;
    TwoBits(Bits(a), Bits(b), s, d);
    SerialTwo(s, d, rest);
    SumVanishes(Pow(32 + d), Pow(32), rest);
    PowSum(d, 32);
    PowSum(0, 32);
    PowNone();
    if Pow(32 + d) == Pow(32) {
      ShiftManyInjective(Pow(d), ONE, 32);
    }
    PeriodExact(d);
  }

  /** In messages below 2^29 bytes every two flipped bits are seen. */
  lemma TwoBitsDetected(r: Word, a: bytes, b: bytes, s: nat, d: nat)
    requires |a| == |b| < 0x2000_0000 && d >= 1 && s + d < 8 * |a|
    requires forall i | 0 <= i < 8 * |a| :: Bits(a)[i] != Bits(b)[i] <==> i == s || i == s + d
    ensures Crc(r, a) != Crc(r, b)
  {
    hide *;
    TwoBitsUnnoticed(r, a, b, s, d);
    BelowPeriod(d);
  }

  lemma BelowPeriod(d: nat)
    requires 1 <= d < 0x1_0000_0000 - 1
    ensures d % PERIOD != 0
  {
  }

  lemma AtTwo(a: seq<bool>, b: seq<bool>, s: nat, d: nat)
    requires |a| == |b| && d >= 1 && s + d < |a|
    requires forall i | 0 <= i < |a| :: a[i] != b[i] <==> i == s || i == s + d
    ensures DifferAtTwo(a, b, s, d) && PERIOD == 4294967295
  {
  }

  lemma LastBit(a: seq<bool>, b: seq<bool>, s: nat, d: nat)
    requires DifferAtTwo(a, b, s, d)
    ensures d >= 1 && s + d < |a| == |b|
  {
  }

  lemma CrcOfDifference(r: Word, a: bytes, b: bytes)
    requires |a| == |b|
    ensures |Bits(a)| == |Bits(b)|
    ensures Crc(r, a) == Crc(r, b) <==> Serial(0, Xor(Bits(a), Bits(b))) == 0
  {
    hide Serial, Bits, Xor, XorBytes;
    SameChecksum(r, a, b);
    BitsXor(a, b);
  }
}
