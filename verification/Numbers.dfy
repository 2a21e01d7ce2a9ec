/** A little arithmetic: products, quotients and prime factors. */
module Numbers {

  lemma MulMono(n: nat, a: int, b: int)
    requires a <= b
    ensures n * a <= n * b
  {
    assert n * b - n * a == n * (b - a);
  }

  lemma MulStrict(n: nat, a: int, b: int)
    requires n > 0 && a < b
    ensures n * a < n * b
  {
    MulMono(n, a, b - 1);
    assert n * b == n * (b - 1) + n;
  }

  /** Products with the same factor are ordered as the other factors are. */
  lemma MulOrder(n: nat, a: int, b: int)
    requires n > 0 && n * a < n * (b + 1)
    ensures a <= b
  {
    if b < a {
      MulMono(n, b + 1, a);
    }
  }

  lemma Cancel(n: nat, a: int, b: int)
    requires n > 0 && n * a == n * b
    ensures a == b
  {
    if a < b {
      MulStrict(n, a, b);
    } else if b < a {
      MulStrict(n, b, a);
    }
  }

  lemma Positive(n: nat, z: int, w: nat)
    requires n > 0 && w == n * z
    ensures z >= 0
  {
    if z < 0 {
      MulStrict(n, z, 0);
    }
  }

  lemma QuotientUnique(a: nat, n: nat, q: nat, r: nat)
    requires n >= 1 && r < n && a == n * q + r
    ensures a / n == q && a % n == r
  {
    var d := a / n;
    assert n * d <= a < n * (d + 1);
    assert n * q <= a < n * (q + 1);
    MulOrder(n, d, q);
    MulOrder(n, q, d);
  }

  // ----- Primes

  ghost predicate Prime(p: nat) {
    p >= 2 && forall h | 2 <= h < p :: p % h != 0
  }

  /** No divisor from `a` up to `b`. */
  ghost predicate NoDivisor(p: nat, a: nat, b: nat) {
    forall h | a <= h < b && h > 0 :: p % h != 0
  }

  predicate NextEight(p: nat, b: nat)
    requires b > 0
  {
    && p % b != 0 && p % (b + 1) != 0 && p % (b + 2) != 0 && p % (b + 3) != 0
    && p % (b + 4) != 0 && p % (b + 5) != 0 && p % (b + 6) != 0 && p % (b + 7) != 0
  }

  lemma Extend(p: nat, a: nat, b: nat)
    requires b > 0 && NoDivisor(p, a, b) && NextEight(p, b)
    ensures NoDivisor(p, a, b + 8)
  {
    forall h | a <= h < b + 8 && h > 0 ensures p % h != 0 {
      if h >= b {
        assert h == b || h == b + 1 || h == b + 2 || h == b + 3 || h == b + 4 || h == b + 5 || h == b + 6 || h == b + 7;
      }
    }
  }

  lemma PrimeByTrial(p: nat, b: nat)
    requires p >= 2 && NoDivisor(p, 2, b + 1) && p < (b + 1) * (b + 1)
    ensures Prime(p)
  {
    forall h | 2 <= h < p ensures p % h != 0 {
      if p % h == 0 {
        SmallDivisor(p, h, b);
      }
    }
  }

  lemma SmallDivisor(p: nat, h: nat, b: nat)
    requires 2 <= h < p && p % h == 0 && p < (b + 1) * (b + 1)
    ensures 2 <= p / h && p % (p / h) == 0
    ensures h <= b || p / h <= b
  {
    var q := p / h;
    assert p == h * q;
    MulOrder(h, 2, q);
    MultipleMod(q, h);
    assert q * h == h * q;
    SmallFactor(h, q, b);
  }

  lemma SmallFactor(h: nat, q: nat, b: nat)
    requires h * q < (b + 1) * (b + 1)
    ensures h <= b || q <= b
  {
    if h > b && q > b {
      MulMono(b + 1, b + 1, h);
      MulMono(h, b + 1, q);
    }
  }

  lemma MultipleMod(m: nat, q: nat)
    requires m > 0
    ensures (m * q) % m == 0
  {
    QuotientUnique(m * q, m, q, 0);
    assert (m * q) / m == q;
  }

  /** A prime that divides a product divides a factor. */
  lemma {:induction false} Euclid(p: nat, g: nat, k: nat, m: nat) returns (t: nat)
    requires Prime(p) && 0 < k < p && g * k == p * m
    ensures g == p * t
    decreases k
  {
    if k == 1 {
      t := m;
    } else {
      var q, r := p / k, p % k;
      assert p == k * q + r && 0 < r < k;
      assert g * r == p * (g - m * q) by { Reduced(p, g, k, m, q, r); }
      Positive(p, g - m * q, g * r);
      t := Euclid(p, g, r, g - m * q);
    }
  }

  lemma Reduced(p: nat, g: nat, k: nat, m: nat, q: nat, r: nat)
    requires p == k * q + r && g * k == p * m
    ensures g * r == p * (g - m * q)
  {
    calc {
      g * r;
      g * (p - k * q);
      g * p - (g * k) * q;
      g * p - (p * m) * q;
      p * (g - m * q);
    }
  }

  /** Takes the prime `p` out of a product, when it does not divide the second factor. */
  lemma Strip(p: nat, g: nat, k: nat, m: nat) returns (t: nat)
    requires Prime(p) && k % p != 0 && g * k == p * m
    ensures g == p * t && t * k == m
  {
    var q, r := k / p, k % p;
    assert k == p * q + r;
    assert g * r == p * (m - g * q) by { ReducedRight(p, g, k, m, q, r); }
    Positive(p, m - g * q, g * r);
    t := Euclid(p, g, r, m - g * q);
    assert p * (t * k) == p * m;
    Cancel(p, t * k, m);
  }

  lemma ReducedRight(p: nat, g: nat, k: nat, m: nat, q: nat, r: nat)
    requires k == p * q + r && g * k == p * m
    ensures g * r == p * (m - g * q)
  {
    calc {
      g * r;
      g * (k - p * q);
      g * k - g * (p * q);
      p * m - p * (g * q);
      p * (m - g * q);
    }
  }

  lemma NoDivisorTo66()
    ensures NoDivisor(65537, 2, 66)
  {
    hide NoDivisor;
    assert NoDivisor(65537, 2, 2) by { NoneYet(65537); }
    Extend(65537, 2, 2);
    Extend(65537, 2, 10);
    Extend(65537, 2, 18);
    Extend(65537, 2, 26);
    Extend(65537, 2, 34);
    Extend(65537, 2, 42);
    Extend(65537, 2, 50);
    Extend(65537, 2, 58);
  }

  lemma NoDivisorTo130()
    requires NoDivisor(65537, 2, 66)
    ensures NoDivisor(65537, 2, 130)
  {
    hide NoDivisor;
    Extend(65537, 2, 66);
    Extend(65537, 2, 74);
    Extend(65537, 2, 82);
    Extend(65537, 2, 90);
    Extend(65537, 2, 98);
    Extend(65537, 2, 106);
    Extend(65537, 2, 114);
    Extend(65537, 2, 122);
  }

  lemma NoDivisorTo194()
    requires NoDivisor(65537, 2, 130)
    ensures NoDivisor(65537, 2, 194)
  {
    hide NoDivisor;
    Extend(65537, 2, 130);
    Extend(65537, 2, 138);
    Extend(65537, 2, 146);
    Extend(65537, 2, 154);
    Extend(65537, 2, 162);
    Extend(65537, 2, 170);
    Extend(65537, 2, 178);
    Extend(65537, 2, 186);
  }

  lemma NoDivisorTo258()
    requires NoDivisor(65537, 2, 194)
    ensures NoDivisor(65537, 2, 258)
  {
    hide NoDivisor;
    Extend(65537, 2, 194);
    Extend(65537, 2, 202);
    Extend(65537, 2, 210);
    Extend(65537, 2, 218);
    Extend(65537, 2, 226);
    Extend(65537, 2, 234);
    Extend(65537, 2, 242);
    Extend(65537, 2, 250);
  }

  lemma NoneYet(p: nat)
    ensures NoDivisor(p, 2, 2)
  {
  }

  lemma PrimeFactors()
    ensures Prime(3) && Prime(5) && Prime(17) && Prime(257) && Prime(65537)
  {
    assert NoDivisor(257, 2, 17);
    NoDivisorTo66();
    NoDivisorTo130();
    NoDivisorTo194();
    NoDivisorTo258();
    PrimeByTrial(257, 16);
    PrimeByTrial(65537, 257);
  }
}
