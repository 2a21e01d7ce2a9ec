/** Polynomials over GF(2), as coefficient lists with the highest power first. */
module Polynomial {

  type Poly = seq<bool>

  function Zeros(n: nat): (p: Poly)
    ensures |p| == n
  {
    seq(n, i => false)
  }

  /** Addition of two polynomials written with the same number of coefficients. */
  function Xor(p: Poly, q: Poly): (r: Poly)
    requires |p| == |q|
    ensures |r| == |p|
  {
    seq(|p|, i requires 0 <= i < |p| => p[i] != q[i])
  }

  function Scale(c: bool, p: Poly): (r: Poly)
    ensures |r| == |p|
  {
    if c then p else Zeros(|p|)
  }

  /** The product `q * p`, by Horner's rule on the coefficients of `q`. */
  function Mul(q: Poly, p: Poly): (r: Poly)
    requires |p| >= 1
    ensures |r| == |q| + |p| - 1
  {
    if q == [] then Zeros(|p| - 1)
    else
      var n := |q| - 1;
      Xor(Mul(q[..n], p) + [false], Zeros(n) + Scale(q[n], p))
  }

  /** One Horner step leaves the first `n` coefficients alone and adds `c` to the next. */
  lemma HornerPrefix(a: Poly, c: bool, p: Poly, n: nat)
    requires |p| >= 2 && p[0] && |a| == n + |p| - 1
    ensures var r := Xor(a + [false], Zeros(n) + Scale(c, p));
            (forall i | 0 <= i < n :: r[i] == a[i]) && r[n] == (a[n] != c)
  {
    var high := Zeros(n) + Scale(c, p);
    var r := Xor(a + [false], high);
    assert high[n] == c;
    assert forall i | 0 <= i < n :: r[i] == a[i];
  }

  lemma MulPrefix(q: Poly, p: Poly)
    requires |p| >= 2 && p[0] && q != []
    ensures var n := |q| - 1;
            var a := Mul(q[..n], p);
            (forall i | 0 <= i < n :: Mul(q, p)[i] == a[i]) && Mul(q, p)[n] == (a[n] != q[n])
  {
    HornerPrefix(Mul(q[..|q| - 1], p), q[|q| - 1], p, |q| - 1);
  }

  /** Multiplying by a polynomial with leading coefficient 1 can be undone: the
      first `|q|` coefficients of the product already determine `q`. */
  lemma {:induction false} MulInjective(q: Poly, q': Poly, p: Poly)
    requires |p| >= 2 && p[0]
    requires |q| == |q'|
    requires forall i | 0 <= i < |q| :: Mul(q, p)[i] == Mul(q', p)[i]
    ensures q == q'
  {
    hide Mul;
    if q == [] {
    } else {
      var n := |q| - 1;
      MulPrefix(q, p);
      MulPrefix(q', p);
      assert forall i | 0 <= i < n :: Mul(q, p)[i] == Mul(q', p)[i];
      MulInjective(q[..n], q'[..n], p);
      assert q[n] == q'[n];
      assert q == q[..n] + [q[n]] && q' == q'[..n] + [q'[n]];
    }
  }

  /** A sum whose second term only reaches the last `|r|` coefficients shows the
      first coefficients of its first term, and that term shows `r`. */
  lemma SumParts(a: Poly, r: Poly, a': Poly, r': Poly, n: nat)
    requires |r| == |r'| && |a| == |a'| == n + |r|
    requires Xor(a, Zeros(n) + r) == Xor(a', Zeros(n) + r')
    ensures forall i | 0 <= i < n :: a[i] == a'[i]
    ensures a == a' ==> r == r'
  {
    var s := Xor(a, Zeros(n) + r);
    assert forall i | 0 <= i < n :: s[i] == a[i] && s[i] == a'[i];
    if a == a' {
      forall i | 0 <= i < |r| ensures r[i] == r'[i] {
        assert s[n + i] == (a[n + i] != r[i]);
        assert s[n + i] == (a'[n + i] != r'[i]);
      }
    }
  }

  /** Quotient and remainder by a polynomial with leading coefficient 1 are unique. */
  lemma DivisionUnique(q: Poly, r: Poly, q': Poly, r': Poly, p: Poly)
    requires |p| >= 2 && p[0]
    requires |q| == |q'| && |r| == |r'| == |p| - 1
    requires Xor(Mul(q, p), Zeros(|q|) + r) == Xor(Mul(q', p), Zeros(|q|) + r')
    ensures q == q' && r == r'
  {
    SumParts(Mul(q, p), r, Mul(q', p), r', |q|);
    MulInjective(q, q', p);
    SumParts(Mul(q, p), r, Mul(q', p), r', |q|);
  }
}
