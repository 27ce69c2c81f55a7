/** Correctness of `interpolate`: if the shares lie on a polynomial of degree below their
  * number and their x-coordinates are distinct, the Lagrange sum at zero is the polynomial's
  * constant term. The proof works on coefficient lists in the same order as `Evaluate`
  * (highest degree first, constant term last). */
module Lagrange {
  import opened GF256Tables
  import opened GF256
  import opened Shares
  import opened Poly

  // ---------------------------------------------------------------------------------------
  // Coefficient arithmetic

  function Zeros(n: nat): (z: seq<GF256>)
    ensures |z| == n && forall i | 0 <= i < n :: z[i] == ZERO
  {
    seq(n, _ => ZERO)
  }

  /** `p` with leading zero coefficients up to length `n`: the same polynomial. */
  function Pad(p: seq<GF256>, n: nat): (q: seq<GF256>)
    requires |p| <= n
    ensures |q| == n && q[n - |p|..] == p
    ensures forall i | 0 <= i < n - |p| :: q[i] == ZERO
  {
    Zeros(n - |p|) + p
  }

  /** Coefficient-wise sum of two polynomials of the same length. */
  function PolyAdd(p: seq<GF256>, q: seq<GF256>): (r: seq<GF256>)
    requires |p| == |q|
    ensures |r| == |p| && forall i | 0 <= i < |r| :: r[i] == Add(p[i], q[i])
  {
    seq(|p|, i requires 0 <= i < |p| => Add(p[i], q[i]))
  }

  /** Every coefficient multiplied by `c`. */
  function Scale(p: seq<GF256>, c: GF256): (r: seq<GF256>)
    ensures |r| == |p| && forall i | 0 <= i < |r| :: r[i] == Mul(p[i], c)
  {
    seq(|p|, i requires 0 <= i < |p| => Mul(p[i], c))
  }

  /** The product of `p` with the linear polynomial z - r. */
  function MulLinear(p: seq<GF256>, r: GF256): (q: seq<GF256>)
    ensures |q| == |p| + 1
  {
    PolyAdd(p + [ZERO], [ZERO] + Scale(p, r))
  }

  lemma {:induction false} EvaluateZeros(n: nat, z: GF256)
    ensures Evaluate(Zeros(n), z) == ZERO
  {
    if n > 0 {
      assert Zeros(n)[..n - 1] == Zeros(n - 1);
      EvaluateZeros(n - 1, z);
      MulZero(z);
      AddLaws(ZERO, ZERO, ZERO);
    }
  }

  lemma EvaluateLeadingZeros(k: nat, p: seq<GF256>, z: GF256)
    ensures Evaluate(Zeros(k) + p, z) == Evaluate(p, z)
  {
    EvaluateZeros(k, z);
    EvaluateAfterZero(Zeros(k), p, z);
  }

  /** Coefficients in front of `p` that evaluate to zero do not change its value. */
  lemma {:induction false} EvaluateAfterZero(a: seq<GF256>, p: seq<GF256>, z: GF256)
    requires Evaluate(a, z) == ZERO
    ensures Evaluate(a + p, z) == Evaluate(p, z)
    decreases |p|
  {
    if |p| == 0 {
      assert a + p == a;
    } else {
      var n := |p| - 1;
      DropLast(a, p);
      EvaluateAfterZero(a, p[..n], z);
    }
  }

  /** Removing the last element of a concatenation removes it from the second part. */
  lemma DropLast<T>(a: seq<T>, b: seq<T>)
    requires |b| > 0
    ensures (a + b)[..|a + b| - 1] == a + b[..|b| - 1] && (a + b)[|a + b| - 1] == b[|b| - 1]
  {
  }

  /** Padding does not change the polynomial. */
  lemma EvaluatePad(p: seq<GF256>, n: nat, z: GF256)
    requires |p| <= n
    ensures Evaluate(Pad(p, n), z) == Evaluate(p, z)
  {
    EvaluateLeadingZeros(n - |p|, p, z);
  }

  /** Evaluation is additive. */
  lemma {:induction false} EvaluateAdd(p: seq<GF256>, q: seq<GF256>, z: GF256)
    requires |p| == |q|
    ensures Evaluate(PolyAdd(p, q), z) == Add(Evaluate(p, z), Evaluate(q, z))
  {
    if |p| > 0 {
      var n := |p| - 1;
      assert PolyAdd(p, q)[..n] == PolyAdd(p[..n], q[..n]);
      EvaluateAdd(p[..n], q[..n], z);
      var a, b := Evaluate(p[..n], z), Evaluate(q[..n], z);
      MulDistributes(a, b, z);
      AddShuffle(Mul(a, z), Mul(b, z), p[n], q[n]);
    }
  }

  /** Evaluation commutes with scaling. */
  lemma {:induction false} EvaluateScale(p: seq<GF256>, c: GF256, z: GF256)
    ensures Evaluate(Scale(p, c), z) == Mul(Evaluate(p, z), c)
  {
    if |p| > 0 {
      var n := |p| - 1;
      assert Scale(p, c)[..n] == Scale(p[..n], c);
      EvaluateScale(p[..n], c, z);
      var a := Evaluate(p[..n], z);
      calc {
        Mul(Mul(a, c), z);
        { MulAssoc(a, c, z); MulComm(c, z); }
        Mul(a, Mul(z, c));
        { MulAssoc(a, z, c); }
        Mul(Mul(a, z), c);
      }
      MulDistributes(Mul(a, z), p[n], c);
    }
  }

  /** One more Horner step: appending `c` as the new constant term. */
  lemma EvaluateSnoc(p: seq<GF256>, c: GF256, z: GF256)
    ensures Evaluate(p + [c], z) == Add(Mul(Evaluate(p, z), z), c)
  {
    assert (p + [c])[..|p|] == p;
  }

  /** A zero appended as the new constant term multiplies the polynomial by z. */
  lemma EvaluateShift(p: seq<GF256>, z: GF256)
    ensures Evaluate(p + [ZERO], z) == Mul(Evaluate(p, z), z)
  {
    EvaluateSnoc(p, ZERO, z);
    AddLaws(Mul(Evaluate(p, z), z), ZERO, ZERO);
  }

  /** `MulLinear` multiplies the values by z - r. */
  lemma EvaluateMulLinear(p: seq<GF256>, r: GF256, z: GF256)
    ensures Evaluate(MulLinear(p, r), z) == Mul(Evaluate(p, z), Sub(z, r))
  {
    EvaluateAdd(p + [ZERO], [ZERO] + Scale(p, r), z);
    EvaluateShift(p, z);
    assert [ZERO] + Scale(p, r) == Zeros(1) + Scale(p, r);
    EvaluateLeadingZeros(1, Scale(p, r), z);
    EvaluateScale(p, r, z);
    LeftDistributes(Evaluate(p, z), z, r);
  }

  // ---------------------------------------------------------------------------------------
  // Horner's rule against the sum of monomials

  /** x to the power k. */
  function Pow(x: GF256, k: nat): GF256 {
    if k == 0 then ONE else Mul(Pow(x, k - 1), x)
  }

  /** The textbook value of a polynomial: each coefficient times the matching power of x,
    * the first coefficient having the highest power. */
  function PowerSum(p: seq<GF256>, x: GF256): GF256 {
    if |p| == 0 then ZERO else Add(Mul(p[0], Pow(x, |p| - 1)), PowerSum(p[1..], x))
  }

  /** A leading coefficient contributes c * x^|q|. */
  lemma {:induction false} EvaluateFront(c: GF256, q: seq<GF256>, x: GF256)
    ensures Evaluate([c] + q, x) == Add(Mul(c, Pow(x, |q|)), Evaluate(q, x))
  {
    if |q| == 0 {
      assert [c] + q == [] + [c];
      EvaluateSnoc([], c, x);
      MulZero(x);
      MulOne(c);
      AddLaws(c, ZERO, ZERO);
    } else {
      var n := |q| - 1;
      var e := Evaluate(q[..n], x);
      DropLast([c], q);
      EvaluateFront(c, q[..n], x);
      MulDistributes(Mul(c, Pow(x, n)), e, x);
      MulAssoc(c, Pow(x, n), x);
      AddLaws(Mul(c, Pow(x, |q|)), Mul(e, x), q[n]);
    }
  }

  /** Horner's rule computes the sum of monomials. */
  lemma {:induction false} EvaluateIsPowerSum(p: seq<GF256>, x: GF256)
    ensures Evaluate(p, x) == PowerSum(p, x)
  {
    if |p| > 0 {
      assert p == [p[0]] + p[1..];
      EvaluateFront(p[0], p[1..], x);
      EvaluateIsPowerSum(p[1..], x);
    }
  }

  /** A cubic, written out as the sum of its monomials added from the highest. */
  lemma CubicExpansion(a: GF256, b: GF256, c: GF256, d: GF256, x: GF256)
    ensures Evaluate([a, b, c, d], x)
         == Add(Add(Add(Mul(a, Mul(Mul(x, x), x)), Mul(b, Mul(x, x))), Mul(c, x)), d)
  {
    var p := [a, b, c, d];
    EvaluateIsPowerSum(p, x);
    MulOne(x);
    MulOne(d);
    assert Pow(x, 1) == x;
    assert Pow(x, 2) == Mul(x, x);
    assert Pow(x, 3) == Mul(Mul(x, x), x);
    var ma, mb, mc := Mul(a, Mul(Mul(x, x), x)), Mul(b, Mul(x, x)), Mul(c, x);
    AddLaws(d, ZERO, ZERO);
    assert [d][1..] == [];
    assert PowerSum([d], x) == d;
    assert [c, d][1..] == [d];
    assert PowerSum([c, d], x) == Add(mc, d);
    assert [b, c, d][1..] == [c, d];
    assert PowerSum([b, c, d], x) == Add(mb, Add(mc, d));
    assert p[1..] == [b, c, d];
    assert PowerSum(p, x) == Add(ma, Add(mb, Add(mc, d)));
    AddLaws(mb, mc, d);
    AddLaws(ma, Add(mb, mc), d);
    AddLaws(ma, mb, mc);
  }

  /** The source's check of 3x^3 + 2x^2 + x + 5 at 2. */
  lemma HornerExample()
    ensures Evaluate([GF256(3), GF256(2), GF256(1), GF256(5)], GF256(2))
         == Add(Add(Add(Mul(GF256(3), Mul(Mul(GF256(2), GF256(2)), GF256(2))),
                        Mul(GF256(2), Mul(GF256(2), GF256(2)))),
                    Mul(GF256(1), GF256(2))),
                GF256(5))
  {
    CubicExpansion(GF256(3), GF256(2), GF256(1), GF256(5), GF256(2));
  }

  // ---------------------------------------------------------------------------------------
  // Roots

  /** Synthetic division by z - r: the quotient's coefficients are the Horner accumulators of
    * `p` at `r`, the remainder is the value at `r`. */
  function SynthDiv(p: seq<GF256>, r: GF256): (q: seq<GF256>)
    requires |p| >= 1
    ensures |q| == |p| - 1
  {
    if |p| == 1 then []
    else
      var n := |p| - 1;
      SynthDiv(p[..n], r) + [Evaluate(p[..n], r)]
  }

  /** p(x) = q(x) * (x - r) + p(r) for the synthetic quotient q. */
  lemma {:induction false} DivisionIdentity(p: seq<GF256>, r: GF256, x: GF256)
    requires |p| >= 1
    ensures Evaluate(p, x) == Add(Mul(Evaluate(SynthDiv(p, r), x), Sub(x, r)), Evaluate(p, r))
  {
    var n := |p| - 1;
    if n == 0 {
      assert p[..n] == [];
      MulZero(x);
      MulZero(r);
      MulZero(Sub(x, r));
    } else {
      var e := Evaluate(p[..n], r);
      DivisionIdentity(p[..n], r, x);
      EvaluateSnoc(SynthDiv(p[..n], r), e, x);
      DivisionStep(Evaluate(SynthDiv(p[..n], r), x), e, x, r, p[n]);
    }
  }

  /** The algebra of one step of `DivisionIdentity`. */
  lemma DivisionStep(q: GF256, e: GF256, x: GF256, r: GF256, c: GF256)
    ensures Add(Mul(Add(Mul(q, Sub(x, r)), e), x), c)
         == Add(Mul(Add(Mul(q, x), e), Sub(x, r)), Add(Mul(e, r), c))
  {
    var s := Sub(x, r);
    var a, b, d := Mul(Mul(q, s), x), Mul(e, x), Mul(e, r);
    MulDistributes(Mul(q, s), e, x);
    MulDistributes(Mul(q, x), e, s);
    MulAssoc(q, s, x);
    MulAssoc(q, x, s);
    MulComm(s, x);
    LeftDistributes(e, x, r);
    AddCancel(a, b, d, c);
  }

  lemma AddCancel(a: GF256, b: GF256, d: GF256, c: GF256)
    ensures Add(Add(a, b), c) == Add(Add(a, Add(b, d)), Add(d, c))
  {
  }

  /** The x-coordinates differ pairwise. */
  predicate Distinct(xs: seq<GF256>) {
    forall i, j | 0 <= i < j < |xs| :: xs[i] != xs[j]
  }

  /** A polynomial with fewer coefficients than it has distinct roots is zero everywhere. */
  lemma {:induction false} Vanishing(p: seq<GF256>, xs: seq<GF256>, x: GF256)
    requires |p| <= |xs| && Distinct(xs)
    requires forall i | 0 <= i < |xs| :: Evaluate(p, xs[i]) == ZERO
    ensures Evaluate(p, x) == ZERO
    decreases |xs|
  {
    if |p| > 0 {
      var m := |xs| - 1;
      var r := xs[m];
      var q := SynthDiv(p, r);
      forall i | 0 <= i < m
        ensures Evaluate(q, xs[..m][i]) == ZERO
      {
        DivisionIdentity(p, r, xs[i]);
        AddLaws(Mul(Evaluate(q, xs[i]), Sub(xs[i], r)), ZERO, ZERO);
      }
      Vanishing(q, xs[..m], x);
      DivisionIdentity(p, r, x);
      MulZero(Sub(x, r));
      AddLaws(ZERO, ZERO, ZERO);
    }
  }

  // ---------------------------------------------------------------------------------------
  // Lagrange basis

  /** The factors (z - x_i) / (xj - x_i) of the Lagrange basis polynomial of xj at z. */
  function FactorsAt(shares: seq<Share>, xj: GF256, z: GF256): (factors: seq<GF256>)
    ensures |factors| == |BasisFactors(shares, xj)|
  {
    if |shares| == 0 then []
    else
      var n := |shares| - 1;
      var xi := shares[n].x;
      if xi == xj then FactorsAt(shares[..n], xj, z)
      else FactorsAt(shares[..n], xj, z) + [Div(Sub(z, xi), Sub(xj, xi))]
  }

  /** At z = 0 these are the factors `interpolate` multiplies: 0 - x_i is x_i. */
  lemma {:induction false} FactorsAtZero(shares: seq<Share>, xj: GF256)
    ensures FactorsAt(shares, xj, ZERO) == BasisFactors(shares, xj)
  {
    if |shares| > 0 {
      var n := |shares| - 1;
      FactorsAtZero(shares[..n], xj);
      AddLaws(shares[n].x, ZERO, ZERO);
    }
  }

  /** The Lagrange basis polynomial of xj as coefficients. */
  function BasisPoly(shares: seq<Share>, xj: GF256): (p: seq<GF256>)
    ensures |p| == |BasisFactors(shares, xj)| + 1
  {
    if |shares| == 0 then [ONE]
    else
      var n := |shares| - 1;
      var xi := shares[n].x;
      if xi == xj then BasisPoly(shares[..n], xj)
      else Scale(MulLinear(BasisPoly(shares[..n], xj), xi), Inverse(Sub(xj, xi)))
  }

  lemma ProductSnoc(s: seq<GF256>, c: GF256)
    ensures Product(s + [c]) == Mul(Product(s), c)
  {
    assert (s + [c])[..|s|] == s;
  }

  /** The basis polynomial evaluates to the product of its factors. */
  lemma {:induction false} EvaluateBasisPoly(shares: seq<Share>, xj: GF256, z: GF256)
    ensures Evaluate(BasisPoly(shares, xj), z) == Product(FactorsAt(shares, xj, z))
  {
    if |shares| == 0 {
      EvaluateSnoc([], ONE, z);
      MulZero(z);
      AddLaws(ONE, ZERO, ZERO);
    } else {
      var n := |shares| - 1;
      var xi := shares[n].x;
      EvaluateBasisPoly(shares[..n], xj, z);
      if xi != xj {
        var b := BasisPoly(shares[..n], xj);
        var d := Sub(xj, xi);
        EvaluateScale(MulLinear(b, xi), Inverse(d), z);
        EvaluateMulLinear(b, xi, z);
        ProductSnoc(FactorsAt(shares[..n], xj, z), Div(Sub(z, xi), d));
        MulAssoc(Evaluate(b, z), Sub(z, xi), Inverse(d));
      }
    }
  }

  /** A node's own x occurs in the shares, so its basis has fewer factors than there are shares. */
  lemma {:induction false} FactorsShorter(shares: seq<Share>, xj: GF256, k: nat)
    requires k < |shares| && shares[k].x == xj
    ensures |BasisFactors(shares, xj)| < |shares|
  {
    var n := |shares| - 1;
    if k != n {
      assert shares[..n][k].x == xj;
      FactorsShorter(shares[..n], xj, k);
    }
  }

  /** The basis polynomial of xj is one at xj ... */
  lemma {:induction false} BasisAtOwnNode(shares: seq<Share>, xj: GF256)
    ensures Product(FactorsAt(shares, xj, xj)) == ONE
  {
    if |shares| > 0 {
      var n := |shares| - 1;
      var xi := shares[n].x;
      BasisAtOwnNode(shares[..n], xj);
      if xi != xj {
        DivSelf(Sub(xj, xi));
        ProductSnoc(FactorsAt(shares[..n], xj, xj), ONE);
        MulOne(ONE);
      }
    }
  }

  /** ... and has a zero factor at the x of any other share. */
  lemma {:induction false} BasisAtOtherNode(shares: seq<Share>, xj: GF256, z: GF256, k: nat)
    requires k < |shares| && shares[k].x == z && z != xj
    ensures ZERO in FactorsAt(shares, xj, z)
  {
    var n := |shares| - 1;
    if k == n {
      LastFactorZero(shares, xj);
    } else {
      assert shares[..n][k].x == z;
      BasisAtOtherNode(shares[..n], xj, z, k);
      ZeroFactorKept(shares, xj, z);
    }
  }


  lemma LastFactorZero(shares: seq<Share>, xj: GF256)
    requires |shares| > 0 && shares[|shares| - 1].x != xj
    ensures ZERO in FactorsAt(shares, xj, shares[|shares| - 1].x)
  {
    var n := |shares| - 1;
    var z := shares[n].x;
    var d := Sub(xj, z);
    AddLaws(z, ZERO, ZERO);
    DivZero(d);
    assert FactorsAt(shares, xj, z) == FactorsAt(shares[..n], xj, z) + [Div(Sub(z, z), d)];
  }

  lemma ZeroFactorKept(shares: seq<Share>, xj: GF256, z: GF256)
    requires |shares| > 0 && ZERO in FactorsAt(shares[..|shares| - 1], xj, z)
    ensures ZERO in FactorsAt(shares, xj, z)
  {
  }

  lemma DivZero(b: GF256)
    requires b != ZERO
    ensures Div(ZERO, b) == ZERO
  {
  }

  // ---------------------------------------------------------------------------------------
  // The Lagrange polynomial

  /** The Lagrange terms evaluated at z instead of zero. */
  function TermsAt(shares: seq<Share>, byteIndex: nat, z: GF256): (terms: seq<GF256>)
    requires HasByte(shares, byteIndex)
    ensures |terms| == |shares|
  {
    seq(|shares|, j requires 0 <= j < |shares| =>
      Mul(Product(FactorsAt(shares, shares[j].x, z)), shares[j].y[byteIndex]))
  }

  lemma TermsAtZero(shares: seq<Share>, byteIndex: nat)
    requires HasByte(shares, byteIndex)
    ensures TermsAt(shares, byteIndex, ZERO) == LagrangeTerms(shares, byteIndex)
  {
    forall j | 0 <= j < |shares| {
      FactorsAtZero(shares, shares[j].x);
    }
  }

  /** The sum of the first `m` scaled basis polynomials, each padded to the number of shares. */
  function LagrangePoly(shares: seq<Share>, byteIndex: nat, m: nat): (p: seq<GF256>)
    requires HasByte(shares, byteIndex) && m <= |shares|
    ensures |p| == |shares|
  {
    if m == 0 then Zeros(|shares|)
    else
      var j := m - 1;
      FactorsShorter(shares, shares[j].x, j);
      PolyAdd(LagrangePoly(shares, byteIndex, j),
              Scale(Pad(BasisPoly(shares, shares[j].x), |shares|), shares[j].y[byteIndex]))
  }

  lemma {:induction false} EvaluateLagrangePoly(shares: seq<Share>, byteIndex: nat, m: nat, z: GF256)
    requires HasByte(shares, byteIndex) && m <= |shares|
    ensures Evaluate(LagrangePoly(shares, byteIndex, m), z) == Sum(TermsAt(shares, byteIndex, z)[..m])
  {
    if m == 0 {
      EvaluateZeros(|shares|, z);
    } else {
      var j := m - 1;
      FactorsShorter(shares, shares[j].x, j);
      var b := Pad(BasisPoly(shares, shares[j].x), |shares|);
      EvaluateLagrangePoly(shares, byteIndex, j, z);
      EvaluateAdd(LagrangePoly(shares, byteIndex, j), Scale(b, shares[j].y[byteIndex]), z);
      EvaluateTerm(shares, byteIndex, j, z);
      SumPrefix(TermsAt(shares, byteIndex, z), m);
    }
  }

  /** The j-th scaled basis polynomial evaluates to the j-th term. */
  lemma EvaluateTerm(shares: seq<Share>, byteIndex: nat, j: nat, z: GF256)
    requires HasByte(shares, byteIndex) && j < |shares|
    ensures |BasisPoly(shares, shares[j].x)| <= |shares|
    ensures Evaluate(Scale(Pad(BasisPoly(shares, shares[j].x), |shares|), shares[j].y[byteIndex]), z)
         == TermsAt(shares, byteIndex, z)[j]
  {
    var xj := shares[j].x;
    FactorsShorter(shares, xj, j);
    var b := Pad(BasisPoly(shares, xj), |shares|);
    EvaluateScale(b, shares[j].y[byteIndex], z);
    EvaluatePad(BasisPoly(shares, xj), |shares|, z);
    EvaluateBasisPoly(shares, xj, z);
  }

  /** One step of `Sum` over a prefix. */
  lemma SumPrefix(t: seq<GF256>, m: nat)
    requires 0 < m <= |t|
    ensures Sum(t[..m]) == Add(Sum(t[..m - 1]), t[m - 1])
  {
    assert t[..m][..m - 1] == t[..m - 1];
  }

  /** A sum with a single non-zero term is that term. */
  lemma {:induction false} SumSingle(s: seq<GF256>, k: nat)
    requires k < |s|
    requires forall j | 0 <= j < |s| && j != k :: s[j] == ZERO
    ensures Sum(s) == s[k]
  {
    var n := |s| - 1;
    if k == n {
      SumZeros(s[..n]);
      AddLaws(s[k], ZERO, ZERO);
    } else {
      SumSingle(s[..n], k);
      AddLaws(s[k], ZERO, ZERO);
    }
  }

  lemma {:induction false} SumZeros(s: seq<GF256>)
    requires forall j | 0 <= j < |s| :: s[j] == ZERO
    ensures Sum(s) == ZERO
  {
    if |s| > 0 {
      SumZeros(s[..|s| - 1]);
      AddLaws(ZERO, ZERO, ZERO);
    }
  }

  /** The x-coordinates of the shares, in order. */
  function Xs(shares: seq<Share>): (xs: seq<GF256>)
    ensures |xs| == |shares| && forall j | 0 <= j < |shares| :: xs[j] == shares[j].x
  {
    seq(|shares|, j requires 0 <= j < |shares| => shares[j].x)
  }

  /** At the x of a share, the Lagrange polynomial takes that share's y-value. */
  lemma LagrangeAtNode(shares: seq<Share>, byteIndex: nat, k: nat)
    requires HasByte(shares, byteIndex) && Distinct(Xs(shares)) && k < |shares|
    ensures Sum(TermsAt(shares, byteIndex, shares[k].x)) == shares[k].y[byteIndex]
  {
    var t := TermsAt(shares, byteIndex, shares[k].x);
    forall j | 0 <= j < |shares| && j != k
      ensures t[j] == ZERO
    {
      assert Xs(shares)[j] != Xs(shares)[k];
      BasisAtOtherNode(shares, shares[j].x, shares[k].x, k);
      MulZero(shares[j].y[byteIndex]);
    }
    BasisAtOwnNode(shares, shares[k].x);
    MulOne(shares[k].y[byteIndex]);
    SumSingle(t, k);
  }

  lemma AddZeroEqual(a: GF256, b: GF256)
    requires Add(a, b) == ZERO
    ensures a == b
  {
    AddLaws(a, b, b);
    AddLaws(b, b, b);
  }

  /** The Lagrange polynomial of shares lying on p, plus p, vanishes at every share's x. */
  lemma DifferenceVanishesAt(shares: seq<Share>, byteIndex: nat, p: seq<GF256>, k: nat)
    requires HasByte(shares, byteIndex) && Distinct(Xs(shares)) && |p| <= |shares|
    requires forall k | 0 <= k < |shares| :: shares[k].y[byteIndex] == Evaluate(p, shares[k].x)
    requires k < |shares|
    ensures Evaluate(PolyAdd(LagrangePoly(shares, byteIndex, |shares|), Pad(p, |shares|)), Xs(shares)[k])
         == ZERO
  {
    var n := |shares|;
    var l := LagrangePoly(shares, byteIndex, n);
    var x := shares[k].x;
    EvaluateAdd(l, Pad(p, n), x);
    EvaluatePad(p, n, x);
    EvaluateLagrangePoly(shares, byteIndex, n, x);
    assert TermsAt(shares, byteIndex, x)[..n] == TermsAt(shares, byteIndex, x);
    LagrangeAtNode(shares, byteIndex, k);
    AddLaws(shares[k].y[byteIndex], ZERO, ZERO);
  }

  /** At zero, the Lagrange polynomial plus p is the Lagrange value at zero plus p's constant
    * term. */
  lemma DifferenceAtZero(shares: seq<Share>, byteIndex: nat, p: seq<GF256>)
    requires HasByte(shares, byteIndex) && |p| <= |shares|
    ensures Evaluate(PolyAdd(LagrangePoly(shares, byteIndex, |shares|), Pad(p, |shares|)), ZERO)
         == Add(LagrangeAtZero(shares, byteIndex), Evaluate(p, ZERO))
  {
    var n := |shares|;
    var l := LagrangePoly(shares, byteIndex, n);
    EvaluateAdd(l, Pad(p, n), ZERO);
    EvaluatePad(p, n, ZERO);
    EvaluateLagrangePoly(shares, byteIndex, n, ZERO);
    assert TermsAt(shares, byteIndex, ZERO)[..n] == TermsAt(shares, byteIndex, ZERO);
    TermsAtZero(shares, byteIndex);
  }

  /** Lagrange interpolation at zero reproduces the constant term of any polynomial with at
    * most as many coefficients as there are shares, when the shares lie on it and their
    * x-coordinates are distinct. */
  lemma {:induction false} LagrangeReproduces(shares: seq<Share>, byteIndex: nat, p: seq<GF256>)
    requires HasByte(shares, byteIndex) && Distinct(Xs(shares)) && |p| <= |shares|
    requires forall k | 0 <= k < |shares| :: shares[k].y[byteIndex] == Evaluate(p, shares[k].x)
    ensures LagrangeAtZero(shares, byteIndex) == Evaluate(p, ZERO)
  {
    var n := |shares|;
    var d := PolyAdd(LagrangePoly(shares, byteIndex, n), Pad(p, n));
    forall k | 0 <= k < n
      ensures Evaluate(d, Xs(shares)[k]) == ZERO
    {
      DifferenceVanishesAt(shares, byteIndex, p, k);
    }
    Vanishing(d, Xs(shares), ZERO);
    DifferenceAtZero(shares, byteIndex, p);
    AddZeroEqual(LagrangeAtZero(shares, byteIndex), Evaluate(p, ZERO));
  }

  // ---------------------------------------------------------------------------------------
  // Recovering the secret

  /** The constant terms of the polynomials as bytes: the secret they were built around. */
  function ConstantTerms(polys: seq<seq<GF256>>): (secret: seq<bv8>)
    requires forall i | 0 <= i < |polys| :: |polys[i]| >= 1
    ensures |secret| == |polys|
  {
    seq(|polys|, i requires 0 <= i < |polys| => polys[i][|polys[i]| - 1].value)
  }

  /** Shares with distinct x-coordinates whose i-th y-value lies on the i-th polynomial, each
    * polynomial having at most as many coefficients as there are shares: `interpolate`
    * returns the constant terms. */
  lemma InterpolationRecovers(shares: seq<Share>, polys: seq<seq<GF256>>)
    requires |shares| > 0 && Distinct(Xs(shares))
    requires forall j | 0 <= j < |shares| :: |shares[j].y| == |polys|
    requires forall i | 0 <= i < |polys| :: 1 <= |polys[i]| <= |shares|
    requires forall j, i | 0 <= j < |shares| && 0 <= i < |polys| ::
      shares[j].y[i] == Evaluate(polys[i], shares[j].x)
    ensures CoversFirst(shares) && Interpolation(shares) == ConstantTerms(polys)
  {
    forall i | 0 <= i < |polys|
      ensures LagrangeAtZero(shares, i).value == ConstantTerms(polys)[i]
    {
      LagrangeReproduces(shares, i, polys[i]);
      EvaluateAtZero(polys[i]);
    }
  }

  /** The shares of the evaluator at the given positions (position j has x = j + 1). */
  function Pick(polys: seq<seq<GF256>>, picks: seq<nat>): (shares: seq<Share>)
    requires forall t | 0 <= t < |picks| :: picks[t] < 255
    ensures |shares| == |picks|
  {
    var all := Evaluator(polys);
    seq(|picks|, t requires 0 <= t < |picks| => all[picks[t]])
  }

  /** Distinct positions of the evaluator give distinct x-coordinates, and every picked share
    * has one y-value per polynomial. */
  lemma PickDistinct(polys: seq<seq<GF256>>, picks: seq<nat>)
    requires forall t | 0 <= t < |picks| :: picks[t] < 255
    requires forall s, t | 0 <= s < t < |picks| :: picks[s] != picks[t]
    ensures Distinct(Xs(Pick(polys, picks)))
    ensures forall t | 0 <= t < |picks| :: |Pick(polys, picks)[t].y| == |polys|
  {
    var shares := Pick(polys, picks);
    forall s, t | 0 <= s < t < |shares|
      ensures Xs(shares)[s] != Xs(shares)[t]
    {
      assert shares[s].x.value as int == picks[s] + 1;
      assert shares[t].x.value as int == picks[t] + 1;
    }
  }

  /** The round trip of `split` and `recover` at the level of polynomials: any `k` distinct
    * shares out of the evaluator's, with every polynomial of at most `k` coefficients, give the
    * constant terms back. */
  lemma EvaluatorRoundTrip(polys: seq<seq<GF256>>, picks: seq<nat>)
    requires |picks| > 0
    requires forall t | 0 <= t < |picks| :: picks[t] < 255
    requires forall s, t | 0 <= s < t < |picks| :: picks[s] != picks[t]
    requires forall i | 0 <= i < |polys| :: 1 <= |polys[i]| <= |picks|
    ensures CoversFirst(Pick(polys, picks))
    ensures Interpolation(Pick(polys, picks)) == ConstantTerms(polys)
  {
    PickDistinct(polys, picks);
    InterpolationRecovers(Pick(polys, picks), polys);
  }

  /** The taking of the first `k` shares, as `split` does with the evaluator. */
  lemma FirstSharesRoundTrip(polys: seq<seq<GF256>>, k: nat)
    requires 1 <= k <= 255
    requires forall i | 0 <= i < |polys| :: 1 <= |polys[i]| <= k
    ensures CoversFirst(Evaluator(polys)[..k])
    ensures Interpolation(Evaluator(polys)[..k]) == ConstantTerms(polys)
  {
    var picks := seq(k, t requires 0 <= t < k => t);
    assert Pick(polys, picks) == Evaluator(polys)[..k];
    EvaluatorRoundTrip(polys, picks);
  }

  /** Two shares of the constant 5 give 5. */
  lemma InterpolateConstantExample()
    ensures Interpolation([Share(GF256(1), [GF256(5)]), Share(GF256(2), [GF256(5)])]) == [5]
  {
    EvaluateSnoc([], GF256(5), GF256(1));
    EvaluateSnoc([], GF256(5), GF256(2));
    MulZero(GF256(1));
    MulZero(GF256(2));
    InterpolationRecovers([Share(GF256(1), [GF256(5)]), Share(GF256(2), [GF256(5)])], [[GF256(5)]]);
  }

  /** x + c takes the value x + c. */
  lemma LinearValues(c: GF256, x: GF256)
    ensures Evaluate([ONE, c], x) == Add(x, c)
  {
    assert [ONE, c] == [ONE] + [c];
    EvaluateSnoc([], ONE, x);
    EvaluateSnoc([ONE], c, x);
    AddLaws(ONE, ZERO, ZERO);
    MulZero(x);
    MulOne(x);
  }

  /** Two shares of the line x + c give c. */
  lemma InterpolateLine(x1: GF256, x2: GF256, c: GF256)
    requires x1 != x2
    ensures Interpolation([Share(x1, [Add(x1, c)]), Share(x2, [Add(x2, c)])]) == [c.value]
  {
    var shares := [Share(x1, [Add(x1, c)]), Share(x2, [Add(x2, c)])];
    LinearValues(c, x1);
    LinearValues(c, x2);
    assert Xs(shares) == [x1, x2];
    assert shares[0].y[0] == Evaluate([ONE, c], shares[0].x);
    assert shares[1].y[0] == Evaluate([ONE, c], shares[1].x);
    InterpolationRecovers(shares, [[ONE, c]]);
  }

  /** Two shares of x + 5 (the values 4 at 1 and 7 at 2) give 5. */
  lemma InterpolateLinearExample()
    ensures Interpolation([Share(GF256(1), [GF256(4)]), Share(GF256(2), [GF256(7)])]) == [5]
  {
    assert Add(GF256(1), GF256(5)) == GF256(4) && Add(GF256(2), GF256(5)) == GF256(7);
    InterpolateLine(GF256(1), GF256(2), GF256(5));
  }
}
