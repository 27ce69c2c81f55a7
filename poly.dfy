/** Polynomials over GF(256) as crates/shamir/src/poly.rs handles them: coefficient lists in
  * descending order of degree, the constant term last. The dealer draws one random polynomial
  * per byte, the evaluator produces the 255 shares, and Lagrange interpolation at zero recovers
  * the constant terms (proved in the module Lagrange). */
module Poly {
  import opened Results
  import opened GF256Tables
  import opened GF256
  import opened Shares

  /** `evaluate_polynomial`: Horner's rule, the fold `acc * x + c` from ZERO over the
    * coefficients in order. */
  function Evaluate(coefficients: seq<GF256>, x: GF256): GF256 {
    if |coefficients| == 0 then ZERO
    else
      var n := |coefficients| - 1;
      Add(Mul(Evaluate(coefficients[..n], x), x), coefficients[n])
  }

  /** The empty polynomial is zero everywhere; at x = 0 a polynomial is its constant term. */
  lemma EvaluateAtZero(coefficients: seq<GF256>)
    ensures |coefficients| == 0 ==> Evaluate(coefficients, ZERO) == ZERO
    ensures |coefficients| > 0 ==> Evaluate(coefficients, ZERO) == coefficients[|coefficients| - 1]
  {
    if |coefficients| > 0 {
      var n := |coefficients| - 1;
      MulZero(Evaluate(coefficients[..n], ZERO));
      AddLaws(coefficients[n], ZERO, ZERO);
    }
  }

  /** At x = 1 a polynomial is the sum of its coefficients. */
  lemma {:induction false} EvaluateAtOne(coefficients: seq<GF256>)
    ensures Evaluate(coefficients, ONE) == Sum(coefficients)
    decreases |coefficients|
  {
    if |coefficients| > 0 {
      var n := |coefficients| - 1;
      EvaluateAtOne(coefficients[..n]);
      MulOne(Evaluate(coefficients[..n], ONE));
    }
  }

  /** The examples of the source's tests: 2x^2 + 3x + 5 is 5 at 0 and 4 at 1. */
  lemma EvaluateExamples()
    ensures Evaluate([GF256(2), GF256(3), GF256(5)], ZERO) == GF256(5)
    ensures Evaluate([GF256(2), GF256(3), GF256(5)], ONE) == GF256(4)
  {
    var p := [GF256(2), GF256(3), GF256(5)];
    EvaluateAtZero(p);
    EvaluateAtOne(p);
    SumExample();
  }

  lemma SumExample()
    ensures Sum([GF256(2), GF256(3), GF256(5)]) == GF256(4)
  {
    var p := [GF256(2), GF256(3), GF256(5)];
    assert p[..2] == [GF256(2), GF256(3)] && p[..2][..1] == [GF256(2)] && p[..2][..1][..0] == [];
    assert Sum(p[..2][..1]) == GF256(2);
    assert Sum(p[..2]) == GF256(1);
  }

  /** `random_polynomial`: threshold - 1 coefficients drawn from the random source, which yields
    * bytes in [1, 255], followed by the secret byte as the constant term. The random source is
    * the sequence `draws`; `rest` is what is left of it afterwards. */
  method RandomPolynomial(secret: GF256, threshold: uint8, draws: seq<bv8>)
    returns (coefficients: seq<GF256>, rest: seq<bv8>)
    requires threshold as int <= |draws| + 1
    requires forall i | 0 <= i < |draws| :: draws[i] != 0
    ensures |coefficients| == if threshold == 0 then 1 else threshold as int
    ensures coefficients[|coefficients| - 1] == secret
    ensures forall i | 0 <= i < |coefficients| - 1 ::
      coefficients[i] == GF256(draws[i]) && coefficients[i] != ZERO
    ensures |coefficients| - 1 <= |draws| && rest == draws[|coefficients| - 1..]
  {
    var degree := threshold as int;
    coefficients := [];
    rest := draws;
    var k := 1;
    while k < degree
      invariant 1 <= k <= (if degree == 0 then 1 else degree) && k - 1 <= |draws|
      invariant |coefficients| == k - 1
      invariant forall i | 0 <= i < k - 1 :: coefficients[i] == GF256(draws[i]) && coefficients[i] != ZERO
      invariant rest == draws[k - 1..]
    {
      coefficients := coefficients + [GF256(rest[0])];
      rest := rest[1..];
      k := k + 1;
    }
    coefficients := coefficients + [secret];
  }

  /** The x-coordinate of share j (counting from 0) of the evaluator: the byte range 1..=255
    * counts up one at a time, so share j has j + 1. */
  function PointOf(j: nat): (x: GF256)
    requires j < 255
    ensures x.value as int == j + 1
  {
    if j == 0 then ONE
    else
      var previous := PointOf(j - 1);
      ByteSucc(previous.value);
      GF256(previous.value + 1)
  }

  /** Adding one to a byte below 255 does not wrap. */
  lemma ByteSucc(b: bv8)
    requires b as int < 255
    ensures (b + 1) as int == b as int + 1
  {
  }

  /** `evaluator`: for x = 1, 2, ..., 255 in order, the share whose i-th y-value is polynomial
    * i evaluated at x. Taking the first n shares of the iterator is taking a prefix. */
  function Evaluator(polys: seq<seq<GF256>>): (shares: seq<Share>)
    ensures |shares| == 255
    ensures forall j | 0 <= j < 255 :: shares[j].x == PointOf(j) && |shares[j].y| == |polys|
    ensures forall j, i | 0 <= j < 255 && 0 <= i < |polys| ::
      shares[j].y[i] == Evaluate(polys[i], shares[j].x)
  {
    seq(255, j requires 0 <= j < 255 =>
      Share(PointOf(j), seq(|polys|, i requires 0 <= i < |polys| => Evaluate(polys[i], PointOf(j)))))
  }

  /** The factors of the Lagrange basis value at zero for the point xj: x_i / (xj - x_i) for each
    * share whose x differs from xj, in order. */
  function BasisFactors(shares: seq<Share>, xj: GF256): (factors: seq<GF256>)
    ensures |factors| <= |shares|
  {
    if |shares| == 0 then []
    else
      var n := |shares| - 1;
      var xi := shares[n].x;
      if xi == xj then BasisFactors(shares[..n], xj)
      else BasisFactors(shares[..n], xj) + [Div(xi, Sub(xj, xi))]
  }

  /** The Lagrange basis value at zero for the point xj: the product of its factors. */
  function Basis(shares: seq<Share>, xj: GF256): GF256 {
    Product(BasisFactors(shares, xj))
  }

  /** Every share has a y-value at `byteIndex`; the source panics otherwise. */
  predicate HasByte(shares: seq<Share>, byteIndex: nat) {
    forall j | 0 <= j < |shares| :: byteIndex < |shares[j].y|
  }

  /** The terms of the Lagrange sum: basis value times y-value, one per share. */
  function LagrangeTerms(shares: seq<Share>, byteIndex: nat): (terms: seq<GF256>)
    requires HasByte(shares, byteIndex)
    ensures |terms| == |shares|
  {
    seq(|shares|, j requires 0 <= j < |shares| =>
      Mul(Basis(shares, shares[j].x), shares[j].y[byteIndex]))
  }

  /** `lagrange_interpolate_at_zero`: the sum of the Lagrange terms. */
  function LagrangeAtZero(shares: seq<Share>, byteIndex: nat): GF256
    requires HasByte(shares, byteIndex)
  {
    Sum(LagrangeTerms(shares, byteIndex))
  }

  /** The bytes `interpolate` returns: empty for no shares, otherwise one Lagrange value per
    * y-value of the first share. */
  function Interpolation(shares: seq<Share>): (bytes: seq<bv8>)
    requires CoversFirst(shares)
  {
    if |shares| == 0 then []
    else
      seq(|shares[0].y|, i requires 0 <= i < |shares[0].y| =>
        CoversFirstHasByte(shares, i);
        LagrangeAtZero(shares, i).value)
  }

  /** Every share has at least as many y-values as the first; `interpolate` panics otherwise. */
  predicate CoversFirst(shares: seq<Share>) {
    forall j | 0 <= j < |shares| :: |shares[j].y| >= |shares[0].y|
  }

  lemma CoversFirstHasByte(shares: seq<Share>, i: nat)
    requires CoversFirst(shares) && |shares| > 0 && i < |shares[0].y|
    ensures HasByte(shares, i)
  {
  }

  /** `interpolate`: pushes the Lagrange value at zero of each byte position in turn. */
  method Interpolate(shares: seq<Share>) returns (result: seq<bv8>)
    requires CoversFirst(shares)
    ensures result == Interpolation(shares)
    ensures |result| == if |shares| == 0 then 0 else |shares[0].y|
  {
    if |shares| == 0 {
      return [];
    }
    var secretLen := |shares[0].y|;
    result := [];
    var byteIndex := 0;
    while byteIndex < secretLen
      invariant 0 <= byteIndex <= secretLen
      invariant |result| == byteIndex
      invariant forall i | 0 <= i < byteIndex :: result[i] == Interpolation(shares)[i]
    {
      CoversFirstHasByte(shares, byteIndex);
      var recovered := LagrangeAtZero(shares, byteIndex);
      InterpolationAt(shares, byteIndex);
      result := result + [recovered.value];
      byteIndex := byteIndex + 1;
    }
  }

  /** Byte i of the interpolation is the Lagrange value at zero of position i. */
  lemma InterpolationAt(shares: seq<Share>, i: nat)
    requires CoversFirst(shares) && |shares| > 0 && i < |shares[0].y|
    ensures HasByte(shares, i) && Interpolation(shares)[i] == LagrangeAtZero(shares, i).value
  {
  }

  /** Why `validate_polynomials` rejects a set of polynomials. */
  datatype PolyError =
    | NoPolynomials
    | WrongDegree(index: nat, degree: nat, expected: nat)
    | ZeroLeadingCoefficient(index: nat)

  /** A polynomial of the expected length whose leading coefficient, if it has more than one,
    * is not zero. */
  predicate WellFormed(poly: seq<GF256>, expected: nat) {
    |poly| == expected && (|poly| > 1 ==> poly[0] != ZERO)
  }

  /** `validate_polynomials`: fails on an empty list, then reports the first polynomial that
    * has the wrong length or, having the right length, a zero leading coefficient. */
  method ValidatePolynomials(polys: seq<seq<GF256>>, expectedThreshold: uint8)
    returns (r: Result<(), PolyError>)
    ensures r == Err(NoPolynomials) <==> |polys| == 0
    ensures r.Ok? <==> |polys| > 0 && forall i | 0 <= i < |polys| :: WellFormed(polys[i], expectedThreshold as int)
    ensures r.Err? && r.error.WrongDegree? ==>
      var i := r.error.index;
      i < |polys| && (forall k | 0 <= k < i :: WellFormed(polys[k], expectedThreshold as int))
      && |polys[i]| != expectedThreshold as int
      && r.error == WrongDegree(i, |polys[i]|, expectedThreshold as int)
    ensures r.Err? && r.error.ZeroLeadingCoefficient? ==>
      var i := r.error.index;
      i < |polys| && (forall k | 0 <= k < i :: WellFormed(polys[k], expectedThreshold as int))
      && |polys[i]| == expectedThreshold as int && |polys[i]| > 1 && polys[i][0] == ZERO
  {
    if |polys| == 0 {
      return Err(NoPolynomials);
    }
    var expectedDegree := expectedThreshold as int;
    var i := 0;
    while i < |polys|
      invariant 0 <= i <= |polys|
      invariant forall k | 0 <= k < i :: WellFormed(polys[k], expectedDegree)
    {
      var poly := polys[i];
      if |poly| != expectedDegree {
        return Err(WrongDegree(i, |poly|, expectedDegree));
      }
      if |poly| > 1 && poly[0] == ZERO {
        return Err(ZeroLeadingCoefficient(i));
      }
      i := i + 1;
    }
    return Ok(());
  }
}
