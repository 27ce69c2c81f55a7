/** The `Shamir` facade of the library: threshold validation, splitting a secret with its
  * CRC-32 appended, and recovering it with the validation pipeline and checksum check. The
  * random source is a sequence of draws and CRC-32 is a parameter `crc`. */
module Sharing {
  import opened Results
  import opened GF256Tables
  import opened GF256
  import opened Shares
  import opened Poly
  import opened Lagrange

  datatype ShamirError =
    | InvalidThreshold
    | InsufficientShares(required: uint8, provided: nat)
    | InconsistentShareLength
    | DuplicateShares(x: bv8)
    | ChecksumMismatch
    | EmptyInput

  /** A scheme with its threshold. */
  datatype Shamir = Shamir(threshold: uint8)

  const MAX_SHARES: uint8 := 255

  /** `Shamir::new`: a zero threshold is rejected. */
  function New(threshold: uint8): (r: Result<Shamir, ShamirError>)
    ensures r.Err? <==> threshold == 0
    ensures r.Err? ==> r.error == InvalidThreshold
    ensures r.Ok? ==> Threshold(r.value) == threshold
  {
    if threshold == 0 then Err(InvalidThreshold) else Ok(Shamir(threshold))
  }

  function Threshold(s: Shamir): uint8 {
    s.threshold
  }

  lemma NewExamples()
    ensures New(0) == Err(InvalidThreshold)
    ensures New(1).Ok? && New(255).Ok?
    ensures Threshold(New(3).value) == 3
  {
  }

  // ---------------------------------------------------------------------------------------
  // Checksum

  /** `u32::to_be_bytes`: most significant byte first. */
  function BigEndian(c: bv32): (bytes: seq<bv8>)
    ensures |bytes| == 4
  {
    [(c >> 24) as bv8, ((c >> 16) & 0xFF) as bv8, ((c >> 8) & 0xFF) as bv8, (c & 0xFF) as bv8]
  }

  /** The four bytes read back as a big-endian word. */
  function FromBigEndian(bytes: seq<bv8>): bv32
    requires |bytes| == 4
  {
    (bytes[0] as bv32 << 24) | (bytes[1] as bv32 << 16) | (bytes[2] as bv32 << 8) | bytes[3] as bv32
  }

  lemma BigEndianRoundTrip(c: bv32)
    ensures FromBigEndian(BigEndian(c)) == c
  {
  }

  /** Comparing the checksum bytes is comparing the checksums. */
  lemma BigEndianInjective(c: bv32, d: bv32)
    ensures BigEndian(c) == BigEndian(d) <==> c == d
  {
    BigEndianRoundTrip(c);
    BigEndianRoundTrip(d);
  }

  /** The secret followed by the big-endian CRC-32 of the secret. */
  function WithChecksum(secret: seq<bv8>, crc: seq<bv8> -> bv32): (data: seq<bv8>)
    ensures |data| == |secret| + 4 && data[..|secret|] == secret
  {
    secret + BigEndian(crc(secret))
  }

  // ---------------------------------------------------------------------------------------
  // Splitting

  /** The number of coefficients `random_polynomial` produces for a threshold. */
  function CoefficientCount(threshold: uint8): nat {
    if threshold == 0 then 1 else threshold as int
  }

  /** The draws one polynomial consumes. */
  function Degree(threshold: uint8): nat {
    CoefficientCount(threshold) - 1
  }

  /** The draws `n` polynomials consume. */
  function Consumed(n: nat, threshold: uint8): nat {
    if n == 0 then 0 else Consumed(n - 1, threshold) + Degree(threshold)
  }

  /** `n` polynomials consume n * (threshold - 1) draws. */
  lemma {:induction false} ConsumedIsProduct(n: nat, threshold: uint8)
    ensures Consumed(n, threshold) == n * Degree(threshold)
  {
    if n > 0 {
      ConsumedIsProduct(n - 1, threshold);
    }
  }

  lemma {:induction false} ConsumedMonotone(n: nat, m: nat, threshold: uint8)
    requires n <= m
    ensures Consumed(n, threshold) <= Consumed(m, threshold)
    decreases m - n
  {
    if n < m {
      ConsumedMonotone(n + 1, m, threshold);
    }
  }

  /** The polynomials `split_with_rng` builds for `data`: one per byte, each with the byte as
    * its constant term and non-zero random coefficients before it. */
  predicate SplitPolys(polys: seq<seq<GF256>>, data: seq<bv8>, threshold: uint8) {
    |polys| == |data| &&
    forall i | 0 <= i < |polys| ::
      |polys[i]| == CoefficientCount(threshold) && polys[i][|polys[i]| - 1] == GF256(data[i]) &&
      forall k | 0 <= k < |polys[i]| - 1 :: polys[i][k] != ZERO
  }

  /** The coefficients before the constant term of polynomial i are, in order, the draws that
    * follow those of the polynomials before it. */
  predicate Drawn(polys: seq<seq<GF256>>, threshold: uint8, draws: seq<bv8>) {
    forall i, k | 0 <= i < |polys| && 0 <= k < |polys[i]| - 1 ::
      Consumed(i, threshold) + k < |draws| && polys[i][k] == GF256(draws[Consumed(i, threshold) + k])
  }

  /** The polynomials of `split_with_rng`: one random polynomial per byte of `data`, in order,
    * each drawing its coefficients from what the previous ones left of the draws. */
  method BuildPolys(data: seq<bv8>, threshold: uint8, draws: seq<bv8>)
    returns (polys: seq<seq<GF256>>, rest: seq<bv8>)
    requires forall i | 0 <= i < |draws| :: draws[i] != 0
    requires Consumed(|data|, threshold) <= |draws|
    ensures SplitPolys(polys, data, threshold) && Drawn(polys, threshold, draws)
    ensures rest == draws[Consumed(|data|, threshold)..]
  {
    polys := [];
    rest := draws;
    var i := 0;
    while i < |data|
      invariant 0 <= i <= |data| && |polys| == i
      invariant Consumed(i, threshold) <= |draws| && rest == draws[Consumed(i, threshold)..]
      invariant SplitPolys(polys, data[..i], threshold) && Drawn(polys, threshold, draws)
    {
      ConsumedMonotone(i + 1, |data|, threshold);
      var p;
      p, rest := RandomPolynomial(GF256(data[i]), threshold, rest);
      polys := polys + [p];
      assert data[..i + 1] == data[..i] + [data[i]];
      i := i + 1;
    }
    assert data[..i] == data;
  }

  /** `split_with_rng`: rejects an empty secret; otherwise builds a random polynomial for every
    * byte of the secret and its checksum and returns the evaluator's shares. `polys` are those
    * polynomials and `rest` is what is left of the draws. */
  method SplitWithRng(s: Shamir, secret: seq<bv8>, crc: seq<bv8> -> bv32, draws: seq<bv8>)
    returns (r: Result<seq<Share>, ShamirError>, rest: seq<bv8>, ghost polys: seq<seq<GF256>>)
    requires forall i | 0 <= i < |draws| :: draws[i] != 0
    requires Consumed(|secret| + 4, s.threshold) <= |draws|
    ensures r.Err? <==> |secret| == 0
    ensures r.Err? ==> r.error == EmptyInput && rest == draws
    ensures r.Ok? ==>
      SplitPolys(polys, WithChecksum(secret, crc), s.threshold) && Drawn(polys, s.threshold, draws)
    ensures r.Ok? ==> r.value == Evaluator(polys)
    ensures r.Ok? ==> rest == draws[Consumed(|secret| + 4, s.threshold)..]
  {
    if |secret| == 0 {
      return Err(EmptyInput), draws, [];
    }
    var checksum := BigEndian(crc(secret));
    var built;
    built, rest := BuildPolys(secret + checksum, s.threshold, draws);
    polys := built;
    r := Ok(Evaluator(built));
  }

  /** The same data and the same draws give the same polynomials, hence the same shares: a
    * split is a function of the secret, the checksum and the draws. */
  lemma {:induction false} SplitDeterministic(p1: seq<seq<GF256>>, p2: seq<seq<GF256>>, data: seq<bv8>,
                                              threshold: uint8, draws: seq<bv8>)
    requires SplitPolys(p1, data, threshold) && Drawn(p1, threshold, draws)
    requires SplitPolys(p2, data, threshold) && Drawn(p2, threshold, draws)
    ensures p1 == p2 && Evaluator(p1) == Evaluator(p2)
  {
    forall i | 0 <= i < |p1|
      ensures p1[i] == p2[i]
    {
      forall k | 0 <= k < |p1[i]|
        ensures p1[i][k] == p2[i][k]
      {
        var c1, c2 := p1[i][k], p2[i][k];
        if k < |p1[i]| - 1 {
          assert c1 == GF256(draws[Consumed(i, threshold) + k]) == c2;
        }
      }
    }
  }

  /** Every share of a split carries the secret and its checksum, one y-value per byte. */
  lemma SplitShareShape(polys: seq<seq<GF256>>, secret: seq<bv8>, crc: seq<bv8> -> bv32, threshold: uint8)
    requires SplitPolys(polys, WithChecksum(secret, crc), threshold)
    ensures forall j | 0 <= j < 255 ::
      Evaluator(polys)[j].x.value as int == j + 1 && |Evaluator(polys)[j].y| == |secret| + 4
  {
  }

  // ---------------------------------------------------------------------------------------
  // Recovering

  /** Share j repeats the x-coordinate of an earlier share. */
  predicate Repeated(shares: seq<Share>, j: nat)
    requires j < |shares|
  {
    exists m | 0 <= m < j :: shares[m].x == shares[j].x
  }

  /** Share j passes both checks of the validation loop. */
  predicate Fine(shares: seq<Share>, j: nat)
    requires j < |shares|
  {
    |shares[j].y| == |shares[0].y| && !Repeated(shares, j)
  }

  /** The error the validation loop reports at a share that does not pass: the length check
    * comes first. */
  function ErrorAt(shares: seq<Share>, j: nat): ShamirError
    requires j < |shares|
  {
    if |shares[j].y| != |shares[0].y| then InconsistentShareLength
    else DuplicateShares(shares[j].x.value)
  }

  /** The outcome of the validation loop from share `from` on: the error of the first share
    * that does not pass, or none. */
  function StructuralError(shares: seq<Share>, from: nat): (e: Option<ShamirError>)
    requires from <= |shares|
    ensures e.None? <==> forall j | from <= j < |shares| :: Fine(shares, j)
    ensures e.Some? ==> exists j | from <= j < |shares| ::
      !Fine(shares, j) && e.value == ErrorAt(shares, j) &&
      forall k | from <= k < j :: Fine(shares, k)
    decreases |shares| - from
  {
    if from == |shares| then None
    else if !Fine(shares, from) then Some(ErrorAt(shares, from))
    else StructuralError(shares, from + 1)
  }

  /** Every share passes exactly when all have the first share's length and no x repeats. */
  lemma AllFine(shares: seq<Share>)
    ensures (forall j | 0 <= j < |shares| :: Fine(shares, j)) <==>
      (forall j | 0 <= j < |shares| :: |shares[j].y| == |shares[0].y|) && Distinct(Xs(shares))
  {
    if (forall j | 0 <= j < |shares| :: |shares[j].y| == |shares[0].y|) && Distinct(Xs(shares)) {
      forall j | 0 <= j < |shares|
        ensures !Repeated(shares, j)
      {
        forall m | 0 <= m < j
          ensures shares[m].x != shares[j].x
        {
          assert Xs(shares)[m] != Xs(shares)[j];
        }
      }
    }
    if forall j | 0 <= j < |shares| :: Fine(shares, j) {
      forall j | 0 <= j < |shares|
        ensures |shares[j].y| == |shares[0].y|
      {
        assert Fine(shares, j);
      }
      forall i, j | 0 <= i < j < |shares|
        ensures Xs(shares)[i] != Xs(shares)[j]
      {
        assert Fine(shares, j);
      }
    }
  }

  /** Shares of one length cover the first share's byte positions, and so does any prefix. */
  lemma PrefixCovers(shares: seq<Share>, n: nat)
    requires n <= |shares|
    requires forall j | 0 <= j < |shares| :: |shares[j].y| == |shares[0].y|
    ensures CoversFirst(shares[..n])
  {
  }

  /** `recover`, as a value: no shares is too few; then the first share that fails the length
    * or the duplicate check; then too few shares for the threshold; then the first `threshold`
    * shares are interpolated and the last four bytes must be the big-endian CRC-32 of the
    * rest, which is the secret. */
  function Recovery(s: Shamir, shares: seq<Share>, crc: seq<bv8> -> bv32): (r: Result<seq<bv8>, ShamirError>)
    ensures |shares| == 0 ==> r == Err(InsufficientShares(s.threshold, 0))
    ensures r.Ok? ==>
      0 < |shares| && s.threshold as int <= |shares| && Distinct(Xs(shares)) &&
      (forall j | 0 <= j < |shares| :: |shares[j].y| == |shares[0].y|) &&
      CoversFirst(shares[..s.threshold]) &&
      WithChecksum(r.value, crc) == Interpolation(shares[..s.threshold])
  {
    if |shares| == 0 then Err(InsufficientShares(s.threshold, 0))
    else
      match StructuralError(shares, 0)
      case Some(e) => Err(e)
      case None =>
        if |shares| < s.threshold as int then Err(InsufficientShares(s.threshold, |shares|))
        else
          AllFine(shares);
          var chosen := shares[..s.threshold];
          PrefixCovers(shares, |chosen|);
          var data := Interpolation(chosen);
          if |data| < 4 then Err(ChecksumMismatch)
          else if data[|data| - 4..] != BigEndian(crc(data[..|data| - 4])) then Err(ChecksumMismatch)
          else Ok(data[..|data| - 4])
  }

  /** The validation loop stops at the first share that does not pass. */
  lemma {:induction false} StructuralAt(shares: seq<Share>, from: nat, i: nat)
    requires from <= i < |shares|
    requires forall j | from <= j < i :: Fine(shares, j)
    requires !Fine(shares, i)
    ensures StructuralError(shares, from) == Some(ErrorAt(shares, i))
    decreases i - from
  {
    if from < i {
      assert Fine(shares, from);
      StructuralAt(shares, from + 1, i);
    }
  }

  /** The validation loop of `recover`: every share in order against the first share's length,
    * then against the set of x-coordinates seen so far. */
  method CheckShares(shares: seq<Share>) returns (e: Option<ShamirError>)
    requires |shares| > 0
    ensures e == StructuralError(shares, 0)
  {
    var expectedLen := |shares[0].y|;
    var uniqueX: set<bv8> := {};
    var i := 0;
    while i < |shares|
      invariant 0 <= i <= |shares|
      invariant uniqueX == set m | 0 <= m < i :: shares[m].x.value
      invariant forall j | 0 <= j < i :: Fine(shares, j)
    {
      if |shares[i].y| != expectedLen {
        StructuralAt(shares, 0, i);
        return Some(InconsistentShareLength);
      }
      if shares[i].x.value in uniqueX {
        var m :| 0 <= m < i && shares[m].x.value == shares[i].x.value;
        assert shares[m].x == shares[i].x;
        StructuralAt(shares, 0, i);
        return Some(DuplicateShares(shares[i].x.value));
      }
      assert Fine(shares, i);
      uniqueX := uniqueX + {shares[i].x.value};
      i := i + 1;
    }
    return None;
  }

  /** `recover`: no shares, then the validation loop, then the count, then the first
    * `threshold` shares are interpolated and the checksum is split off and checked. */
  method Recover(s: Shamir, shares: seq<Share>, crc: seq<bv8> -> bv32) returns (r: Result<seq<bv8>, ShamirError>)
    ensures r == Recovery(s, shares, crc)
  {
    if |shares| == 0 {
      return Err(InsufficientShares(s.threshold, 0));
    }
    var e := CheckShares(shares);
    if e.Some? {
      return Err(e.value);
    }
    if |shares| < s.threshold as int {
      return Err(InsufficientShares(s.threshold, |shares|));
    }
    AllFine(shares);
    PrefixCovers(shares, s.threshold as int);
    var recovered := Interpolate(shares[..s.threshold]);
    if |recovered| < 4 {
      return Err(ChecksumMismatch);
    }
    var checksum := recovered[|recovered| - 4..];
    recovered := recovered[..|recovered| - 4];
    if checksum != BigEndian(crc(recovered)) {
      return Err(ChecksumMismatch);
    }
    return Ok(recovered);
  }

  /** A share that fails a check decides the error, ahead of the count and the checksum: the
    * first such share, with the length check before the duplicate check. */
  lemma RecoveryStructuralError(s: Shamir, shares: seq<Share>, crc: seq<bv8> -> bv32, i: nat)
    requires i < |shares|
    requires forall j | 0 <= j < i :: Fine(shares, j)
    requires !Fine(shares, i)
    ensures Recovery(s, shares, crc) == Err(ErrorAt(shares, i))
  {
    StructuralAt(shares, 0, i);
  }

  /** Shares that pass every check but are fewer than the threshold report how many there are. */
  lemma RecoveryTooFew(s: Shamir, shares: seq<Share>, crc: seq<bv8> -> bv32)
    requires 0 < |shares| < s.threshold as int
    requires forall j | 0 <= j < |shares| :: Fine(shares, j)
    ensures Recovery(s, shares, crc) == Err(InsufficientShares(s.threshold, |shares|))
  {
  }

  /** Shares that pass every check, at least as many as the threshold, whose first `threshold`
    * interpolate to a secret followed by its checksum, recover that secret. */
  lemma RecoveryAccepts(s: Shamir, shares: seq<Share>, crc: seq<bv8> -> bv32, secret: seq<bv8>)
    requires 0 < |shares| && s.threshold as int <= |shares|
    requires forall j | 0 <= j < |shares| :: Fine(shares, j)
    requires CoversFirst(shares[..s.threshold])
    requires Interpolation(shares[..s.threshold]) == WithChecksum(secret, crc)
    ensures Recovery(s, shares, crc) == Ok(secret)
  {
    var data := WithChecksum(secret, crc);
    assert data[|data| - 4..] == BigEndian(crc(secret));
  }

  /** Shares that pass every check, at least as many as the threshold, whose first `threshold`
    * interpolate to bytes that are no secret followed by its checksum (too short included),
    * fail the checksum check. */
  lemma RecoveryRejectsChecksum(s: Shamir, shares: seq<Share>, crc: seq<bv8> -> bv32)
    requires 0 < |shares| && s.threshold as int <= |shares|
    requires forall j | 0 <= j < |shares| :: Fine(shares, j)
    requires CoversFirst(shares[..s.threshold])
    requires forall secret: seq<bv8> :: WithChecksum(secret, crc) != Interpolation(shares[..s.threshold])
    ensures Recovery(s, shares, crc) == Err(ChecksumMismatch)
  {
    ChecksumSplit(Interpolation(shares[..s.threshold]), crc);
  }

  /** Bytes whose last four are the checksum of the rest are that rest with its checksum. */
  lemma ChecksumSplit(data: seq<bv8>, crc: seq<bv8> -> bv32)
    ensures |data| >= 4 && data[|data| - 4..] == BigEndian(crc(data[..|data| - 4])) ==>
      WithChecksum(data[..|data| - 4], crc) == data
  {
    if |data| >= 4 {
      assert data == data[..|data| - 4] + data[|data| - 4..];
    }
  }

  /** The round trip: after a split at threshold t >= 1 of a non-empty secret, any t or more
    * distinct shares, in any order, recover the secret. */
  lemma SplitRecover(s: Shamir, secret: seq<bv8>, crc: seq<bv8> -> bv32, polys: seq<seq<GF256>>,
                     picks: seq<nat>)
    requires s.threshold >= 1 && |secret| > 0
    requires SplitPolys(polys, WithChecksum(secret, crc), s.threshold)
    requires s.threshold as int <= |picks|
    requires forall t | 0 <= t < |picks| :: picks[t] < 255
    requires forall u, t | 0 <= u < t < |picks| :: picks[u] != picks[t]
    ensures Recovery(s, Pick(polys, picks), crc) == Ok(secret)
  {
    var shares := Pick(polys, picks);
    var k := s.threshold as int;
    PickDistinct(polys, picks);
    AllFine(shares);
    var first := picks[..k];
    assert shares[..k] == Pick(polys, first);
    EvaluatorRoundTrip(polys, first);
    ConstantTermsOfSplit(polys, WithChecksum(secret, crc), s.threshold);
    RecoveryAccepts(s, shares, crc, secret);
  }

  /** The constant terms of the split polynomials are the bytes they were built for. */
  lemma ConstantTermsOfSplit(polys: seq<seq<GF256>>, data: seq<bv8>, threshold: uint8)
    requires SplitPolys(polys, data, threshold)
    ensures ConstantTerms(polys) == data
  {
  }

  /** The first k shares of a split, k at least the threshold, recover the secret. */
  lemma SplitRecoverFirst(s: Shamir, secret: seq<bv8>, crc: seq<bv8> -> bv32, polys: seq<seq<GF256>>, k: nat)
    requires s.threshold >= 1 && |secret| > 0
    requires SplitPolys(polys, WithChecksum(secret, crc), s.threshold)
    requires s.threshold as int <= k <= 255
    ensures Recovery(s, Evaluator(polys)[..k], crc) == Ok(secret)
  {
    var picks := seq(k, t requires 0 <= t < k => t);
    assert Pick(polys, picks) == Evaluator(polys)[..k];
    SplitRecover(s, secret, crc, polys, picks);
  }

  /** Fewer distinct shares of a split than the threshold are reported as too few. */
  lemma SplitTooFew(s: Shamir, secret: seq<bv8>, crc: seq<bv8> -> bv32, polys: seq<seq<GF256>>,
                    picks: seq<nat>)
    requires SplitPolys(polys, WithChecksum(secret, crc), s.threshold)
    requires 0 < |picks| < s.threshold as int
    requires forall t | 0 <= t < |picks| :: picks[t] < 255
    requires forall u, t | 0 <= u < t < |picks| :: picks[u] != picks[t]
    ensures Recovery(s, Pick(polys, picks), crc) == Err(InsufficientShares(s.threshold, |picks|))
  {
    var shares := Pick(polys, picks);
    PickDistinct(polys, picks);
    AllFine(shares);
    RecoveryTooFew(s, shares, crc);
  }

  /** A copy of the first share appended to shares that pass every check is reported as a
    * duplicate of its x-coordinate. */
  lemma RecoveryAppendedDuplicate(s: Shamir, shares: seq<Share>, crc: seq<bv8> -> bv32)
    requires 0 < |shares|
    requires forall j | 0 <= j < |shares| :: Fine(shares, j)
    ensures Recovery(s, shares + [shares[0]], crc) == Err(DuplicateShares(shares[0].x.value))
  {
    var all := shares + [shares[0]];
    forall j | 0 <= j < |shares|
      ensures Fine(all, j)
    {
      assert Fine(shares, j);
      assert all[..j] == shares[..j];
    }
    assert all[0].x == all[|shares|].x;
    RecoveryStructuralError(s, all, crc, |shares|);
  }
}
