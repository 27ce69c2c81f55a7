/** The older `Shamir(u8)` of the top-level crate: a dealer without checksum and a `recover`
  * that counts distinct x-coordinates but keeps every share, and its share encoding. */
module Legacy {
  import opened Results
  import opened GF256Tables
  import opened GF256
  import opened Shares
  import opened Poly
  import opened Lagrange
  import opened ShareSets
  import Sharing

  /** `Shamir(pub u8)`: the threshold, which is never checked. */
  datatype Shamir = Shamir(threshold: uint8)

  const LENGTH_MISMATCH: string := "All shares must have the same length"
  const NOT_ENOUGH: string := "Not enough shares to recover original secret"

  // ---------------------------------------------------------------------------------------
  // Dealer

  /** `dealer_rng`: one random polynomial per byte of the secret, without checksum and without
    * rejecting an empty secret, and the evaluator's shares. */
  method DealerRng(s: Shamir, secret: seq<bv8>, draws: seq<bv8>)
    returns (shares: seq<Share>, rest: seq<bv8>, ghost polys: seq<seq<GF256>>)
    requires forall i | 0 <= i < |draws| :: draws[i] != 0
    requires Sharing.Consumed(|secret|, s.threshold) <= |draws|
    ensures Sharing.SplitPolys(polys, secret, s.threshold) && Sharing.Drawn(polys, s.threshold, draws)
    ensures shares == Evaluator(polys)
    ensures rest == draws[Sharing.Consumed(|secret|, s.threshold)..]
  {
    var built;
    built, rest := Sharing.BuildPolys(secret, s.threshold, draws);
    polys := built;
    shares := Evaluator(built);
  }

  /** Every dealt share has one y-value per secret byte. */
  lemma DealtShareShape(polys: seq<seq<GF256>>, secret: seq<bv8>, threshold: uint8)
    requires Sharing.SplitPolys(polys, secret, threshold)
    ensures forall j | 0 <= j < 255 :: |Evaluator(polys)[j].y| == |secret|
  {
  }

  // ---------------------------------------------------------------------------------------
  // Recovering

  /** `recover` as written: a length different from the first share's is an error; then too
    * few distinct x-coordinates (none, or fewer than the threshold) is an error; otherwise all
    * shares, duplicates included, are interpolated. */
  function LegacyRecovery(s: Shamir, shares: seq<Share>): (r: Result<seq<bv8>, string>)
    ensures !SameLength(shares) ==> r == Err(LENGTH_MISMATCH)
    ensures SameLength(shares) && (|Keys(shares)| == 0 || |Keys(shares)| < s.threshold as int)
      ==> r == Err(NOT_ENOUGH)
    ensures r.Ok? ==>
      0 < |shares| && s.threshold as int <= |Keys(shares)| && CoversFirst(shares) &&
      r.value == Interpolation(shares)
  {
    if !SameLength(shares) then Err(LENGTH_MISMATCH)
    else if |Keys(shares)| == 0 || |Keys(shares)| < s.threshold as int then Err(NOT_ENOUGH)
    else Ok(Interpolation(shares))
  }

  /** The loop of `recover`: the first share fixes the length and a later one of another length
    * stops it; each x goes into the key set and each share into the values. */
  method Collect(shares: seq<Share>) returns (ok: bool, keys: set<bv8>, values: seq<Share>)
    ensures ok <==> SameLength(shares)
    ensures ok ==> keys == Keys(shares) && values == shares
  {
    var len: Option<nat> := None;
    keys, values := {}, [];
    var i := 0;
    while i < |shares|
      invariant 0 <= i <= |shares|
      invariant len == if i == 0 then None else Some(|shares[0].y|)
      invariant forall j | 0 <= j < i :: |shares[j].y| == |shares[0].y|
      invariant keys == Keys(shares[..i]) && values == shares[..i]
    {
      if len.None? {
        len := Some(|shares[i].y|);
      }
      if Some(|shares[i].y|) != len {
        return false, keys, values;
      }
      assert shares[..i + 1] == shares[..i] + [shares[i]];
      KeysSnoc(shares[..i], shares[i]);
      keys := keys + {shares[i].x.value};
      values := values + [shares[i]];
      i := i + 1;
    }
    assert shares[..i] == shares;
    return true, keys, values;
  }

  /** `recover`: the collected shares, all of them, are interpolated once enough distinct
    * x-coordinates were seen. */
  method Recover(s: Shamir, shares: seq<Share>) returns (r: Result<seq<bv8>, string>)
    ensures r == LegacyRecovery(s, shares)
  {
    var ok, keys, values := Collect(shares);
    if !ok {
      return Err(LENGTH_MISMATCH);
    }
    if |keys| == 0 || |keys| < s.threshold as int {
      return Err(NOT_ENOUGH);
    }
    var recovered := Interpolate(values);
    return Ok(recovered);
  }

  /** The threshold is never validated: at threshold 0 any non-empty shares of one length are
    * accepted. */
  lemma ZeroThresholdAccepts(shares: seq<Share>)
    requires 0 < |shares| && SameLength(shares)
    ensures LegacyRecovery(Shamir(0), shares).Ok?
  {
    assert shares[0].x.value in Keys(shares);
  }

  /** Shares dealt at distinct positions, at least as many as the threshold (at least one),
    * recover the secret. */
  lemma DealRecover(s: Shamir, secret: seq<bv8>, polys: seq<seq<GF256>>, picks: seq<nat>)
    requires s.threshold >= 1
    requires Sharing.SplitPolys(polys, secret, s.threshold)
    requires s.threshold as int <= |picks|
    requires forall t | 0 <= t < |picks| :: picks[t] < 255
    requires forall u, t | 0 <= u < t < |picks| :: picks[u] != picks[t]
    ensures LegacyRecovery(s, Pick(polys, picks)) == Ok(secret)
  {
    var shares := Pick(polys, picks);
    PickDistinct(polys, picks);
    KeysOfDistinct(shares);
    EvaluatorRoundTrip(polys, picks);
    Sharing.ConstantTermsOfSplit(polys, secret, s.threshold);
  }

  /** The source's run at threshold 255: all 255 dealt shares recover the secret. */
  lemma DealRecoverAll(secret: seq<bv8>, polys: seq<seq<GF256>>)
    requires Sharing.SplitPolys(polys, secret, 255)
    ensures LegacyRecovery(Shamir(255), Evaluator(polys)) == Ok(secret)
  {
    var picks := seq(255, t requires 0 <= t < 255 => t);
    assert Pick(polys, picks) == Evaluator(polys);
    DealRecover(Shamir(255), secret, polys, picks);
  }

  /** Fewer distinct shares than the threshold are refused, whatever the duplicates. */
  lemma TooFewDistinct(s: Shamir, shares: seq<Share>)
    requires SameLength(shares) && |Keys(shares)| < s.threshold as int
    ensures LegacyRecovery(s, shares) == Err(NOT_ENOUGH)
  {
  }

  /** The Lagrange basis of a share against its own copy is the empty product. */
  lemma CopyBasis(share: Share)
    ensures Basis([share, share], share.x) == ONE
  {
    var shares := [share, share];
    assert shares[..1] == [share] && [share][..0] == [];
    assert BasisFactors([share], share.x) == BasisFactors([], share.x);
  }

  /** A value added to itself vanishes, so two equal terms sum to zero. */
  lemma SumOfPair(a: GF256)
    ensures Sum([a, a]) == ZERO
  {
    assert [a, a][..1] == [a] && [a][..0] == [];
    AddLaws(a, a, a);
    assert Sum([a]) == Add(ZERO, a) == a;
  }

  /** As many shares as the threshold, one of them repeated, are refused. */
  lemma RepeatRefused(s: Shamir, shares: seq<Share>, i: nat, j: nat)
    requires SameLength(shares) && |shares| <= s.threshold as int
    requires i < j < |shares| && shares[i].x == shares[j].x
    ensures LegacyRecovery(s, shares) == Err(NOT_ENOUGH)
  {
    KeysWithRepeat(shares, i, j);
  }

  /** The source's runs at threshold 255: the first 254 dealt shares are refused, and so are all
    * 255 with the second replaced by a copy of the first. */
  lemma DealtRefused(secret: seq<bv8>, polys: seq<seq<GF256>>)
    requires Sharing.SplitPolys(polys, secret, 255)
    ensures LegacyRecovery(Shamir(255), Evaluator(polys)[..254]) == Err(NOT_ENOUGH)
    ensures LegacyRecovery(Shamir(255), Evaluator(polys)[1 := Evaluator(polys)[0]]) == Err(NOT_ENOUGH)
  {
    var all := Evaluator(polys);
    KeysBound(all[..254]);
    var dup := all[1 := all[0]];
    assert SameLength(dup) by {
      forall j | 0 <= j < |dup|
        ensures |dup[j].y| == |dup[0].y|
      {
      }
    }
    RepeatRefused(Shamir(255), dup, 0, 1);
  }

  /** The legacy share encoding is that of `Shares`: x = 1 with y = [2, 3] encodes to
    * [1, 2, 3], and [1, 2, 3] decodes back to it; one byte does not decode. */
  lemma LegacyEncodingExamples()
    ensures Encoding(Share(GF256(1), [GF256(2), GF256(3)])) == [1, 2, 3]
    ensures FromBytes([1, 2, 3]) == Ok(Share(GF256(1), [GF256(2), GF256(3)]))
    ensures FromBytes([1]) == Err(TOO_SHORT)
  {
    DecodeEncode(Share(GF256(1), [GF256(2), GF256(3)]));
  }

  /** Two copies of one share interpolate to zero: their Lagrange terms are equal, each basis
    * being the empty product, and cancel. */
  lemma TwoCopiesInterpolateToZero(share: Share)
    requires |share.y| == 1
    ensures CoversFirst([share, share]) && Interpolation([share, share]) == [0]
  {
    var shares := [share, share];
    var a := share.y[0];
    CopyBasis(share);
    MulOne(a);
    assert LagrangeTerms(shares, 0) == [a, a];
    SumOfPair(a);
    assert LagrangeAtZero(shares, 0) == ZERO;
  }

  /** As written, a share given twice at threshold 1 recovers the one-byte secret 0, whatever
    * the share. */
  lemma DuplicateRecoversZero(share: Share)
    requires |share.y| == 1
    ensures LegacyRecovery(Shamir(1), [share, share]) == Ok([0])
  {
    KeysSnoc([share], share);
    KeysSnoc([], share);
    assert [] + [share] == [share] && [share] + [share] == [share, share];
    assert Keys([]) == {};
    assert Keys([share, share]) == {share.x.value};
    TwoCopiesInterpolateToZero(share);
  }

  /** As written, a duplicated share is counted once but interpolated twice: at threshold 1 the
    * dealt share of the one-byte secret 7 recovers 7 alone and 0 when given twice. */
  lemma DuplicateRecoversWrongSecret(polys: seq<seq<GF256>>)
    requires Sharing.SplitPolys(polys, [7], 1)
    ensures LegacyRecovery(Shamir(1), [Evaluator(polys)[0]]) == Ok([7])
    ensures LegacyRecovery(Shamir(1), [Evaluator(polys)[0], Evaluator(polys)[0]]) == Ok([0])
  {
    var share := Evaluator(polys)[0];
    assert Pick(polys, [0]) == [share];
    DealRecover(Shamir(1), [7], polys, [0]);
    DuplicateRecoversZero(share);
  }

  // ---------------------------------------------------------------------------------------
  // Corrected recovery

  /** One share of every x-coordinate of the input, none twice. */
  function Dedup(shares: seq<Share>): (kept: seq<Share>)
    ensures Distinct(Xs(kept)) && Keys(kept) == Keys(shares)
    ensures forall t | 0 <= t < |kept| :: kept[t] in shares
  {
    if |shares| == 0 then []
    else
      var n := |shares| - 1;
      var d := Dedup(shares[..n]);
      assert shares == shares[..n] + [shares[n]];
      KeysSnoc(shares[..n], shares[n]);
      if shares[n].x.value in Keys(d) then d
      else
        var kept := d + [shares[n]];
        KeysSnoc(d, shares[n]);
        assert forall t | 0 <= t < |d| :: Xs(kept)[t] != Xs(kept)[|d|] by {
          forall t | 0 <= t < |d| ensures Xs(kept)[t] != Xs(kept)[|d|] {
            assert d[t].x.value in Keys(d);
          }
        }
        kept
  }

  /** Appending a share to the input appends it to the kept shares exactly when its
    * x-coordinate is new. */
  lemma DedupSnoc(shares: seq<Share>, share: Share)
    ensures Dedup(shares + [share]) ==
      if share.x.value in Keys(shares) then Dedup(shares) else Dedup(shares) + [share]
  {
    var all := shares + [share];
    assert all[..|shares|] == shares;
  }

  /** `recover` with the share kept only when its x-coordinate is new, so that the shares
    * interpolated are the distinct ones the count was taken over. */
  function DedupRecovery(s: Shamir, shares: seq<Share>): (r: Result<seq<bv8>, string>)
    ensures !SameLength(shares) ==> r == Err(LENGTH_MISMATCH)
    ensures SameLength(shares) && (|Keys(shares)| == 0 || |Keys(shares)| < s.threshold as int)
      ==> r == Err(NOT_ENOUGH)
    ensures r.Ok? ==>
      0 < |shares| && s.threshold as int <= |Keys(shares)| &&
      CoversFirst(Dedup(shares)) && r.value == Interpolation(Dedup(shares))
  {
    if !SameLength(shares) then Err(LENGTH_MISMATCH)
    else if |Keys(shares)| == 0 || |Keys(shares)| < s.threshold as int then Err(NOT_ENOUGH)
    else
      DedupCovers(shares);
      Ok(Interpolation(Dedup(shares)))
  }

  lemma DedupCovers(shares: seq<Share>)
    requires SameLength(shares)
    ensures CoversFirst(Dedup(shares))
  {
    var d := Dedup(shares);
    if |d| > 0 {
      forall t | 0 <= t < |d|
        ensures |d[t].y| == |shares[0].y|
      {
        assert d[t] in shares;
      }
    }
  }

  /** The corrected loop: a share goes into the values only when its x was not yet a key. */
  method CollectDistinct(shares: seq<Share>) returns (ok: bool, keys: set<bv8>, values: seq<Share>)
    ensures ok <==> SameLength(shares)
    ensures ok ==> keys == Keys(shares) && values == Dedup(shares)
  {
    var len: Option<nat> := None;
    keys, values := {}, [];
    var i := 0;
    while i < |shares|
      invariant 0 <= i <= |shares|
      invariant len == if i == 0 then None else Some(|shares[0].y|)
      invariant forall j | 0 <= j < i :: |shares[j].y| == |shares[0].y|
      invariant keys == Keys(shares[..i]) && values == Dedup(shares[..i])
    {
      if len.None? {
        len := Some(|shares[i].y|);
      }
      if Some(|shares[i].y|) != len {
        return false, keys, values;
      }
      CollectStep(shares, i, keys, values);
      if shares[i].x.value !in keys {
        keys := keys + {shares[i].x.value};
        values := values + [shares[i]];
      }
      i := i + 1;
    }
    assert shares[..i] == shares;
    return true, keys, values;
  }

  /** One step of the corrected loop keeps the keys and the kept shares of the prefix. */
  lemma CollectStep(shares: seq<Share>, i: nat, keys: set<bv8>, values: seq<Share>)
    requires i < |shares| && keys == Keys(shares[..i]) && values == Dedup(shares[..i])
    ensures shares[i].x.value in keys ==>
      keys == Keys(shares[..i + 1]) && values == Dedup(shares[..i + 1])
    ensures shares[i].x.value !in keys ==>
      keys + {shares[i].x.value} == Keys(shares[..i + 1]) &&
      values + [shares[i]] == Dedup(shares[..i + 1])
  {
    assert shares[..i + 1] == shares[..i] + [shares[i]];
    KeysSnoc(shares[..i], shares[i]);
    DedupSnoc(shares[..i], shares[i]);
  }

  /** The corrected `recover`: only the first share of each x-coordinate is interpolated. */
  method DedupRecover(s: Shamir, shares: seq<Share>) returns (r: Result<seq<bv8>, string>)
    ensures r == DedupRecovery(s, shares)
  {
    var ok, keys, values := CollectDistinct(shares);
    if !ok {
      return Err(LENGTH_MISMATCH);
    }
    if |keys| == 0 || |keys| < s.threshold as int {
      return Err(NOT_ENOUGH);
    }
    DedupCovers(shares);
    var recovered := Interpolate(values);
    return Ok(recovered);
  }

  /** Corrected, any dealt shares, repeats allowed, with at least threshold (at least one)
    * distinct positions recover the secret. */
  lemma DedupRecoverDealt(s: Shamir, secret: seq<bv8>, polys: seq<seq<GF256>>, picks: seq<nat>)
    requires s.threshold >= 1
    requires Sharing.SplitPolys(polys, secret, s.threshold)
    requires forall t | 0 <= t < |picks| :: picks[t] < 255
    requires s.threshold as int <= |Keys(Pick(polys, picks))|
    ensures DedupRecovery(s, Pick(polys, picks)) == Ok(secret)
  {
    var shares := Pick(polys, picks);
    var d := Dedup(shares);
    KeysOfDistinct(d);
    var all := Evaluator(polys);
    forall t | 0 <= t < |d|
      ensures |d[t].y| == |polys|
      ensures forall i | 0 <= i < |polys| :: d[t].y[i] == Evaluate(polys[i], d[t].x)
    {
      assert d[t] in shares;
      var u :| 0 <= u < |shares| && shares[u] == d[t];
      assert d[t] == all[picks[u]];
    }
    assert SameLength(shares);
    InterpolationRecovers(d, polys);
    Sharing.ConstantTermsOfSplit(polys, secret, s.threshold);
  }
}
