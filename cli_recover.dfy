/** The `recover` command of the command-line tool: its own share-set validation, which runs
  * every length check before any duplicate check, and the threshold it falls back to. */
module CliRecover {
  import opened Results
  import opened GF256Tables
  import opened GF256
  import opened Shares
  import opened Lagrange
  import opened ShareSets
  import Sharing

  /** The three ways `validate_shares` bails; positions are 1-based. */
  datatype ValidationError =
    | NoShares
    | DifferentLength(position: nat)
    | DuplicateShare(x: bv8, position: nat)

  /** The first share from `from` on whose y-length differs from the first share's. */
  function FirstLengthMismatch(shares: seq<Share>, from: nat): (i: Option<nat>)
    requires from <= |shares|
    ensures i.None? <==> forall j | from <= j < |shares| :: |shares[j].y| == |shares[0].y|
    ensures i.Some? ==>
      from <= i.value < |shares| && |shares[i.value].y| != |shares[0].y| &&
      forall j | from <= j < i.value :: |shares[j].y| == |shares[0].y|
    decreases |shares| - from
  {
    if from == |shares| then None
    else if |shares[from].y| != |shares[0].y| then Some(from)
    else FirstLengthMismatch(shares, from + 1)
  }

  /** The first share from `from` on whose x-coordinate an earlier share already has. */
  function FirstRepeat(shares: seq<Share>, from: nat): (i: Option<nat>)
    requires from <= |shares|
    ensures i.None? <==> forall j | from <= j < |shares| :: !Sharing.Repeated(shares, j)
    ensures i.Some? ==>
      from <= i.value < |shares| && Sharing.Repeated(shares, i.value) &&
      forall j | from <= j < i.value :: !Sharing.Repeated(shares, j)
    decreases |shares| - from
  {
    if from == |shares| then None
    else if Sharing.Repeated(shares, from) then Some(from)
    else FirstRepeat(shares, from + 1)
  }

  /** `validate_shares`: no shares is an error; then the first share of another length, found
    * by a pass over all shares; then, in a second pass, the first repeated x-coordinate. */
  function Validation(shares: seq<Share>): (r: Result<(), ValidationError>)
    ensures r == Err(NoShares) <==> |shares| == 0
    ensures r.Ok? <==> 0 < |shares| && SameLength(shares) && Distinct(Xs(shares))
    ensures r.Err? && r.error.DifferentLength? ==>
      0 < r.error.position <= |shares| && |shares[r.error.position - 1].y| != |shares[0].y| &&
      forall j | 0 <= j < r.error.position - 1 :: |shares[j].y| == |shares[0].y|
    ensures r.Err? && r.error.DuplicateShare? ==>
      SameLength(shares) && 0 < r.error.position <= |shares| &&
      Sharing.Repeated(shares, r.error.position - 1) &&
      r.error.x == shares[r.error.position - 1].x.value &&
      forall j | 0 <= j < r.error.position - 1 :: !Sharing.Repeated(shares, j)
  {
    if |shares| == 0 then Err(NoShares)
    else
      Sharing.AllFine(shares);
      match FirstLengthMismatch(shares, 0)
      case Some(i) => Err(DifferentLength(i + 1))
      case None =>
        match FirstRepeat(shares, 0)
        case Some(j) => Err(DuplicateShare(shares[j].x.value, j + 1))
        case None => Ok(())
  }

  /** The first mismatch is the one the scan stops at. */
  lemma {:induction false} FirstLengthMismatchAt(shares: seq<Share>, from: nat, i: nat)
    requires from <= i < |shares| && |shares[i].y| != |shares[0].y|
    requires forall j | from <= j < i :: |shares[j].y| == |shares[0].y|
    ensures FirstLengthMismatch(shares, from) == Some(i)
    decreases i - from
  {
    if from < i {
      FirstLengthMismatchAt(shares, from + 1, i);
    }
  }

  /** The first repeat is the one the scan stops at. */
  lemma {:induction false} FirstRepeatAt(shares: seq<Share>, from: nat, i: nat)
    requires from <= i < |shares| && Sharing.Repeated(shares, i)
    requires forall j | from <= j < i :: !Sharing.Repeated(shares, j)
    ensures FirstRepeat(shares, from) == Some(i)
    decreases i - from
  {
    if from < i {
      FirstRepeatAt(shares, from + 1, i);
    }
  }

  /** The two passes of `validate_shares`, the second with a set of the x-coordinates seen. */
  method ValidateShares(shares: seq<Share>) returns (r: Result<(), ValidationError>)
    ensures r == Validation(shares)
  {
    if |shares| == 0 {
      return Err(NoShares);
    }
    var expected := |shares[0].y|;
    for i := 0 to |shares|
      invariant forall j | 0 <= j < i :: |shares[j].y| == expected
    {
      if |shares[i].y| != expected {
        FirstLengthMismatchAt(shares, 0, i);
        return Err(DifferentLength(i + 1));
      }
    }
    var xCoords: set<bv8> := {};
    for i := 0 to |shares|
      invariant xCoords == set m | 0 <= m < i :: shares[m].x.value
      invariant forall j | 0 <= j < i :: !Sharing.Repeated(shares, j)
    {
      if shares[i].x.value in xCoords {
        FirstRepeatAt(shares, 0, i);
        return Err(DuplicateShare(shares[i].x.value, i + 1));
      }
      xCoords := xCoords + {shares[i].x.value};
    }
    return Ok(());
  }

  /** The tool and the library accept the same non-empty share sets. */
  lemma AgreesWithLibrary(shares: seq<Share>)
    requires 0 < |shares|
    ensures Validation(shares).Ok? <==> Sharing.StructuralError(shares, 0).None?
  {
    Sharing.AllFine(shares);
  }

  /** A share of another length is reported even after a repeated x-coordinate, where the
    * library reports the repetition: shares (1, [5]), (1, [5]), (2, [5, 6]). */
  lemma OrderDiffersFromLibrary()
    ensures Validation([Share(GF256(1), [GF256(5)]), Share(GF256(1), [GF256(5)]),
      Share(GF256(2), [GF256(5), GF256(6)])]) == Err(DifferentLength(3))
    ensures Sharing.StructuralError([Share(GF256(1), [GF256(5)]), Share(GF256(1), [GF256(5)]),
      Share(GF256(2), [GF256(5), GF256(6)])], 0) == Some(Sharing.DuplicateShares(1))
  {
    var shares := [Share(GF256(1), [GF256(5)]), Share(GF256(1), [GF256(5)]),
      Share(GF256(2), [GF256(5), GF256(6)])];
    FirstLengthMismatchAt(shares, 0, 2);
    assert Sharing.Fine(shares, 0);
    assert !Sharing.Fine(shares, 1) by {
      assert shares[0].x == shares[1].x;
    }
    Sharing.StructuralAt(shares, 0, 1);
  }

  // ---------------------------------------------------------------------------------------
  // Threshold

  /** The threshold `execute` passes on: the explicit one, or the number of shares cast to a
    * byte. */
  function DefaultThreshold(explicit: Option<uint8>, count: nat): (t: uint8)
  {
    match explicit
    case Some(v) => v
    case None => (count % 256) as uint8
  }

  /** An explicit threshold is kept; from 1 to 255 shares the fallback is their number and the
    * library accepts it. */
  lemma DefaultThresholdAccepted(explicit: Option<uint8>, count: nat)
    ensures explicit.Some? ==> DefaultThreshold(explicit, count) == explicit.value
    ensures explicit.None? && 0 < count <= 255 ==>
      Sharing.New(DefaultThreshold(explicit, count)) == Ok(Sharing.Shamir(count as uint8))
  {
  }

  /** Without an explicit threshold the cast wraps: 256 shares give threshold 0, which the library
    * rejects, and 257 give threshold 1. */
  lemma DefaultThresholdWraps(count: nat)
    ensures count % 256 == 0 ==> Sharing.New(DefaultThreshold(None, count)) == Err(Sharing.InvalidThreshold)
    ensures DefaultThreshold(None, 257) == 1
  {
  }
}
