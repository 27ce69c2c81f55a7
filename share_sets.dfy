/** Sets of shares: their distinct x-coordinates and whether their y-vectors agree in length. */
module ShareSets {
  import opened Shares
  import opened Lagrange

  /** The distinct x-coordinates of the shares. */
  function Keys(shares: seq<Share>): set<bv8> {
    set j | 0 <= j < |shares| :: shares[j].x.value
  }

  /** All shares have the first share's y-length. */
  predicate SameLength(shares: seq<Share>) {
    forall j | 0 <= j < |shares| :: |shares[j].y| == |shares[0].y|
  }

  /** Appending a share adds its x-coordinate to the keys. */
  lemma KeysSnoc(shares: seq<Share>, share: Share)
    ensures Keys(shares + [share]) == Keys(shares) + {share.x.value}
  {
    var all := shares + [share];
    assert all[|shares|] == share;
    forall k | k in Keys(all)
      ensures k in Keys(shares) + {share.x.value}
    {
      var j :| 0 <= j < |all| && all[j].x.value == k;
      if j < |shares| {
        assert shares[j] == all[j];
      }
    }
    forall k | k in Keys(shares)
      ensures k in Keys(all)
    {
      var j :| 0 <= j < |shares| && shares[j].x.value == k;
      assert all[j] == shares[j];
    }
  }

  /** Distinct x-coordinates are as many as the shares. */
  lemma {:induction false} KeysOfDistinct(shares: seq<Share>)
    requires Distinct(Xs(shares))
    ensures |Keys(shares)| == |shares|
  {
    if |shares| > 0 {
      var n := |shares| - 1;
      forall i, j | 0 <= i < j < n
        ensures Xs(shares[..n])[i] != Xs(shares[..n])[j]
      {
        assert Xs(shares)[i] != Xs(shares)[j];
      }
      KeysOfDistinct(shares[..n]);
      assert shares == shares[..n] + [shares[n]];
      KeysSnoc(shares[..n], shares[n]);
      forall j | 0 <= j < n
        ensures shares[j].x.value != shares[n].x.value
      {
        assert Xs(shares)[j] != Xs(shares)[n];
      }
    }
  }

  /** There are no more keys than shares. */
  lemma {:induction false} KeysBound(shares: seq<Share>)
    ensures |Keys(shares)| <= |shares|
  {
    if |shares| > 0 {
      var n := |shares| - 1;
      assert shares == shares[..n] + [shares[n]];
      KeysSnoc(shares[..n], shares[n]);
      KeysBound(shares[..n]);
    }
  }

  /** A repeated x-coordinate leaves fewer keys than shares. */
  lemma KeysWithRepeat(shares: seq<Share>, i: nat, j: nat)
    requires i < j < |shares| && shares[i].x == shares[j].x
    ensures |Keys(shares)| < |shares|
  {
    var rest := shares[..j] + shares[j + 1..];
    forall k | k in Keys(shares)
      ensures k in Keys(rest)
    {
      var m :| 0 <= m < |shares| && shares[m].x.value == k;
      if m < j {
        assert rest[m] == shares[m];
      } else if m == j {
        assert rest[i] == shares[i];
      } else {
        assert rest[m - 1] == shares[m];
      }
    }
    forall k | k in Keys(rest)
      ensures k in Keys(shares)
    {
      var m :| 0 <= m < |rest| && rest[m].x.value == k;
      if m < j {
        assert rest[m] == shares[m];
      } else {
        assert rest[m] == shares[m + 1];
      }
    }
    assert Keys(shares) == Keys(rest);
    KeysBound(rest);
  }
}
