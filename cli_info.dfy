/** The `info` command of the command-line tool: its analysis of a set of shares (common
  * y-length, distinct x-coordinates, duplicates, inferred threshold) and its verdict on whether
  * the set suffices for recovery. */
module CliInfo {
  import opened Results
  import opened GF256Tables
  import opened GF256
  import opened Shares
  import opened Lagrange
  import opened ShareSets

  /** The consistency issues the analysis reports. */
  datatype Issue =
    | DifferentLengths
    | DuplicateX(x: bv8, count: nat)

  /** The analysis of a share set. The per-share records, which only carry file metadata through,
    * are not part of it. */
  datatype ShareSetInfo = ShareSetInfo(
    totalShares: nat,
    uniqueX: nat,
    yLength: Option<nat>,
    inferredThreshold: Option<uint8>,
    issues: seq<Issue>)

  /** How many shares have x-coordinate `x`. */
  function Count(shares: seq<Share>, x: bv8): nat {
    if |shares| == 0 then 0
    else
      var n := |shares| - 1;
      Count(shares[..n], x) + if shares[n].x.value == x then 1 else 0
  }

  /** Appending a share adds one to the count of its key only. */
  lemma CountSnoc(shares: seq<Share>, share: Share, x: bv8)
    ensures Count(shares + [share], x) == Count(shares, x) + if share.x.value == x then 1 else 0
  {
    assert (shares + [share])[..|shares|] == shares;
  }

  /** A key occurs exactly when it is counted at least once. */
  lemma {:induction false} CountPositive(shares: seq<Share>, x: bv8)
    ensures Count(shares, x) > 0 <==> x in Keys(shares)
  {
    if |shares| > 0 {
      var n := |shares| - 1;
      assert shares == shares[..n] + [shares[n]];
      KeysSnoc(shares[..n], shares[n]);
      CountPositive(shares[..n], x);
    }
  }

  /** A key is counted more than once exactly when two shares carry it. */
  lemma {:induction false} CountRepeated(shares: seq<Share>, x: bv8)
    ensures Count(shares, x) > 1 <==>
      exists i, j | 0 <= i < j < |shares| :: shares[i].x.value == x && shares[j].x.value == x
  {
    if |shares| > 0 {
      var n := |shares| - 1;
      var init := shares[..n];
      CountRepeated(init, x);
      CountPositive(init, x);
      if Count(shares, x) > 1 {
        if Count(init, x) > 1 {
          var i, j :| 0 <= i < j < n && init[i].x.value == x && init[j].x.value == x;
          assert shares[i] == init[i] && shares[j] == init[j];
        } else {
          var i :| 0 <= i < n && init[i].x.value == x;
          assert shares[i] == init[i];
        }
      }
      if exists i, j | 0 <= i < j < |shares| :: shares[i].x.value == x && shares[j].x.value == x {
        var i, j :| 0 <= i < j < |shares| && shares[i].x.value == x && shares[j].x.value == x;
        assert init[i] == shares[i];
        if j < n {
          assert init[j] == shares[j];
        } else {
          assert x in Keys(init);
        }
      }
    }
  }

  /** `y_length`: none for no shares, the common length when all agree, none otherwise. */
  function YLength(shares: seq<Share>): (r: Option<nat>)
    ensures r.Some? <==> 0 < |shares| && SameLength(shares)
    ensures r.Some? ==> forall j | 0 <= j < |shares| :: |shares[j].y| == r.value
  {
    if |shares| == 0 then None
    else if SameLength(shares) then Some(|shares[0].y|)
    else None
  }

  /** The first threshold recorded in the shares' metadata. */
  function FirstThreshold(thresholds: seq<Option<uint8>>): (r: Option<uint8>)
    ensures r.None? <==> forall i | 0 <= i < |thresholds| :: thresholds[i].None?
    ensures r.Some? ==>
      exists i | 0 <= i < |thresholds| ::
        thresholds[i] == r && forall k | 0 <= k < i :: thresholds[k].None?
  {
    if |thresholds| == 0 then None
    else if thresholds[0].Some? then thresholds[0]
    else
      var r := FirstThreshold(thresholds[1..]);
      assert forall i | 1 <= i < |thresholds| :: thresholds[i] == thresholds[1..][i - 1];
      if r.Some? then
        ghost var i :| 0 <= i < |thresholds[1..]| && thresholds[1..][i] == r &&
          forall k | 0 <= k < i :: thresholds[1..][k].None?;
        assert thresholds[i + 1] == r;
        r
      else r
  }

  /** `inferred_threshold`: the first recorded threshold, else the number of shares cast to a
    * byte; never none. */
  function InferredThreshold(thresholds: seq<Option<uint8>>, count: nat): (t: uint8)
    ensures FirstThreshold(thresholds).Some? ==> Some(t) == FirstThreshold(thresholds)
    ensures (forall i | 0 <= i < |thresholds| :: thresholds[i].None?) ==> t as int == count % 256
  {
    match FirstThreshold(thresholds)
    case Some(v) => v
    case None => (count % 256) as uint8
  }

  /** The duplicate issues name every key counted more than once, each once, with its count. */
  predicate ReportsDuplicates(shares: seq<Share>, dups: seq<Issue>) {
    (forall i | 0 <= i < |dups| ::
      dups[i].DuplicateX? && dups[i].count == Count(shares, dups[i].x) && dups[i].count > 1) &&
    (forall x | x in Keys(shares) && Count(shares, x) > 1 ::
      exists i | 0 <= i < |dups| :: dups[i] == DuplicateX(x, Count(shares, x))) &&
    (forall i, j | 0 <= i < j < |dups| :: dups[i] != dups[j])
  }

  /** The map holds exactly the keys of the shares, each with its number of shares. */
  ghost predicate CountsOf(shares: seq<Share>, counts: map<GF256, nat>) {
    (forall g :: g in counts <==> g.value in Keys(shares)) &&
    |counts| == |Keys(shares)| &&
    (forall g | g in counts :: counts[g] == Count(shares, g.value))
  }

  /** Counting one more share keeps the map exact. */
  lemma CountStep(shares: seq<Share>, i: nat, counts: map<GF256, nat>)
    requires i < |shares| && CountsOf(shares[..i], counts)
    ensures var x := shares[i].x;
      CountsOf(shares[..i + 1], counts[x := (if x in counts then counts[x] else 0) + 1])
  {
    assert shares[..i + 1] == shares[..i] + [shares[i]];
    StepKeys(shares[..i], shares[i], counts);
    StepCounts(shares[..i], shares[i], counts);
  }

  /** The counts after counting one more share. */
  lemma StepCounts(shares: seq<Share>, share: Share, counts: map<GF256, nat>)
    requires forall g :: g in counts <==> g.value in Keys(shares)
    requires forall g | g in counts :: counts[g] == Count(shares, g.value)
    ensures var next := counts[share.x := (if share.x in counts then counts[share.x] else 0) + 1];
      forall g | g in next :: next[g] == Count(shares + [share], g.value)
  {
    var next := counts[share.x := (if share.x in counts then counts[share.x] else 0) + 1];
    CountPositive(shares, share.x.value);
    forall g | g in next
      ensures next[g] == Count(shares + [share], g.value)
    {
      CountSnoc(shares, share, g.value);
      if g != share.x {
        assert next[g] == counts[g];
      }
    }
  }

  /** A map whose keys wrap the bytes of `keys` one to one still does after an update at `x`,
    * for the bytes of `keys` and `x`. */
  lemma UpdateKeys(counts: map<GF256, nat>, keys: set<bv8>, x: GF256, v: nat)
    requires forall g :: g in counts <==> g.value in keys
    requires |counts| == |keys|
    ensures forall g :: g in counts[x := v] <==> g.value in keys + {x.value}
    ensures |counts[x := v]| == |keys + {x.value}|
  {
    if x in counts {
      assert counts[x := v].Keys == counts.Keys;
      assert keys + {x.value} == keys;
    } else {
      assert counts[x := v].Keys == counts.Keys + {x};
      assert x.value !in keys;
    }
  }

  /** The keys and their number after counting one more share. */
  lemma StepKeys(shares: seq<Share>, share: Share, counts: map<GF256, nat>)
    requires forall g :: g in counts <==> g.value in Keys(shares)
    requires |counts| == |Keys(shares)|
    ensures var next := counts[share.x := (if share.x in counts then counts[share.x] else 0) + 1];
      (forall g :: g in next <==> g.value in Keys(shares + [share])) &&
      |next| == |Keys(shares + [share])|
  {
    KeysSnoc(shares, share);
    UpdateKeys(counts, Keys(shares), share.x, (if share.x in counts then counts[share.x] else 0) + 1);
  }

  /** The counting loop: one entry per distinct x-coordinate, holding its number of shares.
    * The map is keyed by the field element, which wraps the byte one to one. */
  method CountXs(shares: seq<Share>) returns (counts: map<GF256, nat>)
    ensures forall g :: g in counts <==> g.value in Keys(shares)
    ensures |counts| == |Keys(shares)|
    ensures forall g | g in counts :: counts[g] == Count(shares, g.value)
  {
    counts := map[];
    for i := 0 to |shares|
      invariant CountsOf(shares[..i], counts)
    {
      var x := shares[i].x;
      var previous := if x in counts then counts[x] else 0;
      CountStep(shares, i, counts);
      counts := counts[x := previous + 1];
    }
    assert shares[..|shares|] == shares;
  }

  /** The duplicate issues for the keys in `done`: each key of `done` counted more than once
    * is named once, with its count, and nothing else is. */
  predicate ReportsDuplicatesAmong(shares: seq<Share>, done: set<GF256>, dups: seq<Issue>) {
    (forall i | 0 <= i < |dups| ::
      dups[i].DuplicateX? && GF256(dups[i].x) in done &&
      dups[i].count == Count(shares, dups[i].x) && dups[i].count > 1) &&
    (forall g | g in done && Count(shares, g.value) > 1 ::
      exists i | 0 <= i < |dups| :: dups[i] == DuplicateX(g.value, Count(shares, g.value))) &&
    (forall i, j | 0 <= i < j < |dups| :: dups[i] != dups[j])
  }

  /** Visiting one more key keeps the report exact. */
  lemma VisitKey(shares: seq<Share>, done: set<GF256>, dups: seq<Issue>, x: GF256)
    requires ReportsDuplicatesAmong(shares, done, dups) && x !in done
    ensures ReportsDuplicatesAmong(shares, done + {x},
      if Count(shares, x.value) > 1 then dups + [DuplicateX(x.value, Count(shares, x.value))]
      else dups)
  {
    var c := Count(shares, x.value);
    var next := if c > 1 then dups + [DuplicateX(x.value, c)] else dups;
    forall g | g in done + {x} && Count(shares, g.value) > 1
      ensures exists i | 0 <= i < |next| :: next[i] == DuplicateX(g.value, Count(shares, g.value))
    {
      if g == x {
        assert next[|next| - 1] == DuplicateX(g.value, Count(shares, g.value));
      } else {
        var i :| 0 <= i < |dups| && dups[i] == DuplicateX(g.value, Count(shares, g.value));
        assert next[i] == dups[i];
      }
    }
  }

  /** The loop over the counts, visiting the keys in an order the model leaves open. */
  method DuplicateIssues(shares: seq<Share>, counts: map<GF256, nat>) returns (dups: seq<Issue>)
    requires forall g | g in counts :: counts[g] == Count(shares, g.value)
    ensures ReportsDuplicatesAmong(shares, counts.Keys, dups)
  {
    dups := [];
    var remaining := counts.Keys;
    ghost var done: set<GF256> := {};
    while remaining != {}
      invariant remaining <= counts.Keys && done == counts.Keys - remaining
      invariant ReportsDuplicatesAmong(shares, done, dups)
      decreases |remaining|
    {
      var x :| x in remaining;
      VisitKey(shares, done, dups, x);
      var count := counts[x];
      dups := if count > 1 then dups + [DuplicateX(x.value, count)] else dups;
      done := done + {x};
      remaining := remaining - {x};
    }
  }

  /** Once every key is visited, the report names all duplicates. */
  lemma AllKeysVisited(shares: seq<Share>, done: set<GF256>, dups: seq<Issue>)
    requires ReportsDuplicatesAmong(shares, done, dups)
    requires forall g :: g in done <==> g.value in Keys(shares)
    ensures ReportsDuplicates(shares, dups)
  {
    forall x | x in Keys(shares) && Count(shares, x) > 1
      ensures exists i | 0 <= i < |dups| :: dups[i] == DuplicateX(x, Count(shares, x))
    {
      assert GF256(x) in done;
    }
  }

  /** `analyze_share_set`: the shares and the thresholds recorded in their metadata, in order. */
  method AnalyzeShareSet(shares: seq<Share>, thresholds: seq<Option<uint8>>)
    returns (info: ShareSetInfo)
    ensures info.totalShares == |shares| && info.uniqueX == |Keys(shares)|
    ensures info.yLength == YLength(shares)
    ensures info.inferredThreshold == Some(InferredThreshold(thresholds, |shares|))
    ensures 0 < |shares| && !SameLength(shares) ==>
      0 < |info.issues| && info.issues[0] == DifferentLengths &&
      ReportsDuplicates(shares, info.issues[1..])
    ensures |shares| == 0 || SameLength(shares) ==> ReportsDuplicates(shares, info.issues)
  {
    var issues: seq<Issue> := [];
    var yLength: Option<nat>;
    if |shares| == 0 {
      yLength := None;
    } else if SameLength(shares) {
      yLength := Some(|shares[0].y|);
    } else {
      issues := issues + [DifferentLengths];
      yLength := None;
    }
    var counts := CountXs(shares);
    var dups := DuplicateIssues(shares, counts);
    AllKeysVisited(shares, counts.Keys, dups);
    assert (issues + dups)[|issues|..] == dups;
    info := ShareSetInfo(|shares|, |counts|, yLength,
      Some(InferredThreshold(thresholds, |shares|)), issues + dups);
  }

  /** No duplicate issue is reported exactly when the x-coordinates are distinct. */
  lemma {:induction false} NoDuplicatesIffDistinct(shares: seq<Share>, dups: seq<Issue>)
    requires ReportsDuplicates(shares, dups)
    ensures |dups| == 0 <==> Distinct(Xs(shares))
  {
    if |dups| == 0 {
      forall i, j | 0 <= i < j < |shares|
        ensures Xs(shares)[i] != Xs(shares)[j]
      {
        var x := shares[i].x.value;
        CountRepeated(shares, x);
        assert x in Keys(shares);
      }
    } else {
      var x := dups[0].x;
      CountRepeated(shares, x);
      var i, j :| 0 <= i < j < |shares| && shares[i].x.value == x && shares[j].x.value == x;
      assert Xs(shares)[i] == Xs(shares)[j];
    }
  }

  // ---------------------------------------------------------------------------------------
  // Verdict

  /** The recovery status the report prints: sufficient when at least as many distinct
    * x-coordinates as the threshold, and unknown without a threshold. */
  function Sufficient(info: ShareSetInfo): Option<bool> {
    match info.inferredThreshold
    case Some(t) => Some(info.uniqueX >= t as int)
    case None => None
  }

  /** For an analysed set the status is always known, and sufficient exactly when the distinct
    * x-coordinates reach the inferred threshold. */
  lemma VerdictOfAnalysis(shares: seq<Share>, thresholds: seq<Option<uint8>>, info: ShareSetInfo)
    requires info.uniqueX == |Keys(shares)|
    requires info.inferredThreshold == Some(InferredThreshold(thresholds, |shares|))
    ensures Sufficient(info) == Some(|Keys(shares)| >= InferredThreshold(thresholds, |shares|) as int)
  {
  }

  /** With no threshold recorded, 1 to 255 shares with distinct x-coordinates are judged
    * sufficient, because the fallback threshold is their number. */
  lemma DistinctSetSufficient(shares: seq<Share>, thresholds: seq<Option<uint8>>, info: ShareSetInfo)
    requires 0 < |shares| <= 255 && Distinct(Xs(shares))
    requires forall i | 0 <= i < |thresholds| :: thresholds[i].None?
    requires info.uniqueX == |Keys(shares)|
    requires info.inferredThreshold == Some(InferredThreshold(thresholds, |shares|))
    ensures Sufficient(info) == Some(true)
  {
    KeysOfDistinct(shares);
  }

  /** Without recorded thresholds the count is cast to a byte: 256 shares give the inferred
    * threshold 0, which any set meets. */
  lemma WrappedThresholdSufficient(shares: seq<Share>, thresholds: seq<Option<uint8>>, info: ShareSetInfo)
    requires |shares| == 256
    requires forall i | 0 <= i < |thresholds| :: thresholds[i].None?
    requires info.inferredThreshold == Some(InferredThreshold(thresholds, |shares|))
    ensures info.inferredThreshold == Some(0) && Sufficient(info) == Some(true)
  {
  }

  /** A recorded threshold wins over the count: at threshold 3, two distinct shares plus a copy
    * of one of them are judged insufficient. */
  lemma DuplicateNotSufficient(a: Share, b: Share)
    requires a.x != b.x
    ensures Sufficient(ShareSetInfo(3, |Keys([a, b, a])|, None,
      Some(InferredThreshold([Some(3)], 3)), [])) == Some(false)
  {
    assert Keys([a, b, a]) == {a.x.value, b.x.value} by {
      assert [a, b, a][0] == a && [a, b, a][1] == b && [a, b, a][2] == a;
    }
  }
}
