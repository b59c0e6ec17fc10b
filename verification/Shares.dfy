/** How many of the 1000 buckets each variant gets, and how many change hands when the
    percentages change. */
module Shares {
  import opened Entities
  import opened Bucketing

  ghost function Interval(lo: nat, hi: nat): set<nat> {
    set b: nat | b < hi && Reaches(lo, b)
  }

  predicate Reaches(lo: nat, b: nat) {
    lo <= b
  }

  lemma {:induction false} IntervalSize(lo: nat, hi: nat)
    requires lo <= hi
    ensures |Interval(lo, hi)| == hi - lo
  {
    if lo == hi {
      assert Interval(lo, hi) == {};
    } else {
      assert Interval(lo, hi) == Interval(lo, hi - 1) + {hi - 1};
      IntervalSize(lo, hi - 1);
    }
  }

  // ----- exact shares -----

  /** The buckets whose rollout assigns the variant. */
  ghost function BucketsOf(d: DistributionArray, variantID: nat, rolloutPercent: nat): set<nat> {
    set b: nat | b < TOTAL_BUCKET_NUM && RolloutBucket(d, b, rolloutPercent) == Assigned(variantID)
  }

  /** The variant's share of the first `k` entries: the admitted part of each of its intervals. */
  function Share(ds: seq<Distribution>, variantID: nat, rolloutPercent: nat, k: nat): nat
    requires k <= |ds|
  {
    if k == 0 then 0
    else
      Share(ds, variantID, rolloutPercent, k - 1)
      + if ds[k - 1].variantID == variantID then Admitted(Width(ds[k - 1]), rolloutPercent) else 0
  }

  ghost function BucketsBelow(ds: seq<Distribution>, variantID: nat, rolloutPercent: nat, k: nat): set<nat>
    requires k <= |ds|
  {
    set b: nat | b < Edge(ds, k) && Walk(ds, b, rolloutPercent) == Assigned(variantID)
  }

  lemma BucketsOfEntry(ds: seq<Distribution>, variantID: nat, rolloutPercent: nat, k: nat)
    requires k < |ds|
    ensures BucketsBelow(ds, variantID, rolloutPercent, k + 1)
            == BucketsBelow(ds, variantID, rolloutPercent, k)
               + if ds[k].variantID == variantID
                 then Interval(Edge(ds, k), Edge(ds, k) + Admitted(Width(ds[k]), rolloutPercent)) else {}
  {
    EdgeStep(ds, k);
    AdmittedAtMostWidth(Width(ds[k]), rolloutPercent);
    forall b: nat | Edge(ds, k) <= b < Edge(ds, k + 1)
      ensures Walk(ds, b, rolloutPercent)
              == if b - Edge(ds, k) < Admitted(Width(ds[k]), rolloutPercent)
                 then Assigned(ds[k].variantID) else Withheld
    {
      WalkReaches(ds, b, rolloutPercent, k);
    }
  }

  lemma {:induction false} BucketsBelowCount(ds: seq<Distribution>, variantID: nat, rolloutPercent: nat, k: nat)
    requires k <= |ds|
    ensures |BucketsBelow(ds, variantID, rolloutPercent, k)| == Share(ds, variantID, rolloutPercent, k)
  {
    if k == 0 {
      assert BucketsBelow(ds, variantID, rolloutPercent, 0) == {};
    } else {
      BucketsBelowCount(ds, variantID, rolloutPercent, k - 1);
      BucketsOfEntry(ds, variantID, rolloutPercent, k - 1);
      var lo := Edge(ds, k - 1);
      var part := Interval(lo, lo + Admitted(Width(ds[k - 1]), rolloutPercent));
      IntervalSize(lo, lo + Admitted(Width(ds[k - 1]), rolloutPercent));
      assert BucketsBelow(ds, variantID, rolloutPercent, k - 1) !! part;
    }
  }

  lemma BucketsOfIsBelowTheEnd(d: DistributionArray, ds: seq<Distribution>, variantID: nat, rolloutPercent: nat)
    requires Tabulates(d, ds) && Sum(ds) == 100 && RolloutFits(rolloutPercent)
    ensures BucketsOf(d, variantID, rolloutPercent) == BucketsBelow(ds, variantID, rolloutPercent, |ds|)
  {
    SumOfTail(ds, |ds|);
    forall b: nat | b < TOTAL_BUCKET_NUM
      ensures RolloutBucket(d, b, rolloutPercent) == Walk(ds, b, rolloutPercent)
    {
      TableRefinesWalk(d, ds, b, rolloutPercent);
    }
  }

  /** A variant gets exactly the admitted part of each of its entries, whether or not the
      list names it more than once. */
  lemma ExactShares(ds: seq<Distribution>, variantID: nat, rolloutPercent: nat)
    requires Sum(ds) == 100 && RolloutFits(rolloutPercent)
    ensures |BucketsOf(ArrayOf(ds), variantID, rolloutPercent)| == Share(ds, variantID, rolloutPercent, |ds|)
  {
    ArrayTabulates(ds);
    BucketsOfIsBelowTheEnd(ArrayOf(ds), ds, variantID, rolloutPercent);
    BucketsBelowCount(ds, variantID, rolloutPercent, |ds|);
  }

  ghost predicate DistinctVariants(ds: seq<Distribution>) {
    forall i, j :: 0 <= i < j < |ds| ==> ds[i].variantID != ds[j].variantID
  }

  lemma BucketOfVariant(d: DistributionArray, ds: seq<Distribution>, i: nat, rolloutPercent: nat, b: nat)
    requires Tabulates(d, ds) && Sum(ds) == 100 && DistinctVariants(ds) && i < |ds| && RolloutFits(rolloutPercent)
    requires b < TOTAL_BUCKET_NUM
    ensures RolloutBucket(d, b, rolloutPercent) == Assigned(ds[i].variantID)
            <==> Edge(ds, i) <= b < Edge(ds, i) + Admitted(Width(ds[i]), rolloutPercent)
  {
    TableRefinesWalk(d, ds, b, rolloutPercent);
    BucketByNumFindsTheInterval(d, ds, b);
    var k := BucketByNum(d, b).value;
    WalkReaches(ds, b, rolloutPercent, k);
    EdgeStep(ds, i);
    AdmittedAtMostWidth(Width(ds[i]), rolloutPercent);
    if Edge(ds, i) <= b < Edge(ds, i + 1) {
      IntervalUnique(ds, b, i, k);
    }
  }

  lemma AdmittedWithinBuckets(ds: seq<Distribution>, i: nat, rolloutPercent: nat)
    requires Sum(ds) == 100 && i < |ds|
    ensures Edge(ds, i) + Admitted(Width(ds[i]), rolloutPercent) <= TOTAL_BUCKET_NUM
  {
    SumOfTail(ds, i + 1);
    EdgeStep(ds, i);
    AdmittedAtMostWidth(Width(ds[i]), rolloutPercent);
  }

  lemma InBuckets(d: DistributionArray, variantID: nat, rolloutPercent: nat, b: nat)
    ensures b in BucketsOf(d, variantID, rolloutPercent)
            <==> b < TOTAL_BUCKET_NUM && RolloutBucket(d, b, rolloutPercent) == Assigned(variantID)
  {
  }

  lemma VariantBucket(ds: seq<Distribution>, i: nat, rolloutPercent: nat, b: nat)
    requires Sum(ds) == 100 && DistinctVariants(ds) && i < |ds| && RolloutFits(rolloutPercent)
    ensures b in BucketsOf(ArrayOf(ds), ds[i].variantID, rolloutPercent)
            <==> Edge(ds, i) <= b < Edge(ds, i) + Admitted(Width(ds[i]), rolloutPercent)
  {
    InBuckets(ArrayOf(ds), ds[i].variantID, rolloutPercent, b);
    AdmittedWithinBuckets(ds, i, rolloutPercent);
    if b < TOTAL_BUCKET_NUM {
      ArrayTabulates(ds);
      BucketOfVariant(ArrayOf(ds), ds, i, rolloutPercent, b);
    }
  }

  lemma IntervalCount(s: set<nat>, lo: nat, n: nat)
    requires forall b :: b in s <==> lo <= b < lo + n
    ensures |s| == n
  {
    assert s == Interval(lo, lo + n);
    IntervalSize(lo, lo + n);
  }

  /** The documented promise: with distinct variants, a variant of percent p owns an interval
      of 10*p consecutive buckets, and a rollout percentage admits exactly the first
      `Admitted` ones of them. */
  lemma VariantShare(ds: seq<Distribution>, i: nat, rolloutPercent: nat)
    requires Sum(ds) == 100 && DistinctVariants(ds) && i < |ds| && RolloutFits(rolloutPercent)
    ensures var buckets := BucketsOf(ArrayOf(ds), ds[i].variantID, rolloutPercent);
            var n := Admitted(10 * ds[i].percent, rolloutPercent);
            |buckets| == n && forall b :: b in buckets <==> Edge(ds, i) <= b < Edge(ds, i) + n
  {
    forall b: nat
      ensures b in BucketsOf(ArrayOf(ds), ds[i].variantID, rolloutPercent)
              <==> Edge(ds, i) <= b < Edge(ds, i) + Admitted(Width(ds[i]), rolloutPercent)
    {
      VariantBucket(ds, i, rolloutPercent, b);
    }
    IntervalCount(BucketsOf(ArrayOf(ds), ds[i].variantID, rolloutPercent), Edge(ds, i),
        Admitted(Width(ds[i]), rolloutPercent));
  }

  /** How close the admitted part of `w` buckets is to the rollout percentage: everything at
      100, nothing at 0, in between rounded up when the fraction of a bucket that is left over
      reaches R hundredths, else down. So it is off by less than one bucket, and exact if and
      only if R percent of the width is a whole number of buckets. */
  lemma AdmittedIsWithinOneBucket(w: nat, rolloutPercent: nat)
    requires rolloutPercent <= 100
    ensures Admitted(w, rolloutPercent) <= w
    ensures Admitted(w, 100) == w && Admitted(w, 0) == 0
    ensures w > 0 && 0 < rolloutPercent < 100 ==>
              Admitted(w, rolloutPercent) == (w - 1) * rolloutPercent / 100 + 1
              == w * rolloutPercent / 100 + if w * rolloutPercent % 100 >= rolloutPercent then 1 else 0
    ensures -100 < 100 * Admitted(w, rolloutPercent) - w * rolloutPercent < 100
    ensures 100 * Admitted(w, rolloutPercent) == w * rolloutPercent <==> w * rolloutPercent % 100 == 0
  {
    AdmittedAtMostWidth(w, rolloutPercent);
    if w > 0 && 0 < rolloutPercent < 100 {
      assert (w - 1) * rolloutPercent == w * rolloutPercent - rolloutPercent;
      Rounding(w * rolloutPercent, rolloutPercent);
    }
  }

  lemma Rounding(x: nat, r: nat)
    requires r <= x && 0 < r < 100
    ensures (x - r) / 100 + 1 == x / 100 + if x % 100 >= r then 1 else 0
  {
  }

  // ----- reassignment stability -----

  /** The owner of a bucket before the rollout percentage is consulted. */
  function OwnerOf(ds: seq<Distribution>, bucket: nat): Option<nat> {
    match BucketByNum(ArrayOf(ds), bucket)
    case None => None
    case Some(i) => Some(ds[i].variantID)
  }

  ghost function Changed(ds: seq<Distribution>, ds': seq<Distribution>): set<nat> {
    set b: nat | b < TOTAL_BUCKET_NUM && OwnerOf(ds, b) != OwnerOf(ds', b)
  }

  lemma InChanged(ds: seq<Distribution>, ds': seq<Distribution>, b: nat)
    ensures b in Changed(ds, ds') <==> b < TOTAL_BUCKET_NUM && OwnerOf(ds, b) != OwnerOf(ds', b)
  {
  }

  function Distance(x: nat, y: nat): nat {
    if x <= y then y - x else x - y
  }

  /** How far the boundaries 1..k between the variants have moved, in buckets. */
  function Shift(ds: seq<Distribution>, ds': seq<Distribution>, k: nat): nat
    requires k <= |ds| == |ds'|
  {
    if k == 0 then 0 else Shift(ds, ds', k - 1) + Distance(Edge(ds, k), Edge(ds', k))
  }

  /** The buckets that boundary `k` swept over. */
  ghost function Swept(ds: seq<Distribution>, ds': seq<Distribution>, k: nat): set<nat>
    requires k <= |ds| == |ds'|
  {
    Interval(Edge(ds, k), Edge(ds', k)) + Interval(Edge(ds', k), Edge(ds, k))
  }

  ghost function SweptUpTo(ds: seq<Distribution>, ds': seq<Distribution>, k: nat): set<nat>
    requires k <= |ds| == |ds'|
  {
    if k == 0 then {} else SweptUpTo(ds, ds', k - 1) + Swept(ds, ds', k)
  }

  lemma SweptSize(ds: seq<Distribution>, ds': seq<Distribution>, k: nat)
    requires k <= |ds| == |ds'|
    ensures |Swept(ds, ds', k)| == Distance(Edge(ds, k), Edge(ds', k))
  {
    var x, y := Edge(ds, k), Edge(ds', k);
    if x <= y {
      assert Swept(ds, ds', k) == Interval(x, y);
      IntervalSize(x, y);
    } else {
      assert Swept(ds, ds', k) == Interval(y, x);
      IntervalSize(y, x);
    }
  }

  lemma {:induction false} SweptUpToSize(ds: seq<Distribution>, ds': seq<Distribution>, k: nat)
    requires k <= |ds| == |ds'|
    ensures |SweptUpTo(ds, ds', k)| <= Shift(ds, ds', k)
  {
    if k > 0 {
      SweptUpToSize(ds, ds', k - 1);
      SweptSize(ds, ds', k);
      UnionSize(SweptUpTo(ds, ds', k - 1), Swept(ds, ds', k), Shift(ds, ds', k - 1),
          Distance(Edge(ds, k), Edge(ds', k)));
    }
  }

  lemma UnionSize(s: set<nat>, t: set<nat>, m: nat, n: nat)
    requires |s| <= m && |t| <= n
    ensures |s + t| <= m + n
  {
    assert |s + t| == |s| + |t - s| && |t - s| <= |t| by {
      assert s + t == s + (t - s);
      assert t == (t - s) + (t * s);
    }
  }

  lemma {:induction false} SweptContains(ds: seq<Distribution>, ds': seq<Distribution>, k: nat, j: nat, b: nat)
    requires 1 <= j <= k <= |ds| == |ds'| && b in Swept(ds, ds', j)
    ensures b in SweptUpTo(ds, ds', k)
  {
    if j < k {
      SweptContains(ds, ds', k - 1, j, b);
    }
  }

  ghost predicate SameVariants(ds: seq<Distribution>, ds': seq<Distribution>) {
    |ds| == |ds'| && forall i :: 0 <= i < |ds| ==> ds[i].variantID == ds'[i].variantID
  }

  lemma OwnerInterval(ds: seq<Distribution>, b: nat) returns (i: nat)
    requires Sum(ds) == 100 && b < TOTAL_BUCKET_NUM
    ensures i < |ds| && OwnerOf(ds, b) == Some(ds[i].variantID)
    ensures Edge(ds, i) <= b < Edge(ds, i + 1)
  {
    ArrayTabulates(ds);
    BucketByNumFindsTheInterval(ArrayOf(ds), ds, b);
    i := BucketByNum(ArrayOf(ds), b).value;
  }

  /** A bucket that no interior boundary passed over keeps its variant. */
  lemma ChangedIsSwept(ds: seq<Distribution>, ds': seq<Distribution>, b: nat)
    requires SameVariants(ds, ds') && Sum(ds) == Sum(ds') == 100
    requires b < TOTAL_BUCKET_NUM && OwnerOf(ds, b) != OwnerOf(ds', b)
    ensures |ds| >= 1 && b in SweptUpTo(ds, ds', |ds| - 1)
  {
    var i := OwnerInterval(ds, b);
    var i' := OwnerInterval(ds', b);
    OwnersAreSwept(ds, ds', i, i', b);
  }

  lemma OwnersAreSwept(ds: seq<Distribution>, ds': seq<Distribution>, i: nat, i': nat, b: nat)
    requires |ds| == |ds'| && i < |ds| && i' < |ds| && i != i'
    requires Edge(ds, i) <= b < Edge(ds, i + 1) && Edge(ds', i') <= b < Edge(ds', i' + 1)
    ensures b in SweptUpTo(ds, ds', |ds| - 1)
  {
    var k := BoundaryBetween(ds, ds', i, i', b);
    PassedOver(ds, ds', k, b);
    SweptContains(ds, ds', |ds| - 1, k, b);
  }

  lemma BoundaryBetween(ds: seq<Distribution>, ds': seq<Distribution>, i: nat, i': nat, b: nat) returns (k: nat)
    requires |ds| == |ds'| && i < |ds| && i' < |ds| && i != i'
    requires Edge(ds, i) <= b < Edge(ds, i + 1) && Edge(ds', i') <= b < Edge(ds', i' + 1)
    ensures 1 <= k < |ds| && (b < Edge(ds, k)) != (b < Edge(ds', k))
  {
    if i < i' {
      k := i + 1;
      EdgesAscend(ds', k, i');
    } else {
      k := i' + 1;
      EdgesAscend(ds, k, i);
    }
  }

  lemma PassedOver(ds: seq<Distribution>, ds': seq<Distribution>, k: nat, b: nat)
    requires k <= |ds| == |ds'|
    ensures b in Swept(ds, ds', k) <==> (b < Edge(ds, k)) != (b < Edge(ds', k))
  {
  }

  /** Consistent hashing: changing the percentages of the same ordered variants moves at
      most as many buckets as the interior boundaries moved, exactly so for two variants. */
  lemma ReassignmentStability(ds: seq<Distribution>, ds': seq<Distribution>)
    requires SameVariants(ds, ds') && Sum(ds) == Sum(ds') == 100
    ensures |ds| >= 1
    ensures |Changed(ds, ds')| <= Shift(ds, ds', |ds| - 1)
    ensures |ds| == 2 && DistinctVariants(ds) ==> |Changed(ds, ds')| == 10 * Distance(ds[0].percent, ds'[0].percent)
  {
    var swept := SweptUpTo(ds, ds', |ds| - 1);
    forall b | b in Changed(ds, ds')
      ensures b in swept
    {
      InChanged(ds, ds', b);
      ChangedIsSwept(ds, ds', b);
    }
    SubsetSize(Changed(ds, ds'), swept);
    SweptUpToSize(ds, ds', |ds| - 1);
    if |ds| == 2 && DistinctVariants(ds) {
      TwoVariantsChange(ds, ds');
    }
  }

  lemma SubsetSize(s: set<nat>, t: set<nat>)
    requires s <= t
    ensures |s| <= |t|
  {
    assert t == s + (t - s);
  }

  lemma TwoVariantsChange(ds: seq<Distribution>, ds': seq<Distribution>)
    requires SameVariants(ds, ds') && |ds| == 2 && DistinctVariants(ds) && Sum(ds) == Sum(ds') == 100
    ensures |Changed(ds, ds')| == 10 * Distance(ds[0].percent, ds'[0].percent)
  {
    forall b: nat
      ensures b in Changed(ds, ds') <==> b in Swept(ds, ds', 1)
    {
      PassedOver(ds, ds', 1, b);
      InChanged(ds, ds', b);
      if b < TOTAL_BUCKET_NUM {
        FirstOfTwo(ds, b);
        FirstOfTwo(ds', b);
      } else {
        SumOfTail(ds, 1);
        SumOfTail(ds', 1);
      }
    }
    SweptSize(ds, ds', 1);
    FirstEdge(ds);
    FirstEdge(ds');
    assert Changed(ds, ds') == Swept(ds, ds', 1);
  }

  lemma FirstEdge(ds: seq<Distribution>)
    requires ds != []
    ensures Edge(ds, 1) == 10 * ds[0].percent
  {
    EdgeStep(ds, 0);
  }

  lemma FirstOfTwo(ds: seq<Distribution>, b: nat)
    requires |ds| == 2 && Sum(ds) == 100 && b < TOTAL_BUCKET_NUM
    ensures OwnerOf(ds, b) == Some(ds[if b < Edge(ds, 1) then 0 else 1].variantID)
  {
    var i := OwnerInterval(ds, b);
  }
}
