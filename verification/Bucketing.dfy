/** Bucketing and rollout: which variant a bucket number falls to, and whether the
    rollout percentage admits it. */
module Bucketing {
  import opened Words
  import opened Entities

  const TOTAL_BUCKET_NUM: nat := 1000
  const PERCENT_MULTIPLIER: nat := 10

  /** What the rollout of one segment yields; `Panic` stands for the index-out-of-range
      panic of the array access. */
  datatype Outcome = Assigned(variantID: nat) | Withheld | Panic

  // ----- the code -----

  ghost predicate NonDecreasing(a: seq<int>) {
    forall i, j :: 0 <= i < j < |a| ==> a[i] <= a[j]
  }

  /** Binary search of the library: the least index whose element reaches `x`. */
  function SearchInts(a: seq<int>, x: int): (i: nat)
    ensures i <= |a|
  {
    SearchBetween(a, x, 0, |a|)
  }

  function SearchBetween(a: seq<int>, x: int, lo: nat, hi: nat): (i: nat)
    requires lo <= hi <= |a|
    ensures lo <= i <= hi
    decreases hi - lo
  {
    if lo < hi then
      var h := (lo + hi) / 2;
      if a[h] < x then SearchBetween(a, x, h + 1, hi) else SearchBetween(a, x, lo, h)
    else
      lo
  }

  /** The index of the bucket's entry; `None` when the array access is out of range. */
  function BucketByNum(d: DistributionArray, bucketNum: nat): Option<nat> {
    var index := SearchInts(d.percentsAccumulated, bucketNum + 1);
    if index < |d.variantIDs| then Some(index) else None
  }

  /** Whether the rollout percentage admits the bucket, in unsigned 64-bit arithmetic. */
  predicate Admits(d: DistributionArray, bucketNum: nat, rolloutPercent: nat, index: nat)
    requires index < |d.percentsAccumulated|
  {
    if rolloutPercent == 0 then false
    else if rolloutPercent == 100 then true
    else
      var min := if index != 0 then d.percentsAccumulated[index - 1] else 0;
      var max := d.percentsAccumulated[index];
      var r := if max - min - 1 > 0 then max - min - 1 else 0;
      Uint(100 * Uint(bucketNum - Uint(min))) <= Uint(Uint(r) * rolloutPercent)
  }

  function RolloutBucket(d: DistributionArray, bucketNum: nat, rolloutPercent: nat): Outcome {
    match BucketByNum(d, bucketNum)
    case None => Panic
    case Some(index) =>
      if index >= |d.percentsAccumulated| then Panic
      else if Admits(d, bucketNum, rolloutPercent, index) then Assigned(d.variantIDs[index])
      else Withheld
  }

  function Crc32Num(lib: Library, entityID: string, salt: string): (num: nat)
    ensures num < TOTAL_BUCKET_NUM
  {
    lib.checksum(salt + entityID) % TOTAL_BUCKET_NUM
  }

  function Rollout(lib: Library, d: DistributionArray, entityID: string, salt: string, rolloutPercent: nat): Outcome {
    if entityID == "" then Withheld
    else if rolloutPercent == 0 then Withheld
    else if |d.variantIDs| == 0 || |d.percentsAccumulated| == 0 then Withheld
    else RolloutBucket(d, Crc32Num(lib, entityID, salt), rolloutPercent)
  }

  /** Two entities share a bucket under every checksum if and only if their salted IDs are the same text. */
  lemma SameBucketExactly(lib: Library, entityID: string, salt: string, entityID': string, salt': string)
    ensures (forall checksum :: var l := lib.(checksum := checksum);
               Crc32Num(l, entityID, salt) == Crc32Num(l, entityID', salt'))
            <==> salt + entityID == salt' + entityID'
  {
    var l := lib.(checksum := (s: string) => if s == salt + entityID then 0 else 1);
    assert salt + entityID != salt' + entityID' ==> Crc32Num(l, entityID, salt) != Crc32Num(l, entityID', salt');
  }

  /** The prefix sums of the distributions, started from `base`, in 64-bit arithmetic. */
  function Accumulate(ds: seq<Distribution>, base: int): (acc: seq<int>)
    ensures |acc| == |ds|
  {
    if ds == [] then []
    else
      var edge := NextEdge(base, ds[0]);
      [edge] + Accumulate(ds[1..], edge)
  }

  function NextEdge(base: int, d: Distribution): int {
    Int(base + Int(Uint(d.percent * PERCENT_MULTIPLIER)))
  }

  function ArrayOf(ds: seq<Distribution>): (d: DistributionArray)
    ensures |d.variantIDs| == |d.percentsAccumulated| == |ds|
  {
    DistributionArray(seq(|ds|, i requires 0 <= i < |ds| => ds[i].variantID), Accumulate(ds, 0))
  }

  // ----- the reference: walk along the intervals -----

  /** The number of buckets an entry owns. */
  function Width(d: Distribution): nat {
    10 * d.percent
  }

  function Sum(ds: seq<Distribution>): nat {
    if ds == [] then 0 else ds[0].percent + Sum(ds[1..])
  }

  /** The first bucket of entry `k`: the widths of the entries before it. */
  function Edge(ds: seq<Distribution>, k: nat): nat
    requires k <= |ds|
  {
    if k == 0 then 0 else Width(ds[0]) + Edge(ds[1..], k - 1)
  }

  /** The number of buckets that a rollout percentage admits out of `width` ones. */
  function Admitted(width: nat, rolloutPercent: nat): (n: nat) {
    if width == 0 || rolloutPercent == 0 then 0
    else if rolloutPercent >= 100 then width
    else (width - 1) * rolloutPercent / 100 + 1
  }

  /** The entry that owns the bucket is the one whose interval contains it; the rollout
      admits the first `Admitted` buckets of that interval. */
  function Walk(ds: seq<Distribution>, bucket: nat, rolloutPercent: nat): Outcome {
    if ds == [] then Panic
    else if bucket < Width(ds[0]) then
      if bucket < Admitted(Width(ds[0]), rolloutPercent) then Assigned(ds[0].variantID) else Withheld
    else Walk(ds[1..], bucket - Width(ds[0]), rolloutPercent)
  }

  /** The prefix sums fit the signed machine word. */
  predicate FitsInt(ds: seq<Distribution>) {
    10 * Sum(ds) < TWO_TO_63
  }

  /** So does, unsigned, the product of an interval and the percentage, if the rollout forms it. */
  predicate FitsWord(ds: seq<Distribution>, rolloutPercent: nat) {
    FitsInt(ds) && (rolloutPercent != 100 ==> 10 * Sum(ds) * rolloutPercent < TWO_TO_64)
  }

  /** The percentage fits with any list that sums to 100. */
  predicate RolloutFits(rolloutPercent: nat) {
    1000 * rolloutPercent < TWO_TO_64
  }

  // ----- the code refines the reference -----

  lemma {:induction false} SumOfTail(ds: seq<Distribution>, k: nat)
    requires k <= |ds|
    ensures Edge(ds, k) <= 10 * Sum(ds)
    ensures k == |ds| ==> Edge(ds, k) == 10 * Sum(ds)
  {
    if k > 0 {
      SumOfTail(ds[1..], k - 1);
    }
  }

  lemma {:induction false} EdgeStep(ds: seq<Distribution>, k: nat)
    requires k < |ds|
    ensures Edge(ds, k + 1) == Edge(ds, k) + Width(ds[k])
  {
    if k > 0 {
      EdgeStep(ds[1..], k - 1);
    }
  }

  lemma {:induction false} EdgesAscend(ds: seq<Distribution>, j: nat, k: nat)
    requires j <= k <= |ds|
    ensures Edge(ds, j) <= Edge(ds, k)
  {
    if j < k {
      EdgeStep(ds, k - 1);
      EdgesAscend(ds, j, k - 1);
    }
  }

  /** Without wrap-around the prefix sums are the interval edges. */
  lemma {:induction false} AccumulateIsEdges(ds: seq<Distribution>, base: nat, k: nat)
    requires k < |ds|
    requires base + 10 * Sum(ds) < TWO_TO_63
    ensures Accumulate(ds, base)[k] == base + Edge(ds, k + 1)
  {
    assert Width(ds[0]) == ds[0].percent * PERCENT_MULTIPLIER;
    assert NextEdge(base, ds[0]) == base + Width(ds[0]);
    if k == 0 {
      assert Edge(ds[1..], 0) == 0;
    } else {
      AccumulateIsEdges(ds[1..], base + Width(ds[0]), k - 1);
    }
  }

  /** The array lists the variants and, without wrap-around, the upper edges of their intervals. */
  ghost predicate Tabulates(d: DistributionArray, ds: seq<Distribution>) {
    && |d.variantIDs| == |d.percentsAccumulated| == |ds|
    && (forall k :: 0 <= k < |ds| ==> d.variantIDs[k] == ds[k].variantID)
    && (forall k :: 0 <= k < |ds| ==> d.percentsAccumulated[k] == Edge(ds, k + 1))
  }

  lemma ArrayTabulates(ds: seq<Distribution>)
    requires FitsInt(ds)
    ensures Tabulates(ArrayOf(ds), ds)
  {
    forall k | 0 <= k < |ds|
      ensures ArrayOf(ds).percentsAccumulated[k] == Edge(ds, k + 1)
    {
      AccumulateIsEdges(ds, 0, k);
    }
  }

  lemma EdgesNonDecreasing(d: DistributionArray, ds: seq<Distribution>)
    requires Tabulates(d, ds)
    ensures NonDecreasing(d.percentsAccumulated)
  {
    var acc := d.percentsAccumulated;
    forall i, j | 0 <= i < j < |acc|
      ensures acc[i] <= acc[j]
    {
      EdgesAscend(ds, i + 1, j + 1);
    }
  }

  /** Binary search finds the split point of a non-decreasing list. */
  lemma SearchSplits(a: seq<int>, x: int, k: nat)
    requires NonDecreasing(a) && k < |a|
    ensures k < SearchInts(a, x) <==> a[k] < x
  {
    SearchBetweenSplits(a, x, 0, |a|, k);
  }

  lemma {:induction false} SearchBetweenSplits(a: seq<int>, x: int, lo: nat, hi: nat, k: nat)
    requires lo <= hi <= |a| && k < |a| && NonDecreasing(a)
    requires lo > 0 ==> a[lo - 1] < x
    requires hi < |a| ==> x <= a[hi]
    ensures k < SearchBetween(a, x, lo, hi) <==> a[k] < x
    decreases hi - lo
  {
    if lo < hi {
      var h := (lo + hi) / 2;
      assert lo <= h < hi;
      if a[h] < x {
        SearchBetweenSplits(a, x, h + 1, hi, k);
      } else {
        SearchBetweenSplits(a, x, lo, h, k);
      }
    }
  }

  lemma SearchEdges(d: DistributionArray, ds: seq<Distribution>, bucket: nat, k: nat)
    requires Tabulates(d, ds) && k < |ds|
    ensures k < SearchInts(d.percentsAccumulated, bucket + 1) <==> Edge(ds, k + 1) <= bucket
  {
    EdgesNonDecreasing(d, ds);
    SearchSplits(d.percentsAccumulated, bucket + 1, k);
  }

  lemma IntervalUnique(ds: seq<Distribution>, bucket: nat, i: nat, j: nat)
    requires i < |ds| && j < |ds|
    requires Edge(ds, i) <= bucket < Edge(ds, i + 1) && Edge(ds, j) <= bucket < Edge(ds, j + 1)
    ensures i == j
  {
    if i < j {
      EdgesAscend(ds, i + 1, j);
    } else if j < i {
      EdgesAscend(ds, j + 1, i);
    }
  }

  /** Binary search refines the linear scan: the index found is the only entry whose
      interval contains the bucket, and there is none exactly past the last edge. */
  lemma BucketByNumFindsTheInterval(d: DistributionArray, ds: seq<Distribution>, bucket: nat)
    requires Tabulates(d, ds)
    ensures match BucketByNum(d, bucket)
            case None => 10 * Sum(ds) <= bucket
            case Some(i) =>
              && i < |ds|
              && Edge(ds, i) <= bucket < Edge(ds, i + 1)
              && (forall j :: 0 <= j < |ds| && Edge(ds, j) <= bucket < Edge(ds, j + 1) ==> j == i)
  {
    var i := SearchInts(d.percentsAccumulated, bucket + 1);
    if i > 0 {
      SearchEdges(d, ds, bucket, i - 1);
    }
    if i < |ds| {
      SearchEdges(d, ds, bucket, i);
      forall j | 0 <= j < |ds| && Edge(ds, j) <= bucket < Edge(ds, j + 1)
        ensures j == i
      {
        IntervalUnique(ds, bucket, i, j);
      }
    } else {
      SumOfTail(ds, |ds|);
    }
  }

  /** An entry of zero percent owns an empty interval, so it is never chosen. */
  lemma ZeroPercentNeverChosen(ds: seq<Distribution>, bucket: nat, i: nat)
    requires FitsInt(ds) && BucketByNum(ArrayOf(ds), bucket) == Some(i)
    ensures i < |ds| && ds[i].percent > 0
  {
    ArrayTabulates(ds);
    BucketByNumFindsTheInterval(ArrayOf(ds), ds, bucket);
    EdgeStep(ds, i);
  }

  lemma MulGrows(a: nat, x: nat, y: nat)
    requires x <= y
    ensures a * x <= a * y
  {
  }

  lemma AdmittedBounds(width: nat, offset: nat, rolloutPercent: nat)
    requires 0 < width && offset < width && 0 < rolloutPercent
    ensures 100 * offset <= (width - 1) * rolloutPercent <==> offset < Admitted(width, rolloutPercent)
  {
    var n := (width - 1) * rolloutPercent;
    if rolloutPercent < 100 {
      assert n == 100 * (n / 100) + n % 100;
    } else {
      MulGrows(width - 1, 100, rolloutPercent);
    }
  }

  lemma AdmittedAtMostWidth(width: nat, rolloutPercent: nat)
    ensures Admitted(width, rolloutPercent) <= width
  {
    if width > 0 && 0 < rolloutPercent < 100 {
      var n := (width - 1) * rolloutPercent;
      assert n <= (width - 1) * 100;
      assert n == 100 * (n / 100) + n % 100;
    }
  }

  lemma EntryFits(ds: seq<Distribution>, rolloutPercent: nat, i: nat)
    requires FitsWord(ds, rolloutPercent) && rolloutPercent != 100 && i < |ds|
    ensures Edge(ds, i) + Width(ds[i]) <= 10 * Sum(ds)
    ensures Width(ds[i]) * rolloutPercent < TWO_TO_64
  {
    EdgeStep(ds, i);
    SumOfTail(ds, i + 1);
    NarrowerFits(Width(ds[i]), 10 * Sum(ds), rolloutPercent);
  }

  lemma NarrowerFits(width: nat, total: nat, rolloutPercent: nat)
    requires width <= total && total * rolloutPercent < TWO_TO_64
    ensures width * rolloutPercent < TWO_TO_64
  {
    assert total * rolloutPercent == width * rolloutPercent + (total - width) * rolloutPercent;
  }

  /** The comparison of the code, on an entry from `min` that is `width` buckets wide. */
  lemma AdmitsBucket(bucket: nat, min: nat, width: nat, rolloutPercent: nat)
    requires min <= bucket < TOTAL_BUCKET_NUM && bucket < min + width && 0 < rolloutPercent
    requires width * rolloutPercent < TWO_TO_64
    ensures Uint(100 * Uint(bucket - Uint(min))) <= Uint(Uint(width - 1) * rolloutPercent)
            <==> bucket - min < Admitted(width, rolloutPercent)
  {
    NarrowerFits(width - 1, width, rolloutPercent);
    NarrowerFits(1, rolloutPercent, width);
    NoWrap(bucket, min, width, rolloutPercent);
    AdmittedBounds(width, bucket - min, rolloutPercent);
  }

  /** On the bucket's own entry the unsigned arithmetic does not wrap, and admits exactly
      the first `Admitted` buckets of the interval. */
  lemma AdmitsIsPrefix(d: DistributionArray, ds: seq<Distribution>, bucket: nat, rolloutPercent: nat, i: nat)
    requires Tabulates(d, ds) && FitsWord(ds, rolloutPercent) && bucket < TOTAL_BUCKET_NUM
    requires i < |ds| && Edge(ds, i) <= bucket < Edge(ds, i + 1)
    ensures Admits(d, bucket, rolloutPercent, i)
            <==> bucket - Edge(ds, i) < Admitted(Width(ds[i]), rolloutPercent)
  {
    EdgeStep(ds, i);
    assert Edge(ds, i) == if i != 0 then d.percentsAccumulated[i - 1] else 0;
    if rolloutPercent != 0 && rolloutPercent != 100 {
      EntryFits(ds, rolloutPercent, i);
      AdmitsBucket(bucket, Edge(ds, i), Width(ds[i]), rolloutPercent);
    }
  }

  lemma NoWrap(bucket: nat, min: nat, width: nat, rolloutPercent: nat)
    requires min <= bucket < TOTAL_BUCKET_NUM && 0 < width < TWO_TO_64
    requires (width - 1) * rolloutPercent < TWO_TO_64
    ensures Uint(100 * Uint(bucket - Uint(min))) == 100 * (bucket - min)
    ensures Uint(Uint(width - 1) * rolloutPercent) == (width - 1) * rolloutPercent
  {
    UintExact(min);
    UintExact(bucket - min);
    UintExact(100 * (bucket - min));
    UintExact(width - 1);
    var product := (width - 1) * rolloutPercent;
    UintExact(product);
  }

  lemma {:induction false} WalkReaches(ds: seq<Distribution>, bucket: nat, rolloutPercent: nat, i: nat)
    requires i < |ds| && Edge(ds, i) <= bucket < Edge(ds, i + 1)
    ensures Walk(ds, bucket, rolloutPercent)
            == if bucket - Edge(ds, i) < Admitted(Width(ds[i]), rolloutPercent)
               then Assigned(ds[i].variantID) else Withheld
  {
    if i > 0 {
      WalkReaches(ds[1..], bucket - Width(ds[0]), rolloutPercent, i - 1);
    } else {
      assert Edge(ds[1..], 0) == 0;
    }
  }

  lemma {:induction false} WalkPastTheEnd(ds: seq<Distribution>, bucket: nat, rolloutPercent: nat)
    ensures Walk(ds, bucket, rolloutPercent) == Panic <==> 10 * Sum(ds) <= bucket
  {
    if ds != [] && Width(ds[0]) <= bucket {
      WalkPastTheEnd(ds[1..], bucket - Width(ds[0]), rolloutPercent);
    }
  }

  lemma TableRefinesWalk(d: DistributionArray, ds: seq<Distribution>, bucket: nat, rolloutPercent: nat)
    requires Tabulates(d, ds) && FitsWord(ds, rolloutPercent) && bucket < TOTAL_BUCKET_NUM
    ensures RolloutBucket(d, bucket, rolloutPercent) == Walk(ds, bucket, rolloutPercent)
  {
    BucketByNumFindsTheInterval(d, ds, bucket);
    match BucketByNum(d, bucket) {
      case None => WalkPastTheEnd(ds, bucket, rolloutPercent);
      case Some(i) =>
        AdmitsIsPrefix(d, ds, bucket, rolloutPercent, i);
        WalkReaches(ds, bucket, rolloutPercent, i);
    }
  }

  /** The prefix sums, the binary search and the unsigned arithmetic together compute
      the interval walk, whatever the percentages sum to, as long as they fit the word. */
  lemma RolloutRefinesWalk(ds: seq<Distribution>, bucket: nat, rolloutPercent: nat)
    requires FitsWord(ds, rolloutPercent) && bucket < TOTAL_BUCKET_NUM
    ensures RolloutBucket(ArrayOf(ds), bucket, rolloutPercent) == Walk(ds, bucket, rolloutPercent)
  {
    ArrayTabulates(ds);
    TableRefinesWalk(ArrayOf(ds), ds, bucket, rolloutPercent);
  }

  /** When the rollout panics, at any rollout percentage: there are distributions, they are
      consulted at all, and the bucket lies past their sum. So a list that sums to at least
      100 never panics. */
  lemma RolloutPanicsExactly(lib: Library, ds: seq<Distribution>, entityID: string, salt: string, rolloutPercent: nat)
    requires FitsInt(ds)
    ensures Rollout(lib, ArrayOf(ds), entityID, salt, rolloutPercent) == Panic
            <==> entityID != "" && rolloutPercent != 0 && ds != [] && 10 * Sum(ds) <= Crc32Num(lib, entityID, salt)
  {
    ArrayTabulates(ds);
    BucketByNumFindsTheInterval(ArrayOf(ds), ds, Crc32Num(lib, entityID, salt));
    SumOfTail(ds, |ds|);
    if i :| BucketByNum(ArrayOf(ds), Crc32Num(lib, entityID, salt)) == Some(i) {
      EdgesAscend(ds, i + 1, |ds|);
    }
  }

  lemma DivGrows(x: nat, y: nat)
    requires x <= y
    ensures x / 100 <= y / 100
  {
  }

  lemma AdmittedGrows(width: nat, r: nat, r': nat)
    requires r <= r'
    ensures Admitted(width, r) <= Admitted(width, r')
  {
    AdmittedAtMostWidth(width, r);
    if width > 0 && 0 < r && r' < 100 {
      MulGrows(width - 1, r, r');
      DivGrows((width - 1) * r, (width - 1) * r');
    }
  }

  lemma {:induction false} WalkGrows(ds: seq<Distribution>, bucket: nat, r: nat, r': nat)
    requires r <= r'
    ensures Walk(ds, bucket, r).Assigned? ==> Walk(ds, bucket, r') == Walk(ds, bucket, r)
    ensures !Walk(ds, bucket, 0).Assigned?
    ensures Walk(ds, bucket, 100) != Withheld
  {
    if ds != [] {
      AdmittedGrows(Width(ds[0]), r, r');
      if Width(ds[0]) <= bucket {
        WalkGrows(ds[1..], bucket - Width(ds[0]), r, r');
      }
    }
  }

  /** Raising the rollout percentage never takes a variant away and never swaps it: the
      entities admitted at R keep their variant at every R' >= R. Nobody with an ID is
      admitted at 0, everybody is at 100. */
  lemma RolloutMonotone(lib: Library, ds: seq<Distribution>, entityID: string, salt: string, r: nat, r': nat)
    requires r <= r' && FitsWord(ds, r) && FitsWord(ds, r')
    ensures Rollout(lib, ArrayOf(ds), entityID, salt, r).Assigned?
            ==> Rollout(lib, ArrayOf(ds), entityID, salt, r') == Rollout(lib, ArrayOf(ds), entityID, salt, r)
    ensures Rollout(lib, ArrayOf(ds), entityID, salt, 0) == Withheld
    ensures entityID != "" && Sum(ds) >= 100 ==> Rollout(lib, ArrayOf(ds), entityID, salt, 100).Assigned?
  {
    var bucket := Crc32Num(lib, entityID, salt);
    RolloutRefinesWalk(ds, bucket, r);
    RolloutRefinesWalk(ds, bucket, r');
    RolloutRefinesWalk(ds, bucket, 100);
    WalkGrows(ds, bucket, r, r');
    WalkPastTheEnd(ds, bucket, 100);
  }

  // ----- zero-percent entries are invisible -----

  function Prune(ds: seq<Distribution>): seq<Distribution> {
    if ds == [] then [] else (if ds[0].percent == 0 then [] else [ds[0]]) + Prune(ds[1..])
  }

  lemma {:induction false} PruneKeepsWalk(ds: seq<Distribution>, bucket: nat, rolloutPercent: nat)
    ensures Walk(Prune(ds), bucket, rolloutPercent) == Walk(ds, bucket, rolloutPercent)
    ensures Sum(Prune(ds)) == Sum(ds)
  {
    if ds != [] {
      if ds[0].percent == 0 {
        assert Prune(ds) == Prune(ds[1..]);
        PruneKeepsWalk(ds[1..], bucket, rolloutPercent);
      } else {
        assert Prune(ds)[1..] == Prune(ds[1..]);
        if Width(ds[0]) <= bucket {
          PruneKeepsWalk(ds[1..], bucket - Width(ds[0]), rolloutPercent);
        } else {
          PruneKeepsWalk(ds[1..], bucket, rolloutPercent);
        }
      }
    }
  }

  predicate EmptyOrFull(ds: seq<Distribution>) {
    ds == [] || Sum(ds) == 100
  }

  /** Two lists that agree up to zero-percent entries roll out alike, for every entity,
      salt and rollout percentage. */
  lemma SamePrunedSameRollout(lib: Library, ds: seq<Distribution>, ds': seq<Distribution>,
                              entityID: string, salt: string, rolloutPercent: nat)
    requires EmptyOrFull(ds) && EmptyOrFull(ds') && Prune(ds) == Prune(ds') && RolloutFits(rolloutPercent)
    ensures Rollout(lib, ArrayOf(ds), entityID, salt, rolloutPercent)
            == Rollout(lib, ArrayOf(ds'), entityID, salt, rolloutPercent)
  {
    var bucket := Crc32Num(lib, entityID, salt);
    PruneKeepsWalk(ds, bucket, rolloutPercent);
    PruneKeepsWalk(ds', bucket, rolloutPercent);
    if ds != [] && ds' != [] {
      RolloutRefinesWalk(ds, bucket, rolloutPercent);
      RolloutRefinesWalk(ds', bucket, rolloutPercent);
    }
  }
}
