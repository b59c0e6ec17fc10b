/** What every handler keeps about distributions and variants, whatever the requests: the
    percentages of a segment, and the agreement of distributions with their variants. */
module Integrity {
  import opened Entities
  import opened Bucketing
  import opened Tables
  import opened Database
  import opened Handlers

  function Result(edit: Edit): DB {
    edit.db
  }

  // ----- the percentages of a segment -----

  function PercentAt(r: Row<DistributionData>, segmentID: nat): nat {
    if Visible(r, segmentID) then r.data.percent else 0
  }

  /** The sum of the live percentages of a segment. */
  function Weight(t: seq<Row<DistributionData>>, segmentID: nat): nat {
    if t == [] then 0 else Weight(t[..|t| - 1], segmentID) + PercentAt(t[|t| - 1], segmentID)
  }

  ghost predicate Occupied(t: seq<Row<DistributionData>>, segmentID: nat) {
    exists i :: 0 <= i < |t| && Visible(t[i], segmentID)
  }

  lemma {:induction false} WeightSame(t: seq<Row<DistributionData>>, t': seq<Row<DistributionData>>, segmentID: nat)
    requires |t| <= |t'|
    requires forall i :: 0 <= i < |t| ==> PercentAt(t[i], segmentID) == PercentAt(t'[i], segmentID)
    requires forall i :: |t| <= i < |t'| ==> PercentAt(t'[i], segmentID) == 0
    ensures Weight(t, segmentID) == Weight(t', segmentID)
  {
    if |t| < |t'| {
      WeightSame(t, t'[..|t'| - 1], segmentID);
    } else if t != [] {
      WeightSame(t[..|t| - 1], t'[..|t'| - 1], segmentID);
    }
  }

  lemma {:induction false} WeightAppend(t: seq<Row<DistributionData>>, u: seq<Row<DistributionData>>, segmentID: nat)
    ensures Weight(t + u, segmentID) == Weight(t, segmentID) + Weight(u, segmentID)
  {
    if u == [] {
      assert t + u == t;
    } else {
      WeightAppend(t, u[..|u| - 1], segmentID);
      assert (t + u)[..|t + u| - 1] == t + u[..|u| - 1];
    }
  }

  lemma {:induction false} WeightZero(t: seq<Row<DistributionData>>, segmentID: nat)
    requires forall i :: 0 <= i < |t| ==> PercentAt(t[i], segmentID) == 0
    ensures Weight(t, segmentID) == 0
  {
    if t != [] {
      WeightZero(t[..|t| - 1], segmentID);
    }
  }

  /** The rows of a request weigh what its percentages sum to. */
  lemma {:induction false} WeightOfRequest(ds: seq<DistributionBody>, segmentID: nat)
    requires forall i :: 0 <= i < |ds| ==> ds[i].percent.Some? && 0 <= ds[i].percent.value <= 100
    ensures Weight(MapDistributions(ds, segmentID), segmentID) == SumOfPercents(ds)
  {
    if ds != [] {
      var init := ds[..|ds| - 1];
      WeightOfRequest(init, segmentID);
      assert MapDistributions(ds, segmentID)[..|ds| - 1] == MapDistributions(init, segmentID);
    }
  }

  // ----- loaded distributions -----

  lemma {:induction false} SumAppend(ds: seq<Distribution>, es: seq<Distribution>)
    ensures Sum(ds + es) == Sum(ds) + Sum(es)
  {
    if ds == [] {
      assert ds + es == es;
    } else {
      SumAppend(ds[1..], es);
      assert (ds + es)[1..] == ds[1..] + es;
    }
  }

  lemma {:induction false} SumInsert(ds: seq<Distribution>, d: Distribution)
    ensures Sum(Insert(ds, d, VariantIDOf)) == Sum(ds) + d.percent
  {
    SumAppend(ds, [d]);
    if ds != [] && VariantIDOf(ds[|ds| - 1]) > VariantIDOf(d) {
      var init, last := ds[..|ds| - 1], ds[|ds| - 1];
      SumInsert(init, d);
      SumAppend(Insert(init, d, VariantIDOf), [last]);
      SumAppend(init, [last]);
      assert ds == init + [last];
    }
  }

  lemma {:induction false} SumSortBy(ds: seq<Distribution>)
    ensures Sum(SortBy(ds, VariantIDOf)) == Sum(ds)
  {
    if ds != [] {
      var init, last := ds[..|ds| - 1], ds[|ds| - 1];
      SumSortBy(init);
      SumInsert(SortBy(init, VariantIDOf), last);
      SumAppend(init, [last]);
      assert ds == init + [last];
    }
  }

  lemma {:induction false} SumOfChildren(t: seq<Row<DistributionData>>, segmentID: nat)
    ensures Sum(Children(t, segmentID, MakeDistribution)) == Weight(t, segmentID)
  {
    if t != [] {
      var init, last := t[..|t| - 1], t[|t| - 1];
      SumOfChildren(init, segmentID);
      var d := MakeDistribution(|t|, last);
      SumAppend(Children(init, segmentID, MakeDistribution), [d]);
      assert Sum([d]) == d.percent by { assert [d][1..] == []; }
      assert Children(init, segmentID, MakeDistribution) + [] == Children(init, segmentID, MakeDistribution);
    }
  }

  lemma ChildrenOccupied(t: seq<Row<DistributionData>>, segmentID: nat)
    ensures Children(t, segmentID, MakeDistribution) == [] <==> !Occupied(t, segmentID)
  {
    var ds := Children(t, segmentID, MakeDistribution);
    if Occupied(t, segmentID) {
      var i :| 0 <= i < |t| && Visible(t[i], segmentID);
      RowChild(t, segmentID, MakeDistribution, i + 1);
    }
    if ds != [] {
      var id := ChildRow(t, segmentID, MakeDistribution, ds[0]);
      assert Visible(t[id - 1], segmentID);
    }
  }

  /** What a segment loads sums to its weight. */
  lemma LoadedSum(db: DB, segmentID: nat)
    ensures Sum(LoadDistributions(db, segmentID)) == Weight(db.distributions, segmentID)
    ensures LoadDistributions(db, segmentID) == [] <==> !Occupied(db.distributions, segmentID)
  {
    SumOfChildren(db.distributions, segmentID);
    ChildrenOccupied(db.distributions, segmentID);
    SumSortBy(Children(db.distributions, segmentID, MakeDistribution));
  }

  // ----- the invariants -----

  /** Every segment's live distributions are absent or sum to exactly 100. */
  ghost predicate SumsExact(db: DB) {
    forall s: nat :: Occupied(db.distributions, s) ==> Weight(db.distributions, s) == 100
  }

  /** Every segment's live distributions are absent or sum to 100, or to 200 in an existing segment. */
  ghost predicate SumsReach(db: DB) {
    forall s: nat :: Occupied(db.distributions, s) ==> Reaches(db, s)
  }

  predicate Reaches(db: DB, s: nat) {
    Weight(db.distributions, s) == 100 || (Exists(db.segments, s) && Weight(db.distributions, s) == 200)
  }

  ghost predicate RolloutsBounded(db: DB) {
    forall i :: 0 <= i < |db.segments| ==> db.segments[i].data.rolloutPercent <= 100
  }

  /** A live distribution names a variant of its segment's flag under that variant's current
      key, a live one if the segment is live. */
  ghost predicate Agrees(db: DB, r: Row<DistributionData>) {
    && Exists(db.segments, r.owner)
    && Exists(db.variants, r.data.variantID)
    && db.variants[r.data.variantID - 1].owner == db.segments[r.owner - 1].owner
    && db.variants[r.data.variantID - 1].data.key == r.data.variantKey
    && (db.segments[r.owner - 1].live ==> db.variants[r.data.variantID - 1].live)
  }

  ghost predicate KeysAgree(db: DB) {
    forall i :: 0 <= i < |db.distributions| && db.distributions[i].live ==> Agrees(db, db.distributions[i])
  }

  // ----- what the deletion check visits -----

  lemma {:induction false} OfVariantElements(ds: seq<Distribution>, variantID: nat, d: Distribution)
    ensures d in OfVariant(ds, variantID) <==> d in ds && d.variantID == variantID
  {
    if ds != [] {
      OfVariantElements(ds[..|ds| - 1], variantID, d);
      assert ds == ds[..|ds| - 1] + [ds[|ds| - 1]];
    }
  }

  lemma {:induction false} VisitedElements(ss: seq<Segment>, variantID: nat, d: Distribution)
    ensures d in Visited(ss, variantID)
            <==> d.variantID == variantID && exists i :: 0 <= i < |ss| && d in ss[i].distributions
  {
    if ss != [] {
      var init, last := ss[..|ss| - 1], ss[|ss| - 1];
      VisitedElements(init, variantID, d);
      OfVariantElements(last.distributions, variantID, d);
      if exists i :: 0 <= i < |init| && d in init[i].distributions {
        var i :| 0 <= i < |init| && d in init[i].distributions;
        assert d in ss[i].distributions;
      }
      if d in last.distributions {
        assert d in ss[|ss| - 1].distributions;
      }
    }
  }

  lemma {:induction false} DoomedWitness(ds: seq<Distribution>, id: nat) returns (d: Distribution)
    requires id in Doomed(ds)
    ensures d in ds && d.id == id && d.percent == 0
  {
    if id == ds[0].id {
      d := ds[0];
    } else {
      d := DoomedWitness(ds[1..], id);
    }
  }

  lemma {:induction false} AllZeroDoomed(ds: seq<Distribution>, d: Distribution)
    requires AllZero(ds) && d in ds
    ensures d.id in Doomed(ds)
  {
    if d != ds[0] {
      AllZeroDoomed(ds[1..], d);
    }
  }

  lemma VisitedWitness(ss: seq<Segment>, variantID: nat, d: Distribution) returns (i: nat)
    requires d in Visited(ss, variantID)
    ensures i < |ss| && d in ss[i].distributions && d.variantID == variantID
  {
    VisitedElements(ss, variantID, d);
    i :| 0 <= i < |ss| && d in ss[i].distributions;
  }

  /** A loaded distribution is a live row of its segment. */
  lemma LoadedRow(db: DB, segmentID: nat, d: Distribution)
    requires d in LoadDistributions(db, segmentID)
    ensures Live(db.distributions, d.id) && Owned(db.distributions, d.id, segmentID)
    ensures d == MakeDistribution(d.id, db.distributions[d.id - 1])
  {
    SortByElements(Children(db.distributions, segmentID, MakeDistribution), VariantIDOf, d);
    var id := ChildRow(db.distributions, segmentID, MakeDistribution, d);
  }

  lemma RowLoaded(db: DB, segmentID: nat, id: nat)
    requires Live(db.distributions, id) && Owned(db.distributions, id, segmentID)
    ensures MakeDistribution(id, db.distributions[id - 1]) in LoadDistributions(db, segmentID)
  {
    RowChild(db.distributions, segmentID, MakeDistribution, id);
    SortByElements(Children(db.distributions, segmentID, MakeDistribution), VariantIDOf,
                   MakeDistribution(id, db.distributions[id - 1]));
  }

  /** A loaded segment is a live row of its flag, filled in. */
  lemma LoadedSegment(db: DB, flagID: nat, i: nat)
    requires i < |LoadSegments(db, flagID)|
    ensures var s := LoadSegments(db, flagID)[i];
            && Live(db.segments, s.id) && Owned(db.segments, s.id, flagID)
            && s == Fill(db, MakeSegment(s.id, db.segments[s.id - 1]))
  {
    var rows := SegmentRows(db, flagID);
    SortByElements(Children(db.segments, flagID, MakeSegment), RankOf, rows[i]);
    var id := ChildRow(db.segments, flagID, MakeSegment, rows[i]);
  }

  lemma SegmentLoaded(db: DB, flagID: nat, id: nat) returns (i: nat)
    requires Live(db.segments, id) && Owned(db.segments, id, flagID)
    ensures i < |LoadSegments(db, flagID)|
    ensures LoadSegments(db, flagID)[i] == Fill(db, MakeSegment(id, db.segments[id - 1]))
  {
    var s := MakeSegment(id, db.segments[id - 1]);
    RowChild(db.segments, flagID, MakeSegment, id);
    SortByElements(Children(db.segments, flagID, MakeSegment), RankOf, s);
    i :| 0 <= i < |SegmentRows(db, flagID)| && SegmentRows(db, flagID)[i] == s;
  }

  /** A visited distribution is a live row of the variant under the flag. */
  lemma VisitedRow(db: DB, flagID: nat, variantID: nat, d: Distribution)
    requires d in Visited(LoadSegments(db, flagID), variantID)
    ensures Live(db.distributions, d.id) && d == MakeDistribution(d.id, db.distributions[d.id - 1])
    ensures d.variantID == variantID && Owned(db.segments, d.segmentID, flagID)
  {
    var i := VisitedWitness(LoadSegments(db, flagID), variantID, d);
    LoadedSegment(db, flagID, i);
    LoadedRow(db, LoadSegments(db, flagID)[i].id, d);
  }

  /** The check deletes nothing but live zero-percent rows of the variant under the flag. */
  lemma DoomedRows(db: DB, flagID: nat, variantID: nat, id: nat)
    requires id in Doomed(Visited(LoadSegments(db, flagID), variantID))
    ensures Live(db.distributions, id)
    ensures db.distributions[id - 1].data.percent == 0 && db.distributions[id - 1].data.variantID == variantID
    ensures Owned(db.segments, db.distributions[id - 1].owner, flagID)
  {
    var d := DoomedWitness(Visited(LoadSegments(db, flagID), variantID), id);
    VisitedRow(db, flagID, variantID, d);
  }

  /** A successful check leaves no row of the variant in the flag's live segments. */
  lemma VisitsEverything(db: DB, flagID: nat, variantID: nat, id: nat)
    requires Live(db.distributions, id) && db.distributions[id - 1].data.variantID == variantID
    requires Live(db.segments, db.distributions[id - 1].owner)
    requires Owned(db.segments, db.distributions[id - 1].owner, flagID)
    requires AllZero(Visited(LoadSegments(db, flagID), variantID))
    ensures id in Doomed(Visited(LoadSegments(db, flagID), variantID))
  {
    var ss := LoadSegments(db, flagID);
    var segmentID := db.distributions[id - 1].owner;
    var d := MakeDistribution(id, db.distributions[id - 1]);
    RowLoaded(db, segmentID, id);
    var i := SegmentLoaded(db, flagID, segmentID);
    assert d in ss[i].distributions;
    VisitedElements(ss, variantID, d);
    AllZeroDoomed(Visited(ss, variantID), d);
  }

  // ----- one handler keeps them -----

  lemma KilledWeight(t: seq<Row<DistributionData>>, ids: set<nat>, segmentID: nat)
    requires forall id :: id in ids && Exists(t, id) ==> t[id - 1].data.percent == 0
    ensures Weight(Kill(t, ids), segmentID) == Weight(t, segmentID)
    ensures Occupied(Kill(t, ids), segmentID) ==> Occupied(t, segmentID)
  {
    var t' := Kill(t, ids);
    forall i | 0 <= i < |t|
      ensures PercentAt(t'[i], segmentID) == PercentAt(t[i], segmentID)
      ensures Visible(t'[i], segmentID) ==> Visible(t[i], segmentID)
    {
      if i + 1 in ids {
        assert Exists(t, i + 1);
      }
    }
    WeightSame(t, t', segmentID);
  }

  lemma RowsOfOwner(t: seq<Row<DistributionData>>, segmentID: nat)
    ensures forall i :: 0 <= i < |t| ==> (i + 1 in RowsOf(t, segmentID) <==> t[i].owner == segmentID)
  {
    forall i | 0 <= i < |t|
      ensures i + 1 in RowsOf(t, segmentID) <==> t[i].owner == segmentID
    {
      assert Owned(t, i + 1, segmentID) <==> t[i].owner == segmentID;
    }
  }

  lemma KilledOwnWeight(t: seq<Row<DistributionData>>, segmentID: nat)
    ensures Weight(Kill(t, RowsOf(t, segmentID)), segmentID) == 0
  {
    RowsOfOwner(t, segmentID);
    WeightZero(Kill(t, RowsOf(t, segmentID)), segmentID);
  }

  lemma KilledOtherWeight(t: seq<Row<DistributionData>>, segmentID: nat, s: nat)
    requires s != segmentID
    ensures Weight(Kill(t, RowsOf(t, segmentID)), s) == Weight(t, s)
    ensures Occupied(Kill(t, RowsOf(t, segmentID)), s) ==> Occupied(t, s)
  {
    var killed := Kill(t, RowsOf(t, segmentID));
    RowsOfOwner(t, segmentID);
    WeightSame(t, killed, s);
    if Occupied(killed, s) {
      var i :| 0 <= i < |killed| && Visible(killed[i], s);
      assert Visible(t[i], s);
    }
  }

  lemma OccupiedConcat(t: seq<Row<DistributionData>>, u: seq<Row<DistributionData>>, s: nat)
    requires Occupied(t + u, s)
    ensures Occupied(t, s) || Occupied(u, s)
  {
    var i :| 0 <= i < |t + u| && Visible((t + u)[i], s);
    if i < |t| {
      assert Visible(t[i], s);
    } else {
      assert Visible(u[i - |t|], s);
    }
  }

  /** The new rows of a segment replace all its old ones and leave other segments alone. */
  lemma ReplacedWeight(t: seq<Row<DistributionData>>, ds: seq<DistributionBody>, segmentID: nat, s: nat)
    requires forall i :: 0 <= i < |ds| ==> ds[i].percent.Some? && 0 <= ds[i].percent.value <= 100
    ensures var t' := Kill(t, RowsOf(t, segmentID)) + MapDistributions(ds, segmentID);
            && Weight(t', s) == (if s == segmentID then SumOfPercents(ds) else Weight(t, s))
            && (s != segmentID && Occupied(t', s) ==> Occupied(t, s))
  {
    var killed, added := Kill(t, RowsOf(t, segmentID)), MapDistributions(ds, segmentID);
    WeightAppend(killed, added, s);
    if s == segmentID {
      KilledOwnWeight(t, s);
      WeightOfRequest(ds, s);
    } else {
      KilledOtherWeight(t, segmentID, s);
      WeightZero(added, s);
      if Occupied(killed + added, s) {
        OccupiedConcat(killed, added, s);
      }
    }
  }

  lemma AppendedWeight(t: seq<Row<DistributionData>>, r: Row<DistributionData>, s: nat)
    ensures Weight(t + [r], s) == Weight(t, s) + PercentAt(r, s)
    ensures Occupied(t + [r], s) <==> Occupied(t, s) || Visible(r, s)
  {
    WeightAppend(t, [r], s);
    assert Weight([r], s) == PercentAt(r, s) by { assert [r][..0] == []; }
    if Occupied(t, s) {
      var i :| 0 <= i < |t| && Visible(t[i], s);
      assert Visible((t + [r])[i], s);
    }
    if Visible(r, s) {
      assert Visible((t + [r])[|t|], s);
    }
  }

  lemma DeleteVariantWeights(db: DB, req: Request, s: nat)
    requires req.DeleteVariant?
    ensures var t' := Result(EditDeleteVariant(db, req)).distributions;
            && Weight(t', s) == Weight(db.distributions, s)
            && (Occupied(t', s) ==> Occupied(db.distributions, s))
  {
    if LiveFlag(db, req.flagID) {
      var doomed := Doomed(Visited(LoadSegments(db, req.flagID), req.variantID));
      forall id | id in doomed
        ensures Exists(db.distributions, id) && db.distributions[id - 1].data.percent == 0
      {
        DoomedRows(db, req.flagID, req.variantID, id);
      }
      KilledWeight(db.distributions, doomed, s);
    }
  }

  lemma RenamedWeight(t: seq<Row<DistributionData>>, variantID: nat, key: string, s: nat)
    ensures Weight(RenameIn(t, variantID, key), s) == Weight(t, s)
    ensures Occupied(RenameIn(t, variantID, key), s) ==> Occupied(t, s)
  {
    WeightSame(t, RenameIn(t, variantID, key), s);
    if Occupied(RenameIn(t, variantID, key), s) {
      var i :| 0 <= i < |t| && Visible(RenameIn(t, variantID, key)[i], s);
      assert Visible(t[i], s);
    }
  }

  /** The other handlers leave every distribution row alone. */
  predicate KeepsDistributions(req: Request) {
    !req.CreateFlag? && !req.PutDistributions? && !req.PutVariant? && !req.DeleteVariant?
  }

  lemma OthersKeepDistributions(lib: Library, db: DB, req: Request)
    requires KeepsDistributions(req)
    ensures Result(EditOf(lib, db, req)).distributions == db.distributions
  {
  }

  function TemplateRow(db: DB): Row<DistributionData> {
    Row(|db.segments| + 1, true, DistributionData(|db.variants| + 1, "on", 100))
  }

  lemma CreateFlagDistributions(db: DB, req: Request)
    requires req.CreateFlag?
    ensures Result(EditCreateFlag(db, req)).distributions == db.distributions
            || Result(EditCreateFlag(db, req)).distributions == db.distributions + [TemplateRow(db)]
  {
  }

  lemma CreateFlagWeights(db: DB, req: Request, s: nat)
    requires req.CreateFlag?
    ensures var t, t' := db.distributions, Result(EditCreateFlag(db, req)).distributions;
            || (Weight(t', s) == Weight(t, s) && (Occupied(t', s) ==> Occupied(t, s)))
            || (s == |db.segments| + 1 && Weight(t', s) == Weight(t, s) + 100)
  {
    CreateFlagDistributions(db, req);
    AppendedWeight(db.distributions, TemplateRow(db), s);
  }

  /** How one request moves the weight of a segment: not at all, or to exactly 100 by
      replacement, or by the 100 of the template. */
  lemma EditWeights(lib: Library, db: DB, req: Request, s: nat)
    requires InBounds(req)
    ensures var t, t' := db.distributions, Result(EditOf(lib, db, req)).distributions;
            || (Weight(t', s) == Weight(t, s) && (Occupied(t', s) ==> Occupied(t, s)))
            || (req.PutDistributions? && Weight(t', s) == 100)
            || (req.CreateFlag? && s == |db.segments| + 1 && Weight(t', s) == Weight(t, s) + 100)
  {
    if req.CreateFlag? {
      CreateFlagWeights(db, req, s);
    } else if req.PutDistributions? {
      if AcceptsDistributions(db, req.flagID, req.distributions) {
        ReplacedWeight(db.distributions, req.distributions, req.segmentID, s);
      }
    } else if req.PutVariant? {
      RenamedWeight(db.distributions, req.variantID, req.variantKey, s);
    } else if req.DeleteVariant? {
      DeleteVariantWeights(db, req, s);
    } else {
      OthersKeepDistributions(lib, db, req);
    }
  }

  lemma FinishKeepsTables(edit: Edit, flagID: nat, subject: string)
    ensures var db, db' := Result(edit), Finish(edit, flagID, subject);
            && db'.segments == db.segments && db'.constraints == db.constraints && db'.distributions == db.distributions
            && db'.variants == db.variants && db'.tags == db.tags && db'.flagTags == db.flagTags
            && |db'.flags| == |db.flags|
  {
  }

  lemma SegmentsStay(lib: Library, db: DB, req: Request)
    ensures |db.segments| <= |Result(EditOf(lib, db, req)).segments|
    ensures req.CreateFlag? && Result(EditOf(lib, db, req)).distributions != db.distributions
            ==> |Result(EditOf(lib, db, req)).segments| == |db.segments| + 1
  {
  }

  lemma StepKeepsSumsReach(lib: Library, db: DB, req: Request)
    requires SumsReach(db) && InBounds(req)
    ensures SumsReach(Step(lib, db, req))
  {
    var edit := EditOf(lib, db, req);
    FinishKeepsTables(edit, FlagOf(db, req), SubjectOf(req));
    SegmentsStay(lib, db, req);
    forall s: nat | Occupied(Step(lib, db, req).distributions, s)
      ensures Reaches(Step(lib, db, req), s)
    {
      EditWeights(lib, db, req, s);
      if !Occupied(db.distributions, s) {
        assert forall i :: 0 <= i < |db.distributions| ==> PercentAt(db.distributions[i], s) == 0;
        WeightZero(db.distributions, s);
      }
    }
  }

  /** The segment that a PutDistributions names exists. */
  predicate NamesSegment(db: DB, req: Request) {
    req.PutDistributions? ==> Exists(db.segments, req.segmentID)
  }

  ghost predicate OwnersExist(db: DB) {
    forall i :: 0 <= i < |db.distributions| && db.distributions[i].live ==>
        Exists(db.segments, db.distributions[i].owner)
  }

  lemma EditKeepsOwners(lib: Library, db: DB, req: Request)
    requires OwnersExist(db) && NamesSegment(db, req)
    ensures OwnersExist(Result(EditOf(lib, db, req)))
  {
  }

  /** The other handlers leave every segment row alone. */
  predicate KeepsSegments(req: Request) {
    && !req.CreateFlag? && !req.CreateSegment? && !req.PutSegment? && !req.PutSegmentsReorder? && !req.DeleteSegment?
  }

  lemma OthersKeepSegments(lib: Library, db: DB, req: Request)
    requires KeepsSegments(req)
    ensures Result(EditOf(lib, db, req)).segments == db.segments
  {
  }

  lemma EditKeepsRollouts(lib: Library, db: DB, req: Request)
    requires RolloutsBounded(db) && InBounds(req)
    ensures RolloutsBounded(Result(EditOf(lib, db, req)))
  {
    if KeepsSegments(req) {
      OthersKeepSegments(lib, db, req);
    }
  }

  lemma StepKeepsRollouts(lib: Library, db: DB, req: Request)
    requires RolloutsBounded(db) && InBounds(req)
    ensures RolloutsBounded(Step(lib, db, req))
  {
    EditKeepsRollouts(lib, db, req);
    FinishKeepsTables(EditOf(lib, db, req), FlagOf(db, req), SubjectOf(req));
  }
}
