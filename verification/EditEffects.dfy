/** What single edits do to everybody's evaluation. */
module EditEffects {
  import opened Words
  import opened Entities
  import opened Bucketing
  import opened Shares
  import opened Preparation
  import opened Evaluation
  import opened Tables
  import opened Database
  import opened Handlers
  import opened Integrity
  import opened Agreement
  import opened Frames
  import opened Audit
  import opened Ordering
  import opened Constraints

  // ----- new distributions -----

  function DistributionIDOf(d: Distribution): nat { d.id }

  /** The rows of the segment are those of the request, behind the old rows. */
  lemma RowsAreReplaced(lib: Library, db: DB, req: Request, id: nat)
    requires req.PutDistributions? && AcceptsDistributions(db, req.flagID, req.distributions)
    requires Live(Step(lib, db, req).distributions, id) && Owned(Step(lib, db, req).distributions, id, req.segmentID)
    ensures |db.distributions| < id <= |db.distributions| + |req.distributions|
    ensures Step(lib, db, req).distributions[id - 1]
            == MapDistribution(req.distributions[id - |db.distributions| - 1], req.segmentID)
  {
    FinishKeepsTables(EditOf(lib, db, req), req.flagID, req.subject);
    RowsOfOwner(db.distributions, req.segmentID);
  }

  /** The distribution is the one that the request asks for at a position. */
  predicate Delivers(d: Distribution, body: DistributionBody) {
    && d.variantID == body.variantID && d.variantKey == body.variantKey
    && body.percent == Some(d.percent)
  }

  lemma MappedExactly(body: DistributionBody, segmentID: nat, id: nat)
    requires 1 <= body.variantID < TWO_TO_63 && body.percent.Some? && 0 <= body.percent.value <= 100
    ensures Delivers(MakeDistribution(id, MapDistribution(body, segmentID)), body)
  {
    UintExact(body.variantID);
    UintExact(body.percent.value);
  }

  lemma BodyIsBounded(db: DB, req: Request, j: nat)
    requires req.PutDistributions? && InBounds(req) && AcceptsDistributions(db, req.flagID, req.distributions)
    requires j < |req.distributions|
    ensures var body := req.distributions[j];
            1 <= body.variantID < TWO_TO_63 && body.percent.Some? && 0 <= body.percent.value <= 100
  {
  }

  /** Every live row of the segment after an accepted request delivers what the request asks for. */
  lemma RowIsDelivered(lib: Library, db: DB, req: Request, id: nat) returns (j: nat)
    requires req.PutDistributions? && InBounds(req) && AcceptsDistributions(db, req.flagID, req.distributions)
    requires Live(Step(lib, db, req).distributions, id) && Owned(Step(lib, db, req).distributions, id, req.segmentID)
    ensures j < |req.distributions| && id == |db.distributions| + j + 1
    ensures Delivers(MakeDistribution(id, Step(lib, db, req).distributions[id - 1]), req.distributions[j])
  {
    RowsAreReplaced(lib, db, req, id);
    j := id - |db.distributions| - 1;
    BodyIsBounded(db, req, j);
    MappedExactly(req.distributions[j], req.segmentID, id);
  }

  /** So does every distribution that the segment loads. */
  lemma LoadedIsRequested(lib: Library, db: DB, req: Request, d: Distribution) returns (j: nat)
    requires req.PutDistributions? && InBounds(req) && AcceptsDistributions(db, req.flagID, req.distributions)
    requires d in LoadDistributions(Step(lib, db, req), req.segmentID)
    ensures j < |req.distributions| && d.id == |db.distributions| + j + 1
    ensures Delivers(d, req.distributions[j])
  {
    LoadedRow(Step(lib, db, req), req.segmentID, d);
    j := RowIsDelivered(lib, db, req, d.id);
  }

  /** The request's rows stand behind the old ones. */
  lemma RowOfBody(lib: Library, db: DB, req: Request, j: nat)
    requires req.PutDistributions? && AcceptsDistributions(db, req.flagID, req.distributions)
    requires j < |req.distributions|
    ensures var t := Step(lib, db, req).distributions;
            && |db.distributions| + j < |t|
            && t[|db.distributions| + j] == MapDistribution(req.distributions[j], req.segmentID)
  {
    FinishKeepsTables(EditOf(lib, db, req), req.flagID, req.subject);
  }

  lemma RequestedIsLoaded(lib: Library, db: DB, req: Request, j: nat) returns (a: nat)
    requires req.PutDistributions? && InBounds(req) && AcceptsDistributions(db, req.flagID, req.distributions)
    requires j < |req.distributions|
    ensures var ds := LoadDistributions(Step(lib, db, req), req.segmentID);
            a < |ds| && Delivers(ds[a], req.distributions[j])
  {
    var db', id := Step(lib, db, req), |db.distributions| + j + 1;
    RowOfBody(lib, db, req, j);
    RowLoaded(db', req.segmentID, id);
    a := IndexOf(LoadDistributions(db', req.segmentID), MakeDistribution(id, db'.distributions[id - 1]));
    BodyIsBounded(db, req, j);
    MappedExactly(req.distributions[j], req.segmentID, id);
  }

  lemma IndexOf<T>(xs: seq<T>, x: T) returns (i: nat)
    requires x in xs
    ensures i < |xs| && xs[i] == x
  {
    i :| 0 <= i < |xs| && xs[i] == x;
  }

  ghost predicate DistinctRequest(ds: seq<DistributionBody>) {
    forall i, j :: 0 <= i < j < |ds| ==> ds[i].variantID != ds[j].variantID
  }

  lemma LoadedIsDistinct(lib: Library, db: DB, req: Request)
    requires req.PutDistributions? && InBounds(req) && AcceptsDistributions(db, req.flagID, req.distributions)
    requires DistinctRequest(req.distributions)
    ensures DistinctVariants(LoadDistributions(Step(lib, db, req), req.segmentID))
  {
    var db' := Step(lib, db, req);
    var ds := LoadDistributions(db', req.segmentID);
    ChildrenAscend(db'.distributions, req.segmentID, MakeDistribution, DistributionIDOf);
    SortByOrdered(Children(db'.distributions, req.segmentID, MakeDistribution), VariantIDOf, DistributionIDOf);
    forall a, b | 0 <= a < b < |ds|
      ensures ds[a].variantID != ds[b].variantID
    {
      var i := LoadedIsRequested(lib, db, req, ds[a]);
      var j := LoadedIsRequested(lib, db, req, ds[b]);
      assert Precedes(ds[a], ds[b], VariantIDOf, DistributionIDOf);
    }
  }

  /** What is asked for is delivered: after an accepted request that names each variant once,
      a variant requested with p percent is assigned exactly the admitted part of 10*p
      buckets, at every rollout percentage. */
  lemma RequestedSharesAreDelivered(lib: Library, db: DB, req: Request, j: nat, rolloutPercent: nat)
    requires req.PutDistributions? && InBounds(req) && AcceptsDistributions(db, req.flagID, req.distributions)
    requires DistinctRequest(req.distributions) && j < |req.distributions| && rolloutPercent <= 100
    ensures |BucketsOf(ArrayOf(LoadDistributions(Step(lib, db, req), req.segmentID)),
                       req.distributions[j].variantID, rolloutPercent)|
            == Admitted(10 * req.distributions[j].percent.value, rolloutPercent)
  {
    var db' := Step(lib, db, req);
    var ds := LoadDistributions(db', req.segmentID);
    FinishKeepsTables(EditOf(lib, db, req), req.flagID, req.subject);
    ReplacedWeight(db.distributions, req.distributions, req.segmentID, req.segmentID);
    LoadedSum(db', req.segmentID);
    LoadedIsDistinct(lib, db, req);
    var a := RequestedIsLoaded(lib, db, req, j);
    VariantShare(ds, a, rolloutPercent);
  }

  // ----- a renamed variant -----

  /** The same rows but for the variant keys. */
  ghost predicate SamePercents(ds: seq<Distribution>, es: seq<Distribution>) {
    |ds| == |es| && forall i :: 0 <= i < |ds| ==> ds[i].variantID == es[i].variantID && ds[i].percent == es[i].percent
  }

  lemma {:induction false} SamePercentsAccumulate(ds: seq<Distribution>, es: seq<Distribution>, base: int)
    requires SamePercents(ds, es)
    ensures Accumulate(ds, base) == Accumulate(es, base)
  {
    if ds != [] {
      SamePercentsAccumulate(ds[1..], es[1..], NextEdge(base, ds[0]));
    }
  }

  lemma SamePercentsSameArray(ds: seq<Distribution>, es: seq<Distribution>)
    requires SamePercents(ds, es)
    ensures ArrayOf(ds) == ArrayOf(es)
  {
    SamePercentsAccumulate(ds, es, 0);
    assert ArrayOf(ds).variantIDs == ArrayOf(es).variantIDs;
  }

  lemma {:induction false} SamePercentsInsert(ds: seq<Distribution>, es: seq<Distribution>, d: Distribution,
                                              e: Distribution)
    requires SamePercents(ds, es) && d.variantID == e.variantID && d.percent == e.percent
    ensures SamePercents(Insert(ds, d, VariantIDOf), Insert(es, e, VariantIDOf))
  {
    if ds != [] && VariantIDOf(ds[|ds| - 1]) > VariantIDOf(d) {
      SamePercentsInsert(ds[..|ds| - 1], es[..|es| - 1], d, e);
    }
  }

  lemma {:induction false} SamePercentsSortBy(ds: seq<Distribution>, es: seq<Distribution>)
    requires SamePercents(ds, es)
    ensures SamePercents(SortBy(ds, VariantIDOf), SortBy(es, VariantIDOf))
  {
    if ds != [] {
      SamePercentsSortBy(ds[..|ds| - 1], es[..|es| - 1]);
      SamePercentsInsert(SortBy(ds[..|ds| - 1], VariantIDOf), SortBy(es[..|es| - 1], VariantIDOf),
                         ds[|ds| - 1], es[|es| - 1]);
    }
  }

  lemma {:induction false} RenamedChildren(t: seq<Row<DistributionData>>, variantID: nat, key: string, segmentID: nat)
    ensures SamePercents(Children(t, segmentID, MakeDistribution),
                         Children(RenameIn(t, variantID, key), segmentID, MakeDistribution))
  {
    if t != [] {
      assert RenameIn(t, variantID, key)[..|t| - 1] == RenameIn(t[..|t| - 1], variantID, key);
      RenamedChildren(t[..|t| - 1], variantID, key, segmentID);
    }
  }

  lemma RenamedArray(lib: Library, db: DB, req: Request, segmentID: nat)
    requires req.PutVariant?
    ensures ArrayOf(LoadDistributions(db, segmentID)) == ArrayOf(LoadDistributions(Step(lib, db, req), segmentID))
  {
    FinishKeepsTables(EditOf(lib, db, req), req.flagID, req.subject);
    RenamedChildren(db.distributions, req.variantID, req.variantKey, segmentID);
    SamePercentsSortBy(Children(db.distributions, segmentID, MakeDistribution),
                       Children(RenameIn(db.distributions, req.variantID, req.variantKey),
                                segmentID, MakeDistribution));
    SamePercentsSameArray(LoadDistributions(db, segmentID), LoadDistributions(Step(lib, db, req), segmentID));
  }

  lemma PutVariantLoads(lib: Library, db: DB, req: Request, flagID: nat)
    requires req.PutVariant? && Exists(db.flags, flagID)
    ensures var db' := Step(lib, db, req);
            && Exists(db'.flags, flagID)
            && var f, g := Load(db, flagID), Load(db', flagID);
               g == f.(segments := g.segments, variants := g.variants, snapshotID := g.snapshotID,
                   updatedBy := g.updatedBy)
  {
    var edited := Result(EditPutVariant(db, req));
    assert edited == db.(variants := edited.variants, distributions := edited.distributions);
    SnapshotLoads(edited, req.flagID, req.subject, flagID);
  }

  lemma PutVariantSegments(lib: Library, db: DB, req: Request, flagID: nat, i: nat)
    requires req.PutVariant? && i < |LoadSegments(db, flagID)|
    ensures var ss, ts := LoadSegments(db, flagID), LoadSegments(Step(lib, db, req), flagID);
            && |ss| == |ts|
            && ts[i] == ss[i].(distributions := ts[i].distributions)
            && ArrayOf(ss[i].distributions) == ArrayOf(ts[i].distributions)
  {
    FinishKeepsTables(EditOf(lib, db, req), req.flagID, req.subject);
    assert SegmentRows(Step(lib, db, req), flagID) == SegmentRows(db, flagID);
    RenamedArray(lib, db, req, SegmentRows(db, flagID)[i].id);
  }

  lemma PutVariantSameSegments(lib: Library, db: DB, req: Request, flagID: nat, ctx: EvalContext)
    requires req.PutVariant? && Exists(db.flags, flagID)
    ensures var db' := Step(lib, db, req);
            && Exists(db'.flags, flagID)
            && (Preparable(lib, Load(db, flagID)) <==> Preparable(lib, Load(db', flagID)))
            && (Preparable(lib, Load(db, flagID)) ==>
                  SameSegments(lib, flagID, ctx, PreparedSegments(lib, Load(db, flagID)),
                      PreparedSegments(lib, Load(db', flagID))))
  {
    var db' := Step(lib, db, req);
    PutVariantLoads(lib, db, req, flagID);
    var f, g := Load(db, flagID), Load(db', flagID);
    forall i | 0 <= i < |f.segments|
      ensures |f.segments| == |g.segments|
      ensures g.segments[i] == f.segments[i].(distributions := g.segments[i].distributions)
      ensures SegmentEvaluationOf(lib, f.segments[i]) == SegmentEvaluationOf(lib, g.segments[i])
    {
      PutVariantSegments(lib, db, req, flagID, i);
    }
    assert |f.segments| == |g.segments| by {
      FinishKeepsTables(EditOf(lib, db, req), req.flagID, req.subject);
      assert SegmentRows(db', flagID) == SegmentRows(db, flagID);
    }
  }

  lemma PutVariantVariants(lib: Library, db: DB, req: Request, flagID: nat, id: nat)
    requires req.PutVariant? && id != req.variantID
    ensures VariantAt(VariantsMap(LoadVariants(db, flagID)), id)
            == VariantAt(VariantsMap(LoadVariants(Step(lib, db, req), flagID)), id)
  {
    FinishKeepsTables(EditOf(lib, db, req), req.flagID, req.subject);
    VariantsMapOfLoaded(db, flagID, id);
    VariantsMapOfLoaded(Step(lib, db, req), flagID, id);
  }

  /** The same segment and variant; the whole answer the same unless it is the given variant. */
  ghost predicate SameBut(a: Evaluation, b: Evaluation, variantID: nat) {
    && a.Evaluated? == b.Evaluated?
    && (a.Evaluated? ==>
          && a.result.segmentID == b.result.segmentID && a.result.variantID == b.result.variantID
          && (a.result.variantID != variantID ==> SameAnswer(a, b)))
  }

  lemma AnswersBut(p: Flag, q: Flag, ctx: EvalContext, segmentID: nat, id: nat, variantID: nat)
    requires q == p.(segments := q.segments, variants := q.variants, snapshotID := q.snapshotID,
                     updatedBy := q.updatedBy, variantsMap := q.variantsMap)
    requires id != variantID ==> VariantAt(p.variantsMap, id) == VariantAt(q.variantsMap, id)
    ensures SameBut(Evaluated(Answer(p, ctx, segmentID, id)), Evaluated(Answer(q, ctx, segmentID, id)), variantID)
  {
  }

  lemma DecisionsBut(lib: Library, p: Flag, q: Flag, ctx: EvalContext, random: nat, variantID: nat)
    requires q == p.(segments := q.segments, variants := q.variants, snapshotID := q.snapshotID,
                     updatedBy := q.updatedBy, variantsMap := q.variantsMap)
    requires forall id :: id != variantID ==> VariantAt(p.variantsMap, id) == VariantAt(q.variantsMap, id)
    requires SameSegments(lib, p.id, FillContext(p, ctx, random), p.segments, q.segments)
    ensures SameBut(EvaluateFlag(lib, p, ctx, random), EvaluateFlag(lib, q, ctx, random), variantID)
  {
    if p.enabled && p.segments != [] {
      var filled := FillContext(p, ctx, random);
      SameSegmentsDecideAlike(lib, p.id, filled, p.segments, q.segments);
      var decision := Decide(lib, p.id, filled, p.segments);
      AnswersBut(p, q, filled, decision.segmentID,
                 if decision.outcome.Assigned? then decision.outcome.variantID else 0, variantID);
    }
  }

  /** Putting a variant reassigns nobody: whatever the state and the address, every flag gives
      every entity the same segment and variant as before, and the same answer altogether
      unless the variant assigned is the one that was put. */
  lemma PutVariantReassignsNobody(lib: Library, db: DB, req: Request, flagID: nat, ctx: EvalContext, random: nat)
    requires req.PutVariant? && Exists(db.flags, flagID)
    ensures Exists(Step(lib, db, req).flags, flagID)
    ensures var before, after := Prepare(lib, Load(db, flagID)), Prepare(lib, Load(Step(lib, db, req), flagID));
            && (before.Some? <==> after.Some?)
            && (before.Some? ==>
                  SameBut(EvaluateFlag(lib, before.value, ctx, random), EvaluateFlag(lib, after.value, ctx, random),
                      req.variantID))
  {
    PutVariantLoads(lib, db, req, flagID);
    var f, g := Load(db, flagID), Load(Step(lib, db, req), flagID);
    PutVariantSameSegments(lib, db, req, flagID, FillContext(f, ctx, random));
    if Preparable(lib, f) {
      var p, q := Prepare(lib, f).value, Prepare(lib, g).value;
      forall id | id != req.variantID
        ensures VariantAt(p.variantsMap, id) == VariantAt(q.variantsMap, id)
      {
        PutVariantVariants(lib, db, req, flagID, id);
      }
      assert FillContext(p, ctx, random) == FillContext(f, ctx, random);
      DecisionsBut(lib, p, q, ctx, random, req.variantID);
    }
  }

  // ----- deleting and restoring a flag -----

  /** Restoring undoes deleting: the flag is gone in between and afterwards loads as before,
      but for the snapshot that the restore takes. */
  lemma RestoreUndoesDelete(lib: Library, db: DB, flagID: nat, subject: string)
    requires LiveFlag(db, flagID)
    ensures var deleted := Step(lib, db, DeleteFlag(flagID));
            var restored := Step(lib, deleted, RestoreFlag(flagID, subject));
            && !LiveFlag(deleted, flagID)
            && LiveFlag(restored, flagID)
            && Load(restored, flagID) == Load(db, flagID).(snapshotID := |db.snapshots| + 1, updatedBy := subject)
  {
    var deleted := Step(lib, db, DeleteFlag(flagID));
    assert deleted == SetFlag(db, flagID, db.flags[flagID - 1].(live := false));
    var edited := Result(EditOf(lib, deleted, RestoreFlag(flagID, subject)));
    assert edited == db by {
      assert edited.flags == db.flags;
    }
    SnapshotLoads(db, flagID, subject, flagID);
  }

  // ----- a constraint more -----

  ghost predicate AllReadable(lib: Library, db: DB, flagID: nat) {
    forall i :: 0 <= i < |LoadSegments(db, flagID)| ==>
      Exists(db.segments, LoadSegments(db, flagID)[i].id) && Readable(lib, db, LoadSegments(db, flagID)[i].id)
  }

  lemma CreatedConstraintLoads(lib: Library, db: DB, req: Request, flagID: nat)
    requires req.CreateConstraint? && Exists(db.flags, flagID)
    ensures var db' := Step(lib, db, req);
            && Exists(db'.flags, flagID)
            && var f, g := Load(db, flagID), Load(db', flagID);
               && g == f.(segments := g.segments, snapshotID := g.snapshotID, updatedBy := g.updatedBy)
               && |g.segments| == |f.segments|
               && forall i :: 0 <= i < |f.segments| ==>
                    g.segments[i] == f.segments[i].(constraints := LoadConstraints(db', f.segments[i].id))
  {
    var db' := Step(lib, db, req);
    ConstraintEditKeepsTables(lib, db, req);
    ConstraintEditKeepsFlags(lib, db, req, flagID);
    assert SegmentRows(db', flagID) == SegmentRows(db, flagID);
  }

  /** A loaded segment of a flag that prepares matches as the segment in the tables does. */
  lemma PreparedMatchesIn(lib: Library, db: DB, flagID: nat, i: nat, ctx: EvalContext)
    requires Exists(db.flags, flagID) && Preparable(lib, Load(db, flagID)) && i < |LoadSegments(db, flagID)|
    ensures var id := LoadSegments(db, flagID)[i].id;
            && Exists(db.segments, id) && LoadSegments(db, flagID)[i] == SegmentIn(db, id)
            && SegmentEvaluationOf(lib, SegmentIn(db, id)).Some?
            && (Matches(lib, ctx, PreparedSegments(lib, Load(db, flagID))[i]) <==> MatchesIn(lib, db, id, ctx))
  {
    LoadedSegment(db, flagID, i);
    assert SegmentEvaluationOf(lib, Load(db, flagID).segments[i]).Some?;
  }

  lemma SatisfiedSegment(lib: Library, db: DB, req: Request, flagID: nat, i: nat, ctx: EvalContext)
    requires req.CreateConstraint? && ValidConstraint(lib, req.constraint) && Satisfies(lib, ctx, req.constraint)
    requires Exists(db.flags, flagID) && Exists(Step(lib, db, req).flags, flagID) && i < |LoadSegments(db, flagID)|
    requires Preparable(lib, Load(db, flagID)) && Preparable(lib, Load(Step(lib, db, req), flagID))
    requires AllReadable(lib, db, flagID) && AllReadable(lib, Step(lib, db, req), flagID)
    ensures var ss := PreparedSegments(lib, Load(db, flagID));
            var ts := PreparedSegments(lib, Load(Step(lib, db, req), flagID));
            && |ss| == |ts| && ss[i].id == ts[i].id
            && Matches(lib, ctx, ss[i]) == Matches(lib, ctx, ts[i])
            && RolloutOf(lib, flagID, ctx, ss[i]) == RolloutOf(lib, flagID, ctx, ts[i])
  {
    var db' := Step(lib, db, req);
    CreatedConstraintLoads(lib, db, req, flagID);
    PreparedMatchesIn(lib, db, flagID, i, ctx);
    PreparedMatchesIn(lib, db', flagID, i, ctx);
    CreatedConstraintNarrows(lib, db, req, LoadSegments(db, flagID)[i].id, ctx);
  }

  /** A created constraint spares everybody who satisfies it: those entities keep their whole answer. */
  lemma CreatedConstraintSparesTheSatisfied(lib: Library, db: DB, req: Request, flagID: nat, ctx: EvalContext,
                                            random: nat)
    requires req.CreateConstraint? && ValidConstraint(lib, req.constraint) && Satisfies(lib, ctx, req.constraint)
    requires Exists(db.flags, flagID) && Exists(Step(lib, db, req).flags, flagID)
    requires Preparable(lib, Load(db, flagID)) && Preparable(lib, Load(Step(lib, db, req), flagID))
    requires AllReadable(lib, db, flagID) && AllReadable(lib, Step(lib, db, req), flagID)
    ensures SameAnswer(EvaluateFlag(lib, Prepare(lib, Load(db, flagID)).value, ctx, random),
                       EvaluateFlag(lib, Prepare(lib, Load(Step(lib, db, req), flagID)).value, ctx, random))
  {
    CreatedConstraintLoads(lib, db, req, flagID);
    var p, q := Prepare(lib, Load(db, flagID)).value, Prepare(lib, Load(Step(lib, db, req), flagID)).value;
    if p.segments != [] {
      var filled := FillContext(p, ctx, random);
      forall i | 0 <= i < |p.segments|
        ensures p.segments[i].id == q.segments[i].id
        ensures Matches(lib, filled, p.segments[i]) == Matches(lib, filled, q.segments[i])
        ensures RolloutOf(lib, flagID, filled, p.segments[i]) == RolloutOf(lib, flagID, filled, q.segments[i])
      {
        SatisfiedSegment(lib, db, req, flagID, i, filled);
      }
      SameSegmentsDecideAlike(lib, flagID, filled, p.segments, q.segments);
      SameDecisionSameAnswer(lib, p, q, ctx, random);
    }
  }
}
