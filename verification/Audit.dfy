/** The snapshot that a live flag points to evaluates like the live flag, for every entity,
    after every run of well-addressed requests; and deleting a variant, whether it succeeds
    or is refused part-way, changes nobody's evaluation. */
module Audit {
  import opened Entities
  import opened Bucketing
  import opened Preparation
  import opened Evaluation
  import opened Tables
  import opened Database
  import opened Handlers
  import opened Integrity
  import opened Agreement
  import opened Frames

  // ----- flags up to zero-percent rows -----

  function HasPercent(d: Distribution): bool { d.percent != 0 }

  function Normal(f: Flag): Flag {
    f.(segments := NormalSegments(f.segments), snapshotID := 0, updatedBy := "")
  }

  function NormalSegments(ss: seq<Segment>): (ns: seq<Segment>)
    ensures |ns| == |ss|
  {
    seq(|ss|, i requires 0 <= i < |ss| => ss[i].(distributions := Keep(ss[i].distributions, HasPercent)))
  }

  lemma {:induction false} PruneAppend(ds: seq<Distribution>, d: Distribution)
    ensures Prune(ds + [d]) == if d.percent == 0 then Prune(ds) else Prune(ds) + [d]
  {
    if ds == [] {
      assert [d][1..] == [];
      assert ds + [d] == [d];
    } else {
      PruneAppend(ds[1..], d);
      PruneFirst(ds + [d]);
      PruneFirst(ds);
      assert (ds + [d])[1..] == ds[1..] + [d];
    }
  }

  lemma PruneFirst(ds: seq<Distribution>)
    requires ds != []
    ensures Prune(ds) == if ds[0].percent == 0 then Prune(ds[1..]) else [ds[0]] + Prune(ds[1..])
  {
  }

  lemma {:induction false} PruneIsKeep(ds: seq<Distribution>)
    ensures Prune(ds) == Keep(ds, HasPercent)
  {
    if ds != [] {
      var init, last := ds[..|ds| - 1], ds[|ds| - 1];
      PruneIsKeep(init);
      PruneAppend(init, last);
      assert ds == init + [last];
    }
  }

  /** Percentages that evaluation can rely on. */
  ghost predicate WellDistributed(f: Flag) {
    forall i :: 0 <= i < |f.segments| ==>
      EmptyOrFull(f.segments[i].distributions) && f.segments[i].rolloutPercent <= 100
  }

  lemma LoadedIsWellDistributed(db: DB, flagID: nat)
    requires SumsExact(db) && RolloutsBounded(db) && Exists(db.flags, flagID)
    ensures WellDistributed(Load(db, flagID))
  {
    forall i | 0 <= i < |LoadSegments(db, flagID)|
      ensures EmptyOrFull(LoadSegments(db, flagID)[i].distributions)
      ensures LoadSegments(db, flagID)[i].rolloutPercent <= 100
    {
      LoadedSegment(db, flagID, i);
      LoadedSum(db, LoadSegments(db, flagID)[i].id);
    }
  }

  // ----- evaluation does not see zero-percent rows -----

  /** A variant that the flag may assign. */
  ghost predicate Assignable(f: Flag, variantID: nat) {
    exists i, d ::
      0 <= i < |f.segments| && d in f.segments[i].distributions && d.percent > 0 && d.variantID == variantID
  }

  function VariantAt(m: map<nat, Variant>, id: nat): Option<Variant> {
    if id in m then Some(m[id]) else None
  }

  /** The flags differ at most in zero-percent rows, snapshot, updater and variants, and
      agree on the variants that may be assigned. */
  ghost predicate Alike(f: Flag, g: Flag) {
    && Normal(f).(variants := []) == Normal(g).(variants := [])
    && VariantAt(VariantsMap(f.variants), 0) == VariantAt(VariantsMap(g.variants), 0)
    && (forall id :: Assignable(g, id) ==>
          VariantAt(VariantsMap(f.variants), id) == VariantAt(VariantsMap(g.variants), id))
  }

  lemma SegmentsAlike(f: Flag, g: Flag, i: nat)
    requires NormalSegments(f.segments) == NormalSegments(g.segments) && i < |f.segments|
    ensures |f.segments| == |g.segments|
    ensures f.segments[i].(distributions := []) == g.segments[i].(distributions := [])
    ensures Prune(f.segments[i].distributions) == Prune(g.segments[i].distributions)
  {
    var s, t := f.segments[i], g.segments[i];
    assert NormalSegments(f.segments)[i] == NormalSegments(g.segments)[i];
    assert s.(distributions := Keep(s.distributions, HasPercent))
           == t.(distributions := Keep(t.distributions, HasPercent));
    PruneIsKeep(s.distributions);
    PruneIsKeep(t.distributions);
  }

  lemma PreparableAlike(lib: Library, f: Flag, g: Flag)
    requires NormalSegments(f.segments) == NormalSegments(g.segments)
    ensures Preparable(lib, f) ==> Preparable(lib, g)
  {
    if Preparable(lib, f) {
      forall i | 0 <= i < |g.segments|
        ensures SegmentEvaluationOf(lib, g.segments[i]).Some?
      {
        SegmentsAlike(f, g, i);
        assert SegmentEvaluationOf(lib, f.segments[i]).Some?;
      }
    }
  }

  lemma PreparedSegmentsAlike(lib: Library, f: Flag, g: Flag, ctx: EvalContext)
    requires NormalSegments(f.segments) == NormalSegments(g.segments)
    requires WellDistributed(f) && WellDistributed(g) && Preparable(lib, f) && Preparable(lib, g)
    ensures SameSegments(lib, f.id, ctx, PreparedSegments(lib, f), PreparedSegments(lib, g))
  {
    var ss, ts := PreparedSegments(lib, f), PreparedSegments(lib, g);
    forall i | 0 <= i < |ss|
      ensures ss[i].id == ts[i].id && Matches(lib, ctx, ss[i]) == Matches(lib, ctx, ts[i])
      ensures RolloutOf(lib, f.id, ctx, ss[i]) == RolloutOf(lib, f.id, ctx, ts[i])
    {
      SegmentsAlike(f, g, i);
      SamePrunedSameRollout(lib, f.segments[i].distributions, g.segments[i].distributions,
                            ctx.entityID, Text.Decimal(f.id), f.segments[i].rolloutPercent);
    }
  }

  /** Whatever a prepared segment assigns is assignable. */
  lemma AssignedIsAssignable(lib: Library, g: Flag, ctx: EvalContext, k: nat)
    requires WellDistributed(g) && Preparable(lib, g) && k < |g.segments|
    requires RolloutOf(lib, g.id, ctx, PreparedSegments(lib, g)[k]).Assigned?
    ensures Assignable(g, RolloutOf(lib, g.id, ctx, PreparedSegments(lib, g)[k]).variantID)
  {
    var s := g.segments[k];
    var bucket := Crc32Num(lib, ctx.entityID, Text.Decimal(g.id));
    RolloutRefinesWalk(s.distributions, bucket, s.rolloutPercent);
    AssignedIsListed(lib, s.distributions, bucket, s.rolloutPercent);
  }

  /** Alike flags prepare alike and answer alike, for every entity. */
  ghost predicate EvaluateAlike(lib: Library, f: Flag, g: Flag) {
    && (Prepare(lib, f).Some? <==> Prepare(lib, g).Some?)
    && (Prepare(lib, f).Some? ==> forall ctx, random: nat ::
          SameAnswer(EvaluateFlag(lib, Prepare(lib, f).value, ctx, random),
                     EvaluateFlag(lib, Prepare(lib, g).value, ctx, random)))
  }

  lemma AlikeDecisions(lib: Library, f: Flag, g: Flag, ctx: EvalContext)
    requires Alike(f, g) && WellDistributed(f) && WellDistributed(g) && Preparable(lib, f) && Preparable(lib, g)
    requires f.segments != []
    ensures g.segments != []
    ensures var decision := Decide(lib, f.id, ctx, PreparedSegments(lib, f));
            && decision == Decide(lib, g.id, ctx, PreparedSegments(lib, g))
            && (decision.outcome.Assigned? ==>
                  var id := decision.outcome.variantID;
                  VariantAt(VariantsMap(f.variants), id) == VariantAt(VariantsMap(g.variants), id))
  {
    PreparedSegmentsAlike(lib, f, g, ctx);
    SameSegmentsDecideAlike(lib, f.id, ctx, PreparedSegments(lib, f), PreparedSegments(lib, g));
    var k := FirstMatch(lib, ctx, PreparedSegments(lib, g));
    if k < |g.segments| && RolloutOf(lib, g.id, ctx, PreparedSegments(lib, g)[k]).Assigned? {
      AssignedIsAssignable(lib, g, ctx, k);
    }
  }

  lemma SameVariantSameAnswer(p: Flag, q: Flag, ctx: EvalContext, segmentID: nat, variantID: nat)
    requires BlankResult(p, ctx).(flagSnapshotID := 0) == BlankResult(q, ctx).(flagSnapshotID := 0)
    requires VariantAt(p.variantsMap, variantID) == VariantAt(q.variantsMap, variantID)
    ensures Answer(p, ctx, segmentID, variantID).(flagSnapshotID := 0)
            == Answer(q, ctx, segmentID, variantID).(flagSnapshotID := 0)
  {
  }

  lemma AlikeAnswers(lib: Library, f: Flag, g: Flag, ctx: EvalContext, random: nat)
    requires Alike(f, g) && WellDistributed(f) && WellDistributed(g) && Preparable(lib, f) && Preparable(lib, g)
    ensures SameAnswer(EvaluateFlag(lib, Prepare(lib, f).value, ctx, random),
                       EvaluateFlag(lib, Prepare(lib, g).value, ctx, random))
  {
    var p, q := Prepare(lib, f).value, Prepare(lib, g).value;
    assert |f.segments| == |g.segments| by {
      assert |NormalSegments(f.segments)| == |NormalSegments(g.segments)|;
    }
    if p.enabled && p.segments != [] {
      var filled := FillContext(p, ctx, random);
      AlikeDecisions(lib, f, g, filled);
      var decision := Decide(lib, f.id, filled, p.segments);
      if decision.outcome.Assigned? {
        SameVariantSameAnswer(p, q, filled, decision.segmentID, decision.outcome.variantID);
      } else {
        SameVariantSameAnswer(p, q, filled, decision.segmentID, 0);
      }
    }
  }

  lemma AlikeEvaluateAlike(lib: Library, f: Flag, g: Flag)
    requires Alike(f, g) && WellDistributed(f) && WellDistributed(g)
    ensures EvaluateAlike(lib, f, g)
  {
    PreparableAlike(lib, f, g);
    PreparableAlike(lib, g, f);
    if Prepare(lib, f).Some? {
      forall ctx, random: nat
        ensures SameAnswer(EvaluateFlag(lib, Prepare(lib, f).value, ctx, random),
                           EvaluateFlag(lib, Prepare(lib, g).value, ctx, random))
      {
        AlikeAnswers(lib, f, g, ctx, random);
      }
    }
  }

  lemma SameNormalIsAlike(f: Flag, g: Flag)
    requires Normal(f) == Normal(g)
    ensures Alike(f, g)
  {
    assert f.variants == g.variants;
  }

  // ----- deleting a variant -----

  lemma {:induction false} KilledChildren(t: seq<Row<DistributionData>>, ids: set<nat>, segmentID: nat)
    requires forall id :: id in ids && Exists(t, id) ==> t[id - 1].data.percent == 0
    ensures Keep(Children(Kill(t, ids), segmentID, MakeDistribution), HasPercent)
            == Keep(Children(t, segmentID, MakeDistribution), HasPercent)
  {
    if t != [] {
      var init, last := t[..|t| - 1], t[|t| - 1];
      assert Kill(t, ids)[..|t| - 1] == Kill(init, ids);
      forall id | id in ids && Exists(init, id)
        ensures init[id - 1].data.percent == 0
      {
        assert Exists(t, id);
      }
      KilledChildren(init, ids, segmentID);
      if |t| in ids {
        assert Exists(t, |t|);
      }
      KeepAppended(Children(init, segmentID, MakeDistribution), MakeDistribution(|t|, last));
      KeepAppended(Children(Kill(init, ids), segmentID, MakeDistribution), MakeDistribution(|t|, last));
      assert Children(init, segmentID, MakeDistribution) + [] == Children(init, segmentID, MakeDistribution);
      assert Children(Kill(init, ids), segmentID, MakeDistribution) + []
          == Children(Kill(init, ids), segmentID, MakeDistribution);
    }
  }

  lemma KeepAppended(ds: seq<Distribution>, d: Distribution)
    ensures Keep(ds + [d], HasPercent) == if d.percent != 0 then Keep(ds, HasPercent) + [d] else Keep(ds, HasPercent)
  {
    assert (ds + [d])[..|ds|] == ds;
  }

  lemma KilledDistributions(db: DB, ids: set<nat>, segmentID: nat)
    requires forall id :: id in ids && Exists(db.distributions, id) ==> db.distributions[id - 1].data.percent == 0
    ensures var db' := db.(distributions := Kill(db.distributions, ids));
            Keep(LoadDistributions(db', segmentID), HasPercent) == Keep(LoadDistributions(db, segmentID), HasPercent)
  {
    KilledChildren(db.distributions, ids, segmentID);
    KeepSortBy(Children(db.distributions, segmentID, MakeDistribution), VariantIDOf, HasPercent);
    KeepSortBy(Children(Kill(db.distributions, ids), segmentID, MakeDistribution), VariantIDOf, HasPercent);
  }

  /** Soft-deleting zero-percent rows leaves every flag's normal segments unchanged. */
  lemma KilledSegments(db: DB, ids: set<nat>, flagID: nat)
    requires forall id :: id in ids && Exists(db.distributions, id) ==> db.distributions[id - 1].data.percent == 0
    ensures var db' := db.(distributions := Kill(db.distributions, ids));
            NormalSegments(LoadSegments(db', flagID)) == NormalSegments(LoadSegments(db, flagID))
  {
    var db' := db.(distributions := Kill(db.distributions, ids));
    var ss, ss' := LoadSegments(db, flagID), LoadSegments(db', flagID);
    forall i | 0 <= i < |ss|
      ensures NormalSegments(ss')[i] == NormalSegments(ss)[i]
    {
      KilledDistributions(db, ids, SegmentRows(db, flagID)[i].id);
    }
  }

  lemma DoomedAreZero(db: DB, flagID: nat, variantID: nat)
    ensures forall id :: id in Doomed(Visited(LoadSegments(db, flagID), variantID)) && Exists(db.distributions, id)
              ==> db.distributions[id - 1].data.percent == 0
  {
    forall id | id in Doomed(Visited(LoadSegments(db, flagID), variantID)) && Exists(db.distributions, id)
      ensures db.distributions[id - 1].data.percent == 0
    {
      DoomedRows(db, flagID, variantID, id);
    }
  }

  lemma DeleteVariantSegments(db: DB, req: Request, flagID: nat)
    requires req.DeleteVariant?
    ensures NormalSegments(LoadSegments(Result(EditDeleteVariant(db, req)), flagID))
            == NormalSegments(LoadSegments(db, flagID))
  {
    if LiveFlag(db, req.flagID) {
      var doomed := Doomed(Visited(LoadSegments(db, req.flagID), req.variantID));
      DoomedAreZero(db, req.flagID, req.variantID);
      KilledSegments(db, doomed, flagID);
      var checked := db.(distributions := Kill(db.distributions, doomed));
      assert LoadSegments(Result(EditDeleteVariant(db, req)), flagID) == LoadSegments(checked, flagID);
    }
  }

  /** A refused deletion leaves the flag the same up to zero-percent rows. */
  lemma RefusedDeletion(db: DB, req: Request, flagID: nat)
    requires req.DeleteVariant? && EditDeleteVariant(db, req).Refused? && Exists(db.flags, flagID)
    ensures Normal(Load(Result(EditDeleteVariant(db, req)), flagID)) == Normal(Load(db, flagID))
  {
    DeleteVariantSegments(db, req, flagID);
    assert LoadVariants(Result(EditDeleteVariant(db, req)), flagID) == LoadVariants(db, flagID);
  }

  lemma AssignableIsLive(db: DB, flagID: nat, id: nat)
    requires KeysAgree(db) && Exists(db.flags, flagID) && Assignable(Load(db, flagID), id)
    ensures Live(db.variants, id) && Owned(db.variants, id, flagID)
  {
    var i, d :| 0 <= i < |LoadSegments(db, flagID)| && d in LoadSegments(db, flagID)[i].distributions
                && d.percent > 0 && d.variantID == id;
    LoadedDistributionAgrees(db, flagID, i, d);
    VariantsMapOfLoaded(db, flagID, id);
  }

  /** A variant that is still live after the deletion is found as before; 0 never is a variant. */
  lemma DeletionKeepsVariant(lib: Library, db: DB, req: Request, id: nat)
    requires req.DeleteVariant? && (id == 0 || Live(Step(lib, db, req).variants, id))
    ensures VariantAt(VariantsMap(LoadVariants(db, req.flagID)), id)
            == VariantAt(VariantsMap(LoadVariants(Step(lib, db, req), req.flagID)), id)
  {
    FinishKeepsTables(EditOf(lib, db, req), req.flagID, req.subject);
    VariantsMapOfLoaded(db, req.flagID, id);
    VariantsMapOfLoaded(Step(lib, db, req), req.flagID, id);
  }

  lemma DeletionIsNormal(lib: Library, db: DB, req: Request)
    requires req.DeleteVariant? && Exists(db.flags, req.flagID)
    ensures Exists(Step(lib, db, req).flags, req.flagID)
    ensures Normal(Load(db, req.flagID)).(variants := [])
            == Normal(Load(Step(lib, db, req), req.flagID)).(variants := [])
  {
    DeleteVariantSegments(db, req, req.flagID);
    SnapshotLoads(Result(EditDeleteVariant(db, req)), req.flagID, req.subject, req.flagID);
  }

  lemma DeletionIsAlike(lib: Library, db: DB, req: Request)
    requires req.DeleteVariant? && Exists(db.flags, req.flagID)
    requires KeysAgree(Step(lib, db, req))
    ensures Exists(Step(lib, db, req).flags, req.flagID)
    ensures Alike(Load(db, req.flagID), Load(Step(lib, db, req), req.flagID))
  {
    DeletionIsNormal(lib, db, req);
    DeletionKeepsVariant(lib, db, req, 0);
    var f, g := Load(db, req.flagID), Load(Step(lib, db, req), req.flagID);
    forall id | Assignable(g, id)
      ensures VariantAt(VariantsMap(f.variants), id) == VariantAt(VariantsMap(g.variants), id)
    {
      AssignableIsLive(Step(lib, db, req), req.flagID, id);
      DeletionKeepsVariant(lib, db, req, id);
    }
  }

  // ----- the audit invariant -----

  /** The snapshot a live flag points to is the flag, up to zero-percent rows. */
  ghost predicate Audited(db: DB, flagID: nat)
    requires Exists(db.flags, flagID)
  {
    var id := db.flags[flagID - 1].snapshotID;
    && Exists(db.snapshots, id)
    && db.snapshots[id - 1].flagID == flagID
    && Normal(db.snapshots[id - 1].body) == Normal(Load(db, flagID))
  }

  ghost predicate AllAudited(db: DB) {
    && (forall flagID :: LiveFlag(db, flagID) ==> Audited(db, flagID))
    && (forall k :: 0 <= k < |db.snapshots| ==> WellDistributed(db.snapshots[k].body))
  }

  lemma SnapshotAudits(db: DB, flagID: nat, subject: string)
    requires LiveFlag(db, flagID)
    ensures Audited(SaveFlagSnapshot(db, flagID, subject), flagID)
  {
    SnapshotLoads(db, flagID, subject, flagID);
  }

  /** An audited flag stays audited while it loads the same and its snapshot is kept. */
  lemma StaysAudited(db: DB, db': DB, flagID: nat)
    requires Exists(db.flags, flagID) && Audited(db, flagID) && db.snapshots <= db'.snapshots
    requires Exists(db'.flags, flagID) && db'.flags[flagID - 1] == db.flags[flagID - 1]
    requires Normal(Load(db', flagID)) == Normal(Load(db, flagID))
    ensures Audited(db', flagID)
  {
    var id := db.flags[flagID - 1].snapshotID;
    assert db'.snapshots[id - 1] == db.snapshots[id - 1];
  }

  lemma EditKeepsSnapshots(lib: Library, db: DB, req: Request)
    ensures Result(EditOf(lib, db, req)).snapshots == db.snapshots
    ensures EditOf(lib, db, req).Refused? && !req.DeleteVariant? ==> Result(EditOf(lib, db, req)) == db
    ensures EditOf(lib, db, req).Refused? ==> Result(EditOf(lib, db, req)).flags == db.flags
    ensures EditOf(lib, db, req).Unsnapshotted? ==> req.DeleteFlag?
  {
  }

  lemma SavedFlagIsAudited(lib: Library, db: DB, req: Request)
    requires EditOf(lib, db, req).Saved? && LiveFlag(Step(lib, db, req), FlagOf(db, req))
    ensures Audited(Step(lib, db, req), FlagOf(db, req))
  {
    var edited, flagID := EditOf(lib, db, req).db, FlagOf(db, req);
    if LiveFlag(edited, flagID) {
      SnapshotAudits(edited, flagID, SubjectOf(req));
    }
  }

  lemma RefusedFlagStaysAudited(lib: Library, db: DB, req: Request)
    requires EditOf(lib, db, req).Refused? && LiveFlag(db, FlagOf(db, req)) && Audited(db, FlagOf(db, req))
    ensures LiveFlag(Step(lib, db, req), FlagOf(db, req)) && Audited(Step(lib, db, req), FlagOf(db, req))
  {
    EditKeepsSnapshots(lib, db, req);
    if req.DeleteVariant? {
      RefusedDeletion(db, req, req.flagID);
      StaysAudited(db, EditOf(lib, db, req).db, req.flagID);
    }
  }

  lemma OwnFlagStaysAudited(lib: Library, db: DB, req: Request)
    requires AllAudited(db) && LiveFlag(Step(lib, db, req), FlagOf(db, req))
    ensures Audited(Step(lib, db, req), FlagOf(db, req))
  {
    EditKeepsSnapshots(lib, db, req);
    if EditOf(lib, db, req).Saved? {
      SavedFlagIsAudited(lib, db, req);
    } else if EditOf(lib, db, req).Refused? {
      assert Audited(db, FlagOf(db, req));
      RefusedFlagStaysAudited(lib, db, req);
    }
  }

  lemma OtherFlagStaysAudited(lib: Library, db: DB, req: Request, flagID: nat)
    requires AllAudited(db) && WellAddressed(db, req) && KeysAgree(db) && TagsBounded(db)
    requires flagID != FlagOf(db, req) && LiveFlag(Step(lib, db, req), flagID)
    ensures Audited(Step(lib, db, req), flagID)
  {
    EditTouches(lib, db, req);
    EditKeepsSnapshots(lib, db, req);
    FinishKeepsTables(EditOf(lib, db, req), FlagOf(db, req), SubjectOf(req));
    assert Exists(db.flags, flagID);
    StepLeavesOthers(lib, db, req, flagID);
    assert Audited(db, flagID);
    StaysAudited(db, Step(lib, db, req), flagID);
  }

  lemma StepKeepsAudited(lib: Library, db: DB, req: Request)
    requires AllAudited(db) && Sound(db) && TagsBounded(db) && WellAddressed(db, req) && InBounds(req)
    ensures AllAudited(Step(lib, db, req))
  {
    var db' := Step(lib, db, req);
    forall flagID | LiveFlag(db', flagID)
      ensures Audited(db', flagID)
    {
      if flagID == FlagOf(db, req) {
        OwnFlagStaysAudited(lib, db, req);
      } else {
        OtherFlagStaysAudited(lib, db, req, flagID);
      }
    }
    SnapshotsStayWellDistributed(lib, db, req);
  }

  lemma SnapshotsStayWellDistributed(lib: Library, db: DB, req: Request)
    requires Sound(db) && WellAddressed(db, req) && InBounds(req)
    requires forall k :: 0 <= k < |db.snapshots| ==> WellDistributed(db.snapshots[k].body)
    ensures forall k :: 0 <= k < |Step(lib, db, req).snapshots| ==>
            WellDistributed(Step(lib, db, req).snapshots[k].body)
  {
    var edited, flagID := Result(EditOf(lib, db, req)), FlagOf(db, req);
    EditKeepsSnapshots(lib, db, req);
    FinishKeepsTables(EditOf(lib, db, req), flagID, SubjectOf(req));
    StepKeepsSound(lib, db, req);
    if LiveFlag(edited, flagID) {
      SoundIsAboutTables(Step(lib, db, req), edited);
      LoadedIsWellDistributed(edited, flagID);
    }
  }

  lemma SoundIsAboutTables(db: DB, db': DB)
    requires SumsExact(db) && RolloutsBounded(db)
    requires db'.segments == db.segments && db'.distributions == db.distributions
    ensures SumsExact(db') && RolloutsBounded(db')
  {
  }

  lemma {:induction false} ExecuteKeepsAudited(lib: Library, reqs: seq<Request>)
    requires AllInBounds(reqs) && AllWellAddressed(lib, reqs)
    ensures Sound(Execute(lib, reqs)) && TagsBounded(Execute(lib, reqs)) && AllAudited(Execute(lib, reqs))
  {
    ExecuteKeepsSound(lib, reqs);
    if reqs != [] {
      var init, last := reqs[..|reqs| - 1], reqs[|reqs| - 1];
      WellAddressedInit(lib, reqs);
      ExecuteKeepsAudited(lib, init);
      StepKeepsTagsBounded(lib, Execute(lib, init), last);
      StepKeepsAudited(lib, Execute(lib, init), last);
    }
  }

  // ----- the theorems -----

  /** The flag points to a snapshot of itself, and evaluating the flag stored in it gives every
      entity the same answer as evaluating the flag. */
  ghost predicate SnapshotEvaluatesAlike(lib: Library, db: DB, flagID: nat)
    requires Exists(db.flags, flagID)
  {
    var id := db.flags[flagID - 1].snapshotID;
    && Exists(db.snapshots, id)
    && db.snapshots[id - 1].flagID == flagID
    && EvaluateAlike(lib, db.snapshots[id - 1].body, Load(db, flagID))
  }

  lemma AuditedEvaluatesAlike(lib: Library, db: DB, flagID: nat)
    requires Exists(db.flags, flagID) && Audited(db, flagID) && SumsExact(db) && RolloutsBounded(db)
    requires WellDistributed(db.snapshots[db.flags[flagID - 1].snapshotID - 1].body)
    ensures SnapshotEvaluatesAlike(lib, db, flagID)
  {
    var body := db.snapshots[db.flags[flagID - 1].snapshotID - 1].body;
    LoadedIsWellDistributed(db, flagID);
    SameNormalIsAlike(body, Load(db, flagID));
    AlikeEvaluateAlike(lib, body, Load(db, flagID));
  }

  /** Audit equivalence: between any two requests of a well-addressed run, the snapshot of a
      live flag evaluates like the flag, for every entity. This survives the deletions that
      are refused part-way, which change rows without taking a snapshot. */
  lemma AuditEquivalence(lib: Library, reqs: seq<Request>, flagID: nat)
    requires AllInBounds(reqs) && AllWellAddressed(lib, reqs)
    requires LiveFlag(Execute(lib, reqs), flagID)
    ensures SnapshotEvaluatesAlike(lib, Execute(lib, reqs), flagID)
  {
    var db := Execute(lib, reqs);
    ExecuteKeepsAudited(lib, reqs);
    assert Audited(db, flagID);
    AuditedEvaluatesAlike(lib, db, flagID);
  }

  /** Deleting a variant is invisible to evaluation: in every state of a well-addressed run,
      whether the deletion succeeds or is refused part-way, every flag goes on answering
      every entity as before. */
  lemma DeleteVariantIsInvisible(lib: Library, reqs: seq<Request>, req: Request, flagID: nat)
    requires AllInBounds(reqs) && AllWellAddressed(lib, reqs)
    requires req.DeleteVariant? && WellAddressed(Execute(lib, reqs), req)
    requires Exists(Execute(lib, reqs).flags, flagID)
    ensures var db := Execute(lib, reqs);
            var db' := Step(lib, db, req);
            Exists(db'.flags, flagID) && EvaluateAlike(lib, Load(db, flagID), Load(db', flagID))
  {
    var db := Execute(lib, reqs);
    var db' := Step(lib, db, req);
    ExecuteKeepsAudited(lib, reqs);
    StepKeepsSound(lib, db, req);
    if flagID == req.flagID {
      DeletionIsAlike(lib, db, req);
    } else {
      StepLeavesOthers(lib, db, req, flagID);
      SameNormalIsAlike(Load(db, flagID), Load(db', flagID));
    }
    LoadedIsWellDistributed(db, flagID);
    LoadedIsWellDistributed(db', flagID);
    AlikeEvaluateAlike(lib, Load(db, flagID), Load(db', flagID));
  }
}
