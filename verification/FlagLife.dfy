/** The life of a flag as everybody sees it: created disabled, switched on and off, patched,
    deleted and restored, and named by every answer it gives. */
module FlagLife {
  import opened Entities
  import opened Preparation
  import opened Evaluation
  import opened Text
  import opened Tables
  import opened Database
  import opened Handlers
  import opened Integrity
  import opened Frames
  import opened Audit
  import opened EditEffects
  import opened Ordering
  import opened SnapshotChain
  import opened Tagging
  import opened Templates

  // ----- snapshots do not matter -----

  /** Flags that differ in the snapshot and the updater alone prepare alike and answer alike. */
  lemma SnapshotDoesNotMatter(lib: Library, f: Flag, g: Flag)
    requires g == f.(snapshotID := g.snapshotID, updatedBy := g.updatedBy)
    ensures EvaluateAlike(lib, f, g)
  {
    assert Preparable(lib, g) <==> Preparable(lib, f);
    if Preparable(lib, f) {
      var p, q := Prepare(lib, f).value, Prepare(lib, g).value;
      assert q == p.(snapshotID := q.snapshotID, updatedBy := q.updatedBy) by {
        assert PreparedSegments(lib, g) == PreparedSegments(lib, f);
      }
      forall ctx, random: nat
        ensures SameAnswer(EvaluateFlag(lib, p, ctx, random), EvaluateFlag(lib, q, ctx, random))
      {
        SnapshotDoesNotMatterTo(lib, p, q, ctx, random);
      }
    }
  }

  lemma SnapshotDoesNotMatterTo(lib: Library, p: Flag, q: Flag, ctx: EvalContext, random: nat)
    requires q == p.(snapshotID := q.snapshotID, updatedBy := q.updatedBy)
    ensures SameAnswer(EvaluateFlag(lib, p, ctx, random), EvaluateFlag(lib, q, ctx, random))
  {
    if p.segments != [] {
      SameDecisionSameAnswer(lib, p, q, ctx, random);
    }
  }

  // ----- off and on -----

  /** After a live flag is disabled nobody gets a segment or a variant of it. */
  lemma DisablingSilences(lib: Library, db: DB, flagID: nat, subject: string, ctx: EvalContext, random: nat)
    requires LiveFlag(db, flagID)
    ensures var db' := Step(lib, db, SetFlagEnabled(flagID, false, subject));
            && LiveFlag(db', flagID)
            && var p := Prepare(lib, Load(db', flagID));
               && (p.Some? <==> Prepare(lib, Load(db, flagID)).Some?)
               && (p.Some? ==>
                     var e := EvaluateFlag(lib, p.value, ctx, random);
                     e.Evaluated? && IsBlank(e.result))
  {
    var db' := Step(lib, db, SetFlagEnabled(flagID, false, subject));
    SwitchingLoads(lib, db, flagID, false, subject);
    var p := Prepare(lib, Load(db', flagID));
    if p.Some? {
      UndecidedAnswersBlank(lib, p, ctx, random);
    }
  }

  /** Enabling it again gives everybody the answer from before it was disabled. */
  lemma EnablingRestores(lib: Library, db: DB, flagID: nat, subject: string, subject': string)
    requires LiveFlag(db, flagID) && db.flags[flagID - 1].enabled
    ensures var off := Step(lib, db, SetFlagEnabled(flagID, false, subject));
            var on := Step(lib, off, SetFlagEnabled(flagID, true, subject'));
            LiveFlag(on, flagID) && EvaluateAlike(lib, Load(db, flagID), Load(on, flagID))
  {
    var off := Step(lib, db, SetFlagEnabled(flagID, false, subject));
    var on := Step(lib, off, SetFlagEnabled(flagID, true, subject'));
    SwitchingLoads(lib, db, flagID, false, subject);
    SwitchingLoads(lib, off, flagID, true, subject');
    SnapshotDoesNotMatter(lib, Load(db, flagID), Load(on, flagID));
  }

  /** An answer reports a segment, one of those that the flag loads, if and only if the flag is
      enabled and loads any. */
  lemma SegmentReportedExactly(lib: Library, db: DB, flagID: nat, ctx: EvalContext, random: nat)
    requires Exists(db.flags, flagID) && Prepare(lib, Load(db, flagID)).Some?
    requires EvaluateFlag(lib, Prepare(lib, Load(db, flagID)).value, ctx, random).Evaluated?
    ensures var r := EvaluateFlag(lib, Prepare(lib, Load(db, flagID)).value, ctx, random).result;
            && (r.segmentID != 0 <==> db.flags[flagID - 1].enabled && LoadSegments(db, flagID) != [])
            && (r.segmentID != 0 ==> Live(db.segments, r.segmentID) && Owned(db.segments, r.segmentID, flagID))
  {
    var p := Prepare(lib, Load(db, flagID)).value;
    if p.enabled && p.segments != [] {
      DecidedReportsASegment(lib, p, ctx, random);
      var i :| 0 <= i < |p.segments| && p.segments[i].id == EvaluateFlag(lib, p, ctx, random).result.segmentID;
      LoadedSegment(db, flagID, i);
    } else {
      UndecidedAnswersBlank(lib, Some(p), ctx, random);
    }
  }

  /** A request about the life of a flag that does not exist, or is not live where it must be, leaves no trace. */
  lemma MissingFlagLeavesNoTrace(lib: Library, db: DB, req: Request)
    requires || (req.SetFlagEnabled? && !LiveFlag(db, req.flagID))
             || ((req.RestoreFlag? || req.DeleteFlag?) && !Exists(db.flags, req.flagID))
    ensures Step(lib, db, req) == db
  {
  }

  // ----- deleted and restored -----

  /** Restoring a deleted flag gives everybody the answer from before it was deleted. */
  lemma RestoringRestores(lib: Library, db: DB, flagID: nat, subject: string)
    requires LiveFlag(db, flagID)
    ensures var restored := Step(lib, Step(lib, db, DeleteFlag(flagID)), RestoreFlag(flagID, subject));
            LiveFlag(restored, flagID) && EvaluateAlike(lib, Load(db, flagID), Load(restored, flagID))
  {
    RestoreUndoesDelete(lib, db, flagID, subject);
    var restored := Step(lib, Step(lib, db, DeleteFlag(flagID)), RestoreFlag(flagID, subject));
    SnapshotDoesNotMatter(lib, Load(db, flagID), Load(restored, flagID));
  }

  // ----- created -----

  /** The key a creation ends up with: the requested one, or the generated one in place of none. */
  function KeyFor(req: Request): string
    requires req.CreateFlag?
  {
    if req.key == "" then req.freshKey else req.key
  }

  /** What a creation is accepted on. */
  predicate AcceptsFlag(db: DB, req: Request) {
    && req.CreateFlag?
    && (req.key == "" || IsSafeKey(req.key))
    && (forall i :: 0 <= i < |db.flags| ==> db.flags[i].key != KeyFor(req))
    && (req.template == "" || req.template == SIMPLE_BOOLEAN_FLAG)
  }

  /** A flag is created live and disabled, as described, under its key and its first snapshot; and a
      request that is not accepted leaves no trace. */
  lemma NewFlagLoads(lib: Library, db: DB, req: Request)
    requires req.CreateFlag?
    ensures !AcceptsFlag(db, req) ==> Step(lib, db, req) == db
    ensures AcceptsFlag(db, req) ==>
              var db', flagID := Step(lib, db, req), |db.flags| + 1;
              && LiveFlag(db', flagID) && db'.flags[..|db.flags|] == db.flags
              && var f := Load(db', flagID);
                 && f.key == KeyFor(req) && f.description == req.description && !f.enabled
                 && f.createdBy == f.updatedBy == req.subject && f.snapshotID == |db.snapshots| + 1
                 && f.notes == f.entityType == "" && !f.dataRecordsEnabled
  {
    if AcceptsFlag(db, req) {
      assert !KeyTaken(db.flags, KeyFor(req), 0);
      SnapshotLoads(EditOf(lib, db, req).db, |db.flags| + 1, req.subject, |db.flags| + 1);
    }
  }

  /** So a flag answers blank to everybody until it is enabled, whatever the template gave it. */
  lemma NewFlagAnswersBlank(lib: Library, db: DB, req: Request, ctx: EvalContext, random: nat)
    requires AcceptsFlag(db, req)
    ensures var db', flagID := Step(lib, db, req), |db.flags| + 1;
            && LiveFlag(db', flagID)
            && var p := Prepare(lib, Load(db', flagID));
               p.Some? ==>
                 var e := EvaluateFlag(lib, p.value, ctx, random);
                 e.Evaluated? && IsBlank(e.result) && e.result.flagKey == KeyFor(req)
  {
    NewFlagLoads(lib, db, req);
    var p := Prepare(lib, Load(Step(lib, db, req), |db.flags| + 1));
    if p.Some? {
      UndecidedAnswersBlank(lib, p, ctx, random);
      AnswersNameWhatWasAsked(lib, p.value, ctx, random);
    }
  }

  // ----- patched -----

  /** The key a patch ends up with. */
  function PatchedKey(before: string, req: Request): string
    requires req.PutFlag?
  {
    match req.newKey
    case None => before
    case Some(key) => if key == "" then req.freshKey else key
  }

  /** What a patch is accepted on: keys are well-formed, and the flag's is nobody else's. */
  predicate AcceptsPatch(db: DB, req: Request) {
    && req.PutFlag? && LiveFlag(db, req.flagID)
    && (req.newKey.Some? && req.newKey.value != "" ==> IsSafeKey(req.newKey.value))
    && (req.entityType.Some? && req.entityType.value != "" ==> IsSafeKey(req.entityType.value))
    && (forall i :: 0 <= i < |db.flags| && i + 1 != req.flagID ==>
          db.flags[i].key != PatchedKey(db.flags[req.flagID - 1].key, req))
  }

  predicate Writes<T(==)>(given: Option<T>, before: T, after: T) {
    after == if given.Some? then given.value else before
  }

  /** An accepted patch writes the fields that are given and keeps everything else of the flag; a patch
      that is not accepted leaves no trace. */
  lemma PatchedFlagLoads(lib: Library, db: DB, req: Request)
    requires req.PutFlag?
    ensures !AcceptsPatch(db, req) ==> Step(lib, db, req) == db
    ensures AcceptsPatch(db, req) ==>
              var db', id := Step(lib, db, req), req.flagID;
              && LiveFlag(db', id)
              && var f, g := Load(db, id), Load(db', id);
                 && Writes(req.newDescription, f.description, g.description) && Writes(req.notes, f.notes, g.notes)
                 && Writes(req.dataRecordsEnabled, f.dataRecordsEnabled, g.dataRecordsEnabled)
                 && Writes(req.entityType, f.entityType, g.entityType) && g.key == PatchedKey(f.key, req)
                 && g == f.(key := g.key, description := g.description, notes := g.notes, entityType := g.entityType,
                            dataRecordsEnabled := g.dataRecordsEnabled,
                            snapshotID := |db.snapshots| + 1, updatedBy := req.subject)
  {
    if AcceptsPatch(db, req) {
      var row := PatchFlag(db.flags[req.flagID - 1], req).value;
      assert row.key == PatchedKey(db.flags[req.flagID - 1].key, req);
      assert !KeyTaken(db.flags, row.key, req.flagID);
      var edited := EditOf(lib, db, req).db;
      assert LoadSegments(edited, req.flagID) == LoadSegments(db, req.flagID);
      SnapshotLoads(edited, req.flagID, req.subject, req.flagID);
    } else if LiveFlag(db, req.flagID) {
      RefusedPatch(db, req);
    }
  }

  lemma RefusedPatch(db: DB, req: Request)
    requires req.PutFlag? && LiveFlag(db, req.flagID) && !AcceptsPatch(db, req)
    ensures EditPutFlag(db, req).Refused? && EditPutFlag(db, req).db == db
  {
    var row := db.flags[req.flagID - 1];
    if PatchFlag(row, req).Some? {
      var i :| 0 <= i < |db.flags| && i + 1 != req.flagID && db.flags[i].key == PatchedKey(row.key, req);
      assert KeyTaken(db.flags, PatchFlag(row, req).value.key, req.flagID);
    }
  }

  /** The same decision, reported in the same way. */
  ghost predicate SameDecision(a: Evaluation, b: Evaluation) {
    && a.Evaluated? == b.Evaluated?
    && (a.Evaluated? ==>
          && a.result.segmentID == b.result.segmentID && a.result.variantID == b.result.variantID
          && a.result.variantKey == b.result.variantKey && a.result.variantAttachment == b.result.variantAttachment)
  }

  lemma SameVariantSameReport(p: Flag, q: Flag, ctx: EvalContext, ctx': EvalContext, segmentID: nat, variantID: nat)
    requires q.variantsMap == p.variantsMap
    ensures SameDecision(Evaluated(Answer(p, ctx, segmentID, variantID)),
                         Evaluated(Answer(q, ctx', segmentID, variantID)))
  {
  }

  lemma SameButNamesDecideAlike(lib: Library, p: Flag, q: Flag, ctx: EvalContext, random: nat)
    requires q.id == p.id && q.enabled == p.enabled && q.segments == p.segments && q.variantsMap == p.variantsMap
    ensures SameDecision(EvaluateFlag(lib, p, ctx, random), EvaluateFlag(lib, q, ctx, random))
  {
    if p.enabled && p.segments != [] {
      var filled, filled' := FillContext(p, ctx, random), FillContext(q, ctx, random);
      SameEntitySameDecision(lib, p.id, filled, filled', p.segments);
      var decision := Decide(lib, p.id, filled, p.segments);
      var v := if decision.outcome.Assigned? then decision.outcome.variantID else 0;
      SameVariantSameReport(p, q, filled, filled', decision.segmentID, v);
    }
  }

  /** Patching a flag, accepted or not, reassigns nobody: the fields it writes play no part in a decision. */
  lemma PatchReassignsNobody(lib: Library, db: DB, req: Request, ctx: EvalContext, random: nat)
    requires req.PutFlag? && Exists(db.flags, req.flagID)
    ensures var db', id := Step(lib, db, req), req.flagID;
            && Exists(db'.flags, id)
            && var before, after := Prepare(lib, Load(db, id)), Prepare(lib, Load(db', id));
               && (before.Some? <==> after.Some?)
               && (before.Some? ==> SameDecision(EvaluateFlag(lib, before.value, ctx, random),
                                                 EvaluateFlag(lib, after.value, ctx, random)))
  {
    PatchedFlagLoads(lib, db, req);
    var f, g := Load(db, req.flagID), Load(Step(lib, db, req), req.flagID);
    assert Preparable(lib, f) <==> Preparable(lib, g);
    if Preparable(lib, f) {
      assert PreparedSegments(lib, g) == PreparedSegments(lib, f);
      SameButNamesDecideAlike(lib, Prepare(lib, f).value, Prepare(lib, g).value, ctx, random);
    }
  }

  // ----- named -----

  /** After any requests every answer of a flag names the flag by its ID, its current key and its newest
      snapshot, carries the tags that the last requests about them created, and is about the entity. */
  lemma AnswersNameTheFlag(lib: Library, reqs: seq<Request>, flagID: nat, ctx: EvalContext, random: nat)
    requires Exists(Execute(lib, reqs).flags, flagID) && Prepare(lib, Load(Execute(lib, reqs), flagID)).Some?
    requires EvaluateFlag(lib, Prepare(lib, Load(Execute(lib, reqs), flagID)).value, ctx, random).Evaluated?
    ensures var db := Execute(lib, reqs);
            var r := EvaluateFlag(lib, Prepare(lib, Load(db, flagID)).value, ctx, random).result;
            && r.flagID == flagID && r.flagKey == db.flags[flagID - 1].key
            && r.flagSnapshotID == Newest(db.snapshots, flagID)
            && (forall v :: v in r.flagTags <==> LastTags(lib, reqs, flagID, v))
            && (ctx.entityID != "" ==> r.entityID == ctx.entityID)
  {
    var db := Execute(lib, reqs);
    var p := Prepare(lib, Load(db, flagID)).value;
    var r := EvaluateFlag(lib, p, ctx, random).result;
    AnswersNameWhatWasAsked(lib, p, ctx, random);
    SnapshotsFormChains(lib, reqs);
    forall v
      ensures v in r.flagTags <==> LastTags(lib, reqs, flagID, v)
    {
      CarriedTags(lib, reqs, flagID, v);
    }
  }

  /** A snapshot that a request takes is of the flag in its path as it then loads, by its sender; and the
      flag then names that snapshot and that sender. */
  lemma SnapshotRecordsTheRequest(lib: Library, db: DB, req: Request)
    requires Step(lib, db, req).snapshots != db.snapshots
    ensures var db', flagID := Step(lib, db, req), FlagOf(db, req);
            && |db'.snapshots| == |db.snapshots| + 1 && db'.snapshots[..|db.snapshots|] == db.snapshots
            && LiveFlag(db', flagID)
            && var taken, f := db'.snapshots[|db.snapshots|], Load(db', flagID);
               && taken.flagID == flagID && taken.updatedBy == SubjectOf(req)
               && f.updatedBy == SubjectOf(req) && f.snapshotID == |db'.snapshots|
               && f == taken.body.(updatedBy := f.updatedBy, snapshotID := f.snapshotID)
  {
    EditKeepsSnapshots(lib, db, req);
    SnapshotLoads(EditOf(lib, db, req).db, FlagOf(db, req), SubjectOf(req), FlagOf(db, req));
  }
}
