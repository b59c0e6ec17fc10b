/** What a well-addressed request leaves alone: every other flag loads as before. */
module Frames {
  import opened Entities
  import opened Tables
  import opened Database
  import opened Handlers
  import opened Integrity

  /** Rows may differ only where both sides belong to the flag, and new rows belong to it. */
  ghost predicate OwnedRowsOnly<T(!new)>(t: seq<Row<T>>, t': seq<Row<T>>, flagID: nat) {
    && |t| <= |t'|
    && (forall i :: 0 <= i < |t| ==> t[i] == t'[i] || (t[i].owner == flagID && t'[i].owner == flagID))
    && (forall i :: |t| <= i < |t'| ==> t'[i].owner == flagID)
  }

  /** Rows may differ only under segments of the flag, and new rows are under them. */
  ghost predicate SegmentRowsOnly<T(!new)>(t: seq<Row<T>>, t': seq<Row<T>>, segments: seq<Row<SegmentData>>,
                                    flagID: nat) {
    && |t| <= |t'|
    && (forall i :: 0 <= i < |t| ==>
          t[i] == t'[i] || (t'[i].owner == t[i].owner && Owned(segments, t[i].owner, flagID)))
    && (forall i :: |t| <= i < |t'| ==> Owned(segments, t'[i].owner, flagID))
  }

  ghost predicate TagsOnly(db: DB, db': DB, flagID: nat) {
    && |db.tags| <= |db'.tags| && db'.tags[..|db.tags|] == db.tags
    && (forall g, t :: g != flagID ==> ((g, t) in db.flagTags <==> (g, t) in db'.flagTags))
  }

  /** The two states differ only in what belongs to the flag. */
  ghost predicate Touches(db: DB, db': DB, flagID: nat) {
    && |db.flags| <= |db'.flags|
    && (forall i :: 0 <= i < |db.flags| && i + 1 != flagID ==> db'.flags[i] == db.flags[i])
    && (|db'.flags| > |db.flags| ==> |db'.flags| == |db.flags| + 1 == flagID)
    && OwnedRowsOnly(db.segments, db'.segments, flagID)
    && OwnedRowsOnly(db.variants, db'.variants, flagID)
    && SegmentRowsOnly(db.constraints, db'.constraints, db'.segments, flagID)
    && SegmentRowsOnly(db.distributions, db'.distributions, db'.segments, flagID)
    && TagsOnly(db, db', flagID)
  }

  ghost predicate TagsBounded(db: DB) {
    forall g, t :: (g, t) in db.flagTags ==> 1 <= t <= |db.tags|
  }

  // ----- the frame -----

  lemma {:induction false} TagsOfSame(tags: seq<string>, tags': seq<string>, pairs: set<(nat, nat)>,
                                      pairs': set<(nat, nat)>, flagID: nat)
    requires |tags| <= |tags'| && tags'[..|tags|] == tags
    requires forall t :: (flagID, t) in pairs <==> (flagID, t) in pairs'
    requires forall t :: (flagID, t) in pairs ==> t <= |tags|
    ensures TagsOf(tags, pairs, flagID) == TagsOf(tags', pairs', flagID)
  {
    if |tags| < |tags'| {
      assert tags'[..|tags'| - 1][..|tags|] == tags;
      assert (flagID, |tags'|) !in pairs';
      TagsOfSame(tags, tags'[..|tags'| - 1], pairs, pairs', flagID);
      assert TagsOf(tags', pairs', flagID) == TagsOf(tags'[..|tags'| - 1], pairs', flagID);
    } else {
      TagsOfEqual(tags, pairs, pairs', flagID);
      assert tags' == tags;
    }
  }

  lemma {:induction false} TagsOfEqual(tags: seq<string>, pairs: set<(nat, nat)>, pairs': set<(nat, nat)>, flagID: nat)
    requires forall t :: (flagID, t) in pairs <==> (flagID, t) in pairs'
    ensures TagsOf(tags, pairs, flagID) == TagsOf(tags, pairs', flagID)
  {
    if tags != [] {
      TagsOfEqual(tags[..|tags| - 1], pairs, pairs', flagID);
    }
  }

  lemma OwnedRowsSame<T(!new), E>(t: seq<Row<T>>, t': seq<Row<T>>, flagID: nat, other: nat, make: (nat, Row<T>) -> E)
    requires OwnedRowsOnly(t, t', flagID) && other != flagID
    ensures Children(t, other, make) == Children(t', other, make)
  {
    ChildrenSame(t, t', other, make);
  }

  lemma SegmentRowsSame<T(!new), E>(t: seq<Row<T>>, t': seq<Row<T>>, segments: seq<Row<SegmentData>>,
                                    flagID: nat, segmentID: nat, make: (nat, Row<T>) -> E)
    requires SegmentRowsOnly(t, t', segments, flagID) && !Owned(segments, segmentID, flagID)
    ensures Children(t, segmentID, make) == Children(t', segmentID, make)
  {
    ChildrenSame(t, t', segmentID, make);
  }

  lemma SegmentsSame(db: DB, db': DB, flagID: nat, other: nat)
    requires Touches(db, db', flagID) && other != flagID
    ensures LoadSegments(db, other) == LoadSegments(db', other)
  {
    OwnedRowsSame(db.segments, db'.segments, flagID, other, MakeSegment);
    assert SegmentRows(db, other) == SegmentRows(db', other);
    forall i | 0 <= i < |SegmentRows(db, other)|
      ensures LoadSegments(db, other)[i] == LoadSegments(db', other)[i]
    {
      LoadedSegment(db, other, i);
      var id := SegmentRows(db, other)[i].id;
      assert !Owned(db'.segments, id, flagID);
      SegmentRowsSame(db.constraints, db'.constraints, db'.segments, flagID, id, MakeConstraint);
      SegmentRowsSame(db.distributions, db'.distributions, db'.segments, flagID, id, MakeDistribution);
    }
  }

  /** Every other flag loads the same. */
  lemma OtherFlagsLoadTheSame(db: DB, db': DB, flagID: nat, other: nat)
    requires Touches(db, db', flagID) && TagsBounded(db) && other != flagID && Exists(db.flags, other)
    ensures Exists(db'.flags, other) && db'.flags[other - 1] == db.flags[other - 1]
    ensures Load(db', other) == Load(db, other)
  {
    SegmentsSame(db, db', flagID, other);
    OwnedRowsSame(db.variants, db'.variants, flagID, other, MakeVariant);
    assert TagsOnly(db, db', flagID);
    TagsOfSame(db.tags, db'.tags, db.flagTags, db'.flagTags, other);
  }

  // ----- well-addressed requests touch one flag -----

  lemma PutVariantTouches(db: DB, req: Request)
    requires req.PutVariant? && WellAddressed(db, req) && KeysAgree(db)
    ensures Touches(db, Result(EditPutVariant(db, req)), req.flagID)
  {
    var db' := Result(EditPutVariant(db, req));
    forall i | 0 <= i < |db.distributions| && db'.distributions[i] != db.distributions[i]
      ensures Owned(db.segments, db.distributions[i].owner, req.flagID)
    {
      assert Agrees(db, db.distributions[i]);
    }
  }

  lemma DeleteVariantTouches(db: DB, req: Request)
    requires req.DeleteVariant? && WellAddressed(db, req)
    ensures Touches(db, Result(EditDeleteVariant(db, req)), req.flagID)
  {
    if LiveFlag(db, req.flagID) {
      var doomed := Doomed(Visited(LoadSegments(db, req.flagID), req.variantID));
      forall i | 0 <= i < |db.distributions| && i + 1 in doomed
        ensures Owned(db.segments, db.distributions[i].owner, req.flagID)
      {
        DoomedRows(db, req.flagID, req.variantID, i + 1);
      }
      if Exists(db.variants, req.variantID) {
        assert Owned(db.variants, req.variantID, req.flagID);
      }
    }
  }

  lemma PutDistributionsTouches(db: DB, req: Request)
    requires req.PutDistributions? && WellAddressed(db, req)
    ensures Touches(db, Result(EditPutDistributions(db, req)), req.flagID)
  {
    forall i | 0 <= i < |db.distributions| && i + 1 in RowsOf(db.distributions, req.segmentID)
      ensures db.distributions[i].owner == req.segmentID
    {
      assert Owned(db.distributions, i + 1, req.segmentID);
    }
  }

  lemma ReorderTouches(db: DB, req: Request)
    requires req.PutSegmentsReorder? && WellAddressed(db, req)
    ensures Touches(db, Result(EditPutSegmentsReorder(db, req)), req.flagID)
  {
    forall i | 0 <= i < |db.segments| && i + 1 in req.segmentIDs
      ensures db.segments[i].owner == req.flagID
    {
      var j :| 0 <= j < |req.segmentIDs| && req.segmentIDs[j] == i + 1;
      assert Owned(db.segments, req.segmentIDs[j], req.flagID);
    }
  }

  lemma ConstraintsTouch(lib: Library, db: DB, req: Request)
    requires req.CreateConstraint? || req.PutConstraint? || req.DeleteConstraint?
    requires WellAddressed(db, req)
    ensures Touches(db, Result(EditOf(lib, db, req)), req.flagID)
  {
  }

  lemma SegmentsTouch(lib: Library, db: DB, req: Request)
    requires req.CreateSegment? || req.PutSegment? || req.DeleteSegment?
    requires WellAddressed(db, req)
    ensures Touches(db, Result(EditOf(lib, db, req)), req.flagID)
  {
  }

  lemma FlagsTouch(lib: Library, db: DB, req: Request)
    requires req.PutFlag? || req.SetFlagEnabled? || req.RestoreFlag? || req.DeleteFlag?
    ensures Touches(db, Result(EditOf(lib, db, req)), req.flagID)
  {
  }

  lemma CreateFlagTouches(db: DB, req: Request)
    requires req.CreateFlag?
    ensures Touches(db, Result(EditCreateFlag(db, req)), FlagOf(db, req))
  {
  }

  lemma OthersTouch(lib: Library, db: DB, req: Request)
    requires req.CreateTag? || req.DeleteTag? || req.CreateVariant?
    ensures Touches(db, Result(EditOf(lib, db, req)), req.flagID)
  {
  }

  lemma EditTouches(lib: Library, db: DB, req: Request)
    requires WellAddressed(db, req) && KeysAgree(db)
    ensures Touches(db, Result(EditOf(lib, db, req)), FlagOf(db, req))
  {
    match req {
      case PutVariant(_, _, _, _, _) => PutVariantTouches(db, req);
      case DeleteVariant(_, _, _) => DeleteVariantTouches(db, req);
      case PutDistributions(_, _, _, _) => PutDistributionsTouches(db, req);
      case PutSegmentsReorder(_, _, _) => ReorderTouches(db, req);
      case CreateConstraint(_, _, _, _) => ConstraintsTouch(lib, db, req);
      case PutConstraint(_, _, _, _) => ConstraintsTouch(lib, db, req);
      case DeleteConstraint(_, _, _) => ConstraintsTouch(lib, db, req);
      case CreateSegment(_, _, _, _) => SegmentsTouch(lib, db, req);
      case PutSegment(_, _, _, _, _) => SegmentsTouch(lib, db, req);
      case DeleteSegment(_, _, _) => SegmentsTouch(lib, db, req);
      case CreateFlag(_, _, _, _, _) => CreateFlagTouches(db, req);
      case CreateTag(_, _, _) => OthersTouch(lib, db, req);
      case DeleteTag(_, _, _) => OthersTouch(lib, db, req);
      case CreateVariant(_, _, _, _) => OthersTouch(lib, db, req);
      case _ => FlagsTouch(lib, db, req);
    }
  }

  /** The snapshot that ends an edit changes nothing that a flag loads, but for the snapshot
      ID and the updater of the flag itself. */
  lemma SnapshotLoads(db: DB, flagID: nat, subject: string, other: nat)
    requires Exists(db.flags, other)
    ensures var db' := SaveFlagSnapshot(db, flagID, subject);
            && |db'.flags| == |db.flags|
            && Load(db', other)
               == Load(db, other).(snapshotID := db'.flags[other - 1].snapshotID,
                   updatedBy := db'.flags[other - 1].updatedBy)
            && (other != flagID ==> db'.flags[other - 1] == db.flags[other - 1])
            && db'.flags[other - 1].live == db.flags[other - 1].live
  {
    assert LoadSegments(SaveFlagSnapshot(db, flagID, subject), other) == LoadSegments(db, other);
  }

  /** The states agree on everything that flags load but for what belongs to segments. */
  predicate SameBesidesSegments(db: DB, db': DB) {
    db'.flags == db.flags && db'.variants == db.variants && db'.tags == db.tags && db'.flagTags == db.flagTags
  }

  /** So a flag afterwards loads the same but for its segments and its snapshot. */
  lemma FinishKeepsFlag(db: DB, edit: Edit, snapshotted: nat, subject: string, flagID: nat)
    requires Exists(db.flags, flagID) && SameBesidesSegments(db, edit.db)
    ensures Exists(Finish(edit, snapshotted, subject).flags, flagID)
    ensures var f, g := Load(db, flagID), Load(Finish(edit, snapshotted, subject), flagID);
            g == f.(segments := g.segments, snapshotID := g.snapshotID, updatedBy := g.updatedBy)
  {
    SnapshotLoads(edit.db, snapshotted, subject, flagID);
  }

  /** A well-addressed request leaves every other flag as it was. */
  lemma StepLeavesOthers(lib: Library, db: DB, req: Request, other: nat)
    requires WellAddressed(db, req) && KeysAgree(db) && TagsBounded(db)
    requires other != FlagOf(db, req) && Exists(db.flags, other)
    ensures var db' := Step(lib, db, req);
            && Exists(db'.flags, other) && db'.flags[other - 1] == db.flags[other - 1]
            && Load(db', other) == Load(db, other)
  {
    EditTouches(lib, db, req);
    var edit := EditOf(lib, db, req);
    OtherFlagsLoadTheSame(db, edit.db, FlagOf(db, req), other);
    SnapshotLoads(edit.db, FlagOf(db, req), SubjectOf(req), other);
  }

  lemma {:induction false} TagIDInRange(tags: seq<string>, value: string)
    ensures 1 <= TagIDFor(tags, value) <= |tags| + 1
    ensures value in tags ==> TagIDFor(tags, value) <= |tags| && tags[TagIDFor(tags, value) - 1] == value
  {
    if tags != [] && tags[0] != value {
      TagIDInRange(tags[1..], value);
      assert value in tags ==> value in tags[1..];
    }
  }

  lemma StepKeepsTagsBounded(lib: Library, db: DB, req: Request)
    requires TagsBounded(db)
    ensures TagsBounded(Step(lib, db, req))
  {
    FinishKeepsTables(EditOf(lib, db, req), FlagOf(db, req), SubjectOf(req));
    if req.CreateTag? {
      TagIDInRange(db.tags, req.tagValue);
    }
  }
}
