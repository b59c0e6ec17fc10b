/** Where the audit trail ends: exactly which requests change a flag without a snapshot of it. */
module AuditLimits {
  import opened Words
  import opened Text
  import opened Entities
  import opened Preparation
  import opened Evaluation
  import opened Tables
  import opened Database
  import opened Handlers
  import opened Integrity
  import opened Agreement
  import opened Frames
  import opened Audit
  import opened Templates

  // ----- when a snapshot is taken -----

  /** A request takes a snapshot if and only if it is accepted, is not the deletion of a flag, and
      its flag was live before or is created or restored by it. */
  lemma SnapshotTakenExactly(lib: Library, db: DB, req: Request)
    ensures Step(lib, db, req).snapshots != db.snapshots
            <==> !EditOf(lib, db, req).Refused? && !req.DeleteFlag?
                 && (LiveFlag(db, FlagOf(db, req)) || req.CreateFlag? || req.RestoreFlag?)
  {
    EditKeepsSnapshots(lib, db, req);
    EditKeepsLives(lib, db, req);
  }

  lemma EditKeepsLives(lib: Library, db: DB, req: Request)
    ensures req.DeleteFlag? || EditOf(lib, db, req).Refused?
            || (LiveFlag(EditOf(lib, db, req).db, FlagOf(db, req))
                <==> LiveFlag(db, FlagOf(db, req)) || req.CreateFlag? || req.RestoreFlag?)
  {
  }

  /** The flag loads differently, or lives or dies, and no snapshot is taken. */
  ghost predicate ChangesUnrecorded(db: DB, db': DB, flagID: nat)
    requires Exists(db.flags, flagID)
  {
    && db'.snapshots == db.snapshots && Exists(db'.flags, flagID)
    && (LiveFlag(db', flagID) != LiveFlag(db, flagID) || Load(db', flagID) != Load(db, flagID))
  }

  /** The deletion check meets a zero-percent row first, and some other row later. */
  predicate DeletesBeforeRefusing(db: DB, req: Request) {
    && req.DeleteVariant?
    && var visited := Visited(LoadSegments(db, req.flagID), req.variantID);
       !AllZero(visited) && visited[0].percent == 0
  }

  lemma DoomedChangesLoad(db: DB, req: Request)
    requires DeletesBeforeRefusing(db, req) && LiveFlag(db, req.flagID)
    ensures LoadSegments(EditDeleteVariant(db, req).db, req.flagID) != LoadSegments(db, req.flagID)
  {
    var ss := LoadSegments(db, req.flagID);
    var d, db' := Visited(ss, req.variantID)[0], EditDeleteVariant(db, req).db;
    var i := VisitedWitness(ss, req.variantID, d);
    VisitedRow(db, req.flagID, req.variantID, d);
    assert d.id in Doomed(Visited(ss, req.variantID)) && !Live(db'.distributions, d.id);
    if LoadSegments(db', req.flagID) == ss {
      LoadedSegment(db', req.flagID, i);
      LoadedRow(db', ss[i].id, d);
    }
  }

  lemma NothingDoomed(db: DB, req: Request)
    requires req.DeleteVariant? && EditDeleteVariant(db, req).Refused? && !DeletesBeforeRefusing(db, req)
    ensures EditDeleteVariant(db, req).db == db
  {
    assert Kill(db.distributions, {}) == db.distributions;
  }

  /** Exactly two requests to a live flag change it unrecorded: deleting the flag, and deleting a
      variant that is refused after zero-percent rows of it were deleted. */
  lemma UnrecordedExactly(lib: Library, db: DB, req: Request)
    requires !req.CreateFlag? && LiveFlag(db, req.flagID)
    ensures ChangesUnrecorded(db, Step(lib, db, req), req.flagID)
            <==> req.DeleteFlag? || DeletesBeforeRefusing(db, req)
  {
    SnapshotTakenExactly(lib, db, req);
    EditKeepsSnapshots(lib, db, req);
    if DeletesBeforeRefusing(db, req) {
      DoomedChangesLoad(db, req);
    } else if req.DeleteVariant? && EditOf(lib, db, req).Refused? {
      NothingDoomed(db, req);
    }
  }

  // ----- a refused deletion that changes its flag -----

  const OFF: Request := CreateVariant(1, "off", NoAttachment, "")
  const SECOND_SEGMENT: Request := CreateSegment(1, "", 100, "")
  const ALL_ON: seq<DistributionBody> := [DistributionBody(1, "on", Some(100)), DistributionBody(2, "off", Some(0))]
  const ALL_OFF: seq<DistributionBody> := [DistributionBody(2, "off", Some(100))]
  const FILL_FIRST: Request := PutDistributions(1, 1, ALL_ON, "")
  const FILL_SECOND: Request := PutDistributions(1, 2, ALL_OFF, "")
  const DELETE_OFF: Request := DeleteVariant(1, 2, "")
  const SHELL: seq<Request> := [TEMPLATE_FLAG, OFF, SECOND_SEGMENT]
  const HALF_FULL: seq<Request> := SHELL + [FILL_FIRST]
  const FULL: seq<Request> := HALF_FULL + [FILL_SECOND]

  const SEGMENT_ROW: Row<SegmentData> := Row(1, true, SegmentData("", SEGMENT_DEFAULT_RANK, 100))

  ghost predicate TwoOfEach(db: DB) {
    && LiveFlag(db, 1) && db.constraints == []
    && db.segments == [SEGMENT_ROW, SEGMENT_ROW]
    && db.variants == [Row(1, true, VariantData("on", map[])), Row(1, true, VariantData("off", map[]))]
  }

  lemma AddSegment(lib: Library, db: DB)
    requires LiveFlag(db, 1) && db.constraints == [] && db.segments == [SEGMENT_ROW]
    ensures var db' := Step(lib, db, SECOND_SEGMENT);
            && LiveFlag(db', 1) && db'.constraints == [] && db'.segments == [SEGMENT_ROW, SEGMENT_ROW]
            && db'.variants == db.variants && db'.distributions == db.distributions
  {
    FinishKeepsTables(EditOf(lib, db, SECOND_SEGMENT), 1, "");
  }

  lemma AddVariant(lib: Library, db: DB)
    requires LiveFlag(db, 1) && db.constraints == [] && db.segments == [SEGMENT_ROW]
             && db.variants == [Row(1, true, VariantData("on", map[]))]
    ensures var db' := Step(lib, db, OFF);
            && LiveFlag(db', 1) && db'.constraints == [] && db'.segments == [SEGMENT_ROW]
            && db'.distributions == db.distributions
            && db'.variants == [Row(1, true, VariantData("on", map[])), Row(1, true, VariantData("off", map[]))]
  {
    FinishKeepsTables(EditOf(lib, db, OFF), 1, "");
  }

  lemma TwoSegments(lib: Library)
    ensures var db := Execute(lib, SHELL);
            TwoOfEach(db) && db.distributions == [Row(1, true, DistributionData(1, "on", 100))]
  {
    OneTemplate(lib);
    OneMore(lib, [TEMPLATE_FLAG], OFF);
    AddVariant(lib, Execute(lib, [TEMPLATE_FLAG]));
    OneMore(lib, [TEMPLATE_FLAG] + [OFF], SECOND_SEGMENT);
    AddSegment(lib, Execute(lib, [TEMPLATE_FLAG] + [OFF]));
    assert SHELL == [TEMPLATE_FLAG] + [OFF] + [SECOND_SEGMENT];
  }

  lemma AllOnSums()
    ensures SumOfPercents(ALL_ON) == 100
  {
    var first := [ALL_ON[0]];
    assert first[..0] == [] && SumOfPercents(first) == 100;
    assert |ALL_ON| == 2 && ALL_ON[..1] == first;
  }

  lemma PutTwo(lib: Library, db: DB)
    requires TwoOfEach(db) && db.distributions == [Row(1, true, DistributionData(1, "on", 100))]
    ensures var db' := Step(lib, db, FILL_FIRST);
            TwoOfEach(db') && db'.distributions == FilledFirst()
  {
    AllOnSums();
    assert NamesVariant(db, 1, ALL_ON[0]) && NamesVariant(db, 1, ALL_ON[1]);
    assert AcceptsDistributions(db, 1, ALL_ON);
    RowsOfOwner(db.distributions, 1);
    FinishKeepsTables(EditOf(lib, db, FILL_FIRST), 1, "");
  }

  function FilledFirst(): seq<Row<DistributionData>> {
    [Row(1, false, DistributionData(1, "on", 100)), Row(1, true, DistributionData(1, "on", 100)),
     Row(1, true, DistributionData(2, "off", 0))]
  }

  const LAST_ROW: Row<DistributionData> := Row(2, true, DistributionData(2, "off", 100))

  lemma PutOne(lib: Library, db: DB)
    requires TwoOfEach(db) && db.distributions == FilledFirst()
    ensures var db' := Step(lib, db, FILL_SECOND);
            TwoOfEach(db') && db'.distributions == FilledFirst() + [LAST_ROW]
  {
    assert ALL_OFF[..0] == [] && SumOfPercents(ALL_OFF) == 100;
    assert NamesVariant(db, 1, ALL_OFF[0]);
    assert AcceptsDistributions(db, 1, ALL_OFF);
    RowsOfOwner(db.distributions, 2);
    assert Kill(db.distributions, RowsOf(db.distributions, 2)) == db.distributions;
    assert MapDistributions(ALL_OFF, 2) == [LAST_ROW];
    FinishKeepsTables(EditOf(lib, db, FILL_SECOND), 1, "");
  }

  lemma ShellIsAddressed(lib: Library)
    ensures AllInBounds(SHELL) && AllWellAddressed(lib, SHELL)
  {
  }

  lemma HalfBuiltUp(lib: Library)
    ensures var db := Execute(lib, HALF_FULL); TwoOfEach(db) && db.distributions == FilledFirst()
    ensures AllInBounds(HALF_FULL) && AllWellAddressed(lib, HALF_FULL)
  {
    ShellIsAddressed(lib);
    TwoSegments(lib);
    OneMore(lib, SHELL, FILL_FIRST);
    PutTwo(lib, Execute(lib, SHELL));
  }

  lemma BuiltUp(lib: Library)
    ensures var db := Execute(lib, FULL); TwoOfEach(db) && db.distributions == FilledFirst() + [LAST_ROW]
    ensures AllInBounds(FULL) && AllWellAddressed(lib, FULL)
  {
    HalfBuiltUp(lib);
    OneMore(lib, HALF_FULL, FILL_SECOND);
    PutOne(lib, Execute(lib, HALF_FULL));
  }

  function FirstSegment(): Segment {
    MakeSegment(1, SEGMENT_ROW).(distributions := [Distribution(2, 1, 1, "on", 100), Distribution(3, 1, 2, "off", 0)])
  }

  function SecondSegment(): Segment {
    MakeSegment(2, SEGMENT_ROW).(distributions := [Distribution(4, 2, 2, "off", 100)])
  }

  lemma LoadsFirst(t: seq<Row<DistributionData>>)
    requires t == FilledFirst() + [LAST_ROW]
    ensures SortBy(Children(t, 1, MakeDistribution), VariantIDOf) == FirstSegment().distributions
  {
    var ds := FirstSegment().distributions;
    ChildrenAppend([], t[0], 1, MakeDistribution);
    ChildrenAppend([t[0]], t[1], 1, MakeDistribution);
    ChildrenAppend([t[0], t[1]], t[2], 1, MakeDistribution);
    ChildrenAppend([t[0], t[1], t[2]], t[3], 1, MakeDistribution);
    assert Children(t, 1, MakeDistribution) == ds;
    SortOne(ds[0], VariantIDOf);
    SortByAppend([ds[0]], ds[1], VariantIDOf);
  }

  lemma LoadsSecond(t: seq<Row<DistributionData>>)
    requires t == FilledFirst() + [LAST_ROW]
    ensures SortBy(Children(t, 2, MakeDistribution), VariantIDOf) == SecondSegment().distributions
  {
    OnlyChild(FilledFirst(), LAST_ROW, 2, MakeDistribution);
    SortOne(SecondSegment().distributions[0], VariantIDOf);
  }

  lemma LoadsBoth(db: DB)
    requires TwoOfEach(db) && db.distributions == FilledFirst() + [LAST_ROW]
    ensures LoadSegments(db, 1) == [FirstSegment(), SecondSegment()]
  {
    var s, s' := MakeSegment(1, SEGMENT_ROW), MakeSegment(2, SEGMENT_ROW);
    ChildrenAppend([], SEGMENT_ROW, 1, MakeSegment);
    ChildrenAppend([SEGMENT_ROW], SEGMENT_ROW, 1, MakeSegment);
    assert Children(db.segments, 1, MakeSegment) == [s, s'];
    SortOne(s, RankOf);
    SortByAppend([s], s', RankOf);
    assert SegmentRows(db, 1) == [s, s'];
    LoadsFirst(db.distributions);
    LoadsSecond(db.distributions);
  }

  lemma OfVariantOne(d: Distribution, variantID: nat)
    ensures OfVariant([d], variantID) == if d.variantID == variantID then [d] else []
  {
    assert [d][..0] == [];
  }

  lemma OfVariantTwo(d: Distribution, e: Distribution, variantID: nat)
    requires d.variantID != variantID && e.variantID == variantID
    ensures OfVariant([d, e], variantID) == [e]
  {
    OfVariantOne(d, variantID);
    assert [d, e][..1] == [d];
  }

  lemma VisitedTwo(s: Segment, t: Segment, variantID: nat)
    ensures Visited([s, t], variantID) == OfVariant(s.distributions, variantID) + OfVariant(t.distributions, variantID)
  {
    assert [s, t][..1] == [s] && [s][..0] == [];
    assert Visited([s], variantID) == OfVariant(s.distributions, variantID);
  }

  lemma VisitsBoth(db: DB)
    requires LoadSegments(db, 1) == [FirstSegment(), SecondSegment()]
    ensures Visited(LoadSegments(db, 1), 2) == [Distribution(3, 1, 2, "off", 0), Distribution(4, 2, 2, "off", 100)]
  {
    VisitedTwo(FirstSegment(), SecondSegment(), 2);
    OfVariantTwo(Distribution(2, 1, 1, "on", 100), Distribution(3, 1, 2, "off", 0), 2);
    OfVariantOne(Distribution(4, 2, 2, "off", 100), 2);
  }

  lemma FullDeletesBeforeRefusing(lib: Library)
    ensures LiveFlag(Execute(lib, FULL), 1) && WellAddressed(Execute(lib, FULL), DELETE_OFF)
    ensures DeletesBeforeRefusing(Execute(lib, FULL), DELETE_OFF)
  {
    var db := Execute(lib, FULL);
    BuiltUp(lib);
    LoadsBoth(db);
    VisitsBoth(db);
    assert Visited(LoadSegments(db, 1), 2)[1].percent != 0;
  }

  /** A well-addressed run at whose end a refused deletion changes what its flag loads, and the
      flag's snapshot does not show it. */
  lemma RefusedDeletionIsUnrecorded(lib: Library)
    ensures AllInBounds(FULL + [DELETE_OFF]) && AllWellAddressed(lib, FULL + [DELETE_OFF])
    ensures LiveFlag(Execute(lib, FULL), 1) && EditOf(lib, Execute(lib, FULL), DELETE_OFF).Refused?
    ensures ChangesUnrecorded(Execute(lib, FULL), Execute(lib, FULL + [DELETE_OFF]), 1)
  {
    BuiltUp(lib);
    FullDeletesBeforeRefusing(lib);
    OneMore(lib, FULL, DELETE_OFF);
    UnrecordedExactly(lib, Execute(lib, FULL), DELETE_OFF);
  }

  // ----- edits through another flag's path -----

  /** An audited flag whose snapshot is kept stays audited exactly while it loads the same. */
  lemma StaysAuditedExactly(db: DB, db': DB, flagID: nat)
    requires Exists(db.flags, flagID) && Audited(db, flagID) && db.snapshots <= db'.snapshots
    requires Exists(db'.flags, flagID) && db'.flags[flagID - 1].snapshotID == db.flags[flagID - 1].snapshotID
    ensures Audited(db', flagID) <==> Normal(Load(db', flagID)) == Normal(Load(db, flagID))
  {
    var id := db.flags[flagID - 1].snapshotID;
    assert db'.snapshots[id - 1] == db.snapshots[id - 1];
  }

  /** The request finds in the segment what it writes there. */
  predicate WritesTheSame(db: DB, req: Request)
    requires req.PutSegment? && Exists(db.segments, req.segmentID)
  {
    var data := db.segments[req.segmentID - 1].data;
    data.rolloutPercent == SafeUint(req.rolloutPercent) && data.description == req.description
  }

  lemma PutSegmentShows(lib: Library, db: DB, req: Request, flagID: nat)
    requires req.PutSegment? && Live(db.segments, req.segmentID) && Owned(db.segments, req.segmentID, flagID)
    requires !WritesTheSame(db, req)
    ensures NormalSegments(LoadSegments(Step(lib, db, req), flagID)) != NormalSegments(LoadSegments(db, flagID))
  {
    var db' := Step(lib, db, req);
    FinishKeepsTables(EditOf(lib, db, req), req.flagID, req.subject);
    var ss, ss' := LoadSegments(db, flagID), LoadSegments(db', flagID);
    var i := SegmentLoaded(db', flagID, req.segmentID);
    if i < |ss| {
      LoadedSegment(db, flagID, i);
      assert NormalSegments(ss)[i] != NormalSegments(ss')[i];
    }
  }

  lemma PutSegmentHides(lib: Library, db: DB, req: Request, flagID: nat)
    requires req.PutSegment? && (Live(db.segments, req.segmentID) && Owned(db.segments, req.segmentID, flagID)
                                 ==> WritesTheSame(db, req))
    ensures LoadSegments(Step(lib, db, req), flagID) == LoadSegments(db, flagID)
  {
    var db' := Step(lib, db, req);
    FinishKeepsTables(EditOf(lib, db, req), req.flagID, req.subject);
    ChildrenSame(db.segments, db'.segments, flagID, MakeSegment);
    assert SegmentRows(db', flagID) == SegmentRows(db, flagID);
  }

  /** The address matters, exactly: after a segment is put through a flag's path, another flag stays
      audited if and only if the segment is not a live one of that other flag, or nothing changed. */
  lemma MisaddressedPutSegment(lib: Library, db: DB, req: Request, other: nat)
    requires req.PutSegment? && req.flagID != other && Exists(db.flags, other) && Audited(db, other)
    ensures Exists(Step(lib, db, req).flags, other)
    ensures Audited(Step(lib, db, req), other)
            <==> || !Live(db.segments, req.segmentID)
                 || !Owned(db.segments, req.segmentID, other)
                 || WritesTheSame(db, req)
  {
    var db', edited := Step(lib, db, req), EditOf(lib, db, req).db;
    SnapshotLoads(edited, req.flagID, req.subject, other);
    EditKeepsSnapshots(lib, db, req);
    assert db.snapshots <= db'.snapshots;
    StaysAuditedExactly(db, db', other);
    if Live(db.segments, req.segmentID) && Owned(db.segments, req.segmentID, other) && !WritesTheSame(db, req) {
      PutSegmentShows(lib, db, req, other);
      assert Normal(Load(db, other)).segments != Normal(Load(db', other)).segments;
    } else {
      PutSegmentHides(lib, db, req, other);
      assert Load(db', other) == Load(db, other);
    }
  }

  // ----- a misaddressed edit that everybody notices -----

  const ENABLE_SECOND: Request := SetFlagEnabled(2, true, "")
  const SILENCE_SECOND: Request := PutSegment(1, 2, "", 0, "")
  const TWO_FLAGS: seq<Request> := [TEMPLATE_FLAG] + [NEXT_TEMPLATE_FLAG]
  const TWO_FLAGS_ON: seq<Request> := TWO_FLAGS + [ENABLE_SECOND]

  const OTHER_ROW: Row<SegmentData> := Row(2, true, SegmentData("", SEGMENT_DEFAULT_RANK, 100))

  lemma SecondKeyIsFree(flags: seq<FlagRow>)
    requires |flags| == 1 && flags[0].key == "first"
    ensures !KeyTaken(flags, "second", 0) && IsSafeKey("second")
  {
    assert "first"[0] != "second"[0];
  }

  lemma SecondTemplate(lib: Library)
    ensures CreatesTemplate(Execute(lib, [TEMPLATE_FLAG]), NEXT_TEMPLATE_FLAG)
    ensures var db := Execute(lib, [TEMPLATE_FLAG]);
            |db.flags| == 1 && db.segments == [SEGMENT_ROW] && db.constraints == [] && |db.variants| == 1
  {
    OneTemplate(lib);
    SecondKeyIsFree(Execute(lib, [TEMPLATE_FLAG]).flags);
  }

  lemma SecondIsOn(lib: Library) returns (s: Segment, d: Distribution)
    ensures var db := Execute(lib, TWO_FLAGS_ON);
            && LiveFlag(db, 2) && db.segments == [SEGMENT_ROW, OTHER_ROW] && db.constraints == []
            && IsSimple(Load(db, 2), s, d)
            && d.variantID == 2 && 2 in VariantsMap(Load(db, 2).variants)
  {
    var db := Execute(lib, [TEMPLATE_FLAG]);
    SecondTemplate(lib);
    OneMore(lib, [TEMPLATE_FLAG], NEXT_TEMPLATE_FLAG);
    OneMore(lib, TWO_FLAGS, ENABLE_SECOND);
    TemplateTables(lib, db, NEXT_TEMPLATE_FLAG);
    TemplateEnabled(lib, db, NEXT_TEMPLATE_FLAG, "");
    FinishKeepsTables(EditOf(lib, Execute(lib, TWO_FLAGS), ENABLE_SECOND), 2, "");
    s, d := TemplateSegment(db), TemplateDistribution(db);
  }

  /** Nobody gets a variant of an enabled flag whose one segment is for everybody and rolled out to none. */
  lemma SilentFlagWithholds(lib: Library, f: Flag, s: Segment, ctx: EvalContext, random: nat)
    requires f.enabled && f.segments == [s] && s.constraints == [] && s.rolloutPercent == 0
    ensures Prepare(lib, f).Some?
    ensures var e := EvaluateFlag(lib, Prepare(lib, f).value, ctx, random); e.Evaluated? && e.result.variantID == 0
  {
  }

  lemma SilencedLoads(lib: Library, db: DB)
    requires db.segments == [SEGMENT_ROW, OTHER_ROW] && db.constraints == [] && LiveFlag(db, 2)
    ensures var db' := Step(lib, db, SILENCE_SECOND);
            && LiveFlag(db', 2) && db.snapshots <= db'.snapshots
            && db'.flags[1].snapshotID == db.flags[1].snapshotID
            && Load(db', 2).enabled == db.flags[1].enabled
            && |LoadSegments(db', 2)| == 1
            && LoadSegments(db', 2)[0].constraints == [] && LoadSegments(db', 2)[0].rolloutPercent == 0
  {
    var db', silent := Step(lib, db, SILENCE_SECOND), OTHER_ROW.(data := OTHER_ROW.data.(rolloutPercent := 0));
    SnapshotLoads(EditOf(lib, db, SILENCE_SECOND).db, 1, "", 2);
    FinishKeepsTables(EditOf(lib, db, SILENCE_SECOND), 1, "");
    assert db'.segments == [SEGMENT_ROW] + [silent];
    OnlyChild([SEGMENT_ROW], silent, 2, MakeSegment);
    SortOne(MakeSegment(2, silent), RankOf);
  }

  const SOMEBODY: EvalContext := EvalContext("somebody", "", NotAnObject, 2, "", [], None)

  lemma Noticed(lib: Library, body: Flag, f: Flag, g: Flag, s: Segment, d: Distribution, t: Segment)
    requires EvaluateAlike(lib, body, f)
    requires IsSimple(f, s, d) && d.variantID == 2 && 2 in VariantsMap(f.variants)
    requires g.enabled && g.segments == [t] && t.constraints == [] && t.rolloutPercent == 0
    ensures !EvaluateAlike(lib, body, g)
  {
    SimpleFlagServes(lib, f, s, d, SOMEBODY, 0);
    SilentFlagWithholds(lib, g, t, SOMEBODY, 0);
    var e := EvaluateFlag(lib, Prepare(lib, body).value, SOMEBODY, 0);
    assert SameAnswer(e, EvaluateFlag(lib, Prepare(lib, f).value, SOMEBODY, 0));
    assert !SameAnswer(e, EvaluateFlag(lib, Prepare(lib, g).value, SOMEBODY, 0));
  }

  lemma SilencingIsNoticed(lib: Library, db: DB, s: Segment, d: Distribution)
    requires db.segments == [SEGMENT_ROW, OTHER_ROW] && db.constraints == [] && LiveFlag(db, 2)
    requires IsSimple(Load(db, 2), s, d) && d.variantID == 2 && 2 in VariantsMap(Load(db, 2).variants)
    requires SnapshotEvaluatesAlike(lib, db, 2)
    ensures var db' := Step(lib, db, SILENCE_SECOND); LiveFlag(db', 2) && !SnapshotEvaluatesAlike(lib, db', 2)
  {
    var db' := Step(lib, db, SILENCE_SECOND);
    SilencedLoads(lib, db);
    var id := db.flags[1].snapshotID;
    assert db'.snapshots[id - 1] == db.snapshots[id - 1];
    Noticed(lib, db.snapshots[id - 1].body, Load(db, 2), Load(db', 2), s, d, LoadSegments(db', 2)[0]);
  }

  lemma TwoFlagsAreAddressed(lib: Library)
    ensures AllInBounds(TWO_FLAGS_ON) && AllWellAddressed(lib, TWO_FLAGS_ON)
  {
  }

  /** One misaddressed request is enough to break audit equivalence: a run whose first three requests
      are well-addressed and whose last puts the second flag's segment through the first flag's path.
      The second flag stops serving, and its snapshot still serves everybody. */
  lemma MisaddressedEditIsNoticed(lib: Library)
    ensures AllInBounds(TWO_FLAGS_ON + [SILENCE_SECOND]) && AllWellAddressed(lib, TWO_FLAGS_ON)
    ensures LiveFlag(Execute(lib, TWO_FLAGS_ON), 2) && SnapshotEvaluatesAlike(lib, Execute(lib, TWO_FLAGS_ON), 2)
    ensures var db := Execute(lib, TWO_FLAGS_ON + [SILENCE_SECOND]);
            LiveFlag(db, 2) && !SnapshotEvaluatesAlike(lib, db, 2)
  {
    var db := Execute(lib, TWO_FLAGS_ON);
    var s, d := SecondIsOn(lib);
    TwoFlagsAreAddressed(lib);
    AuditEquivalence(lib, TWO_FLAGS_ON, 2);
    OneMore(lib, TWO_FLAGS_ON, SILENCE_SECOND);
    SilencingIsNoticed(lib, db, s, d);
  }
}
