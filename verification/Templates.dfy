/** The simple boolean flag template, from the request to everybody's answer. */
module Templates {
  import opened Entities
  import opened Bucketing
  import opened Preparation
  import opened Evaluation
  import opened Tables
  import opened Database
  import opened Handlers
  import opened Integrity
  import opened Agreement
  import opened Frames

  /** No live row belongs to the flag or to the segment that a template creates next. */
  ghost predicate NothingWaits(db: DB) {
    && (forall i :: 0 <= i < |db.segments| ==> !Visible(db.segments[i], |db.flags| + 1))
    && (forall i :: 0 <= i < |db.constraints| ==> !Visible(db.constraints[i], |db.segments| + 1))
    && (forall i :: 0 <= i < |db.distributions| ==> !Visible(db.distributions[i], |db.segments| + 1))
  }

  lemma {:induction false} NoChildren<T, E>(t: seq<Row<T>>, owner: nat, make: (nat, Row<T>) -> E)
    requires forall i :: 0 <= i < |t| ==> !Visible(t[i], owner)
    ensures Children(t, owner, make) == []
  {
    if t != [] {
      NoChildren(t[..|t| - 1], owner, make);
    }
  }

  lemma OnlyChild<T, E>(t: seq<Row<T>>, r: Row<T>, owner: nat, make: (nat, Row<T>) -> E)
    requires (forall i :: 0 <= i < |t| ==> !Visible(t[i], owner)) && Visible(r, owner)
    ensures Children(t + [r], owner, make) == [make(|t| + 1, r)]
  {
    NoChildren(t, owner, make);
    ChildrenAppend(t, r, owner, make);
  }

  lemma SortOne<E>(x: E, key: E -> nat)
    ensures SortBy([x], key) == [x]
  {
    assert [x][..0] == [];
  }

  function TemplateDistribution(db: DB): Distribution {
    Distribution(|db.distributions| + 1, |db.segments| + 1, |db.variants| + 1, "on", 100)
  }

  function TemplateSegment(db: DB): Segment {
    Segment(|db.segments| + 1, |db.flags| + 1, "", SEGMENT_DEFAULT_RANK, 100, [], [TemplateDistribution(db)],
        UNPREPARED)
  }

  /** The request creates a flag from the template, and the flag starts with what the template adds. */
  ghost predicate CreatesTemplate(db: DB, req: Request) {
    req.CreateFlag? && req.template == SIMPLE_BOOLEAN_FLAG && EditCreateFlag(db, req).Saved? && NothingWaits(db)
  }

  lemma TemplateTables(lib: Library, db: DB, req: Request)
    requires CreatesTemplate(db, req)
    ensures var db' := Step(lib, db, req);
            && LiveFlag(db', |db.flags| + 1)
            && db'.segments == db.segments + [Row(|db.flags| + 1, true, SegmentData("", SEGMENT_DEFAULT_RANK, 100))]
            && db'.constraints == db.constraints
            && db'.distributions == db.distributions + [TemplateRow(db)]
            && db'.variants == db.variants + [Row(|db.flags| + 1, true, VariantData("on", map[]))]
  {
    FinishKeepsTables(EditOf(lib, db, req), FlagOf(db, req), SubjectOf(req));
  }

  /** It loads one segment, for everybody, with one distribution of all the buckets. */
  lemma TemplateLoads(lib: Library, db: DB, req: Request)
    requires CreatesTemplate(db, req)
    ensures LoadSegments(Step(lib, db, req), |db.flags| + 1) == [TemplateSegment(db)]
  {
    var db', flagID, segmentID := Step(lib, db, req), |db.flags| + 1, |db.segments| + 1;
    TemplateTables(lib, db, req);
    OnlyChild(db.segments, db'.segments[segmentID - 1], flagID, MakeSegment);
    SortOne(MakeSegment(segmentID, db'.segments[segmentID - 1]), RankOf);
    NoChildren(db.constraints, segmentID, MakeConstraint);
    OnlyChild(db.distributions, TemplateRow(db), segmentID, MakeDistribution);
    SortOne(TemplateDistribution(db), VariantIDOf);
  }

  /** An enabled flag whose one segment is for everybody, all of one variant and rolled out to all. */
  predicate IsSimple(f: Flag, s: Segment, d: Distribution) {
    && f.enabled && f.segments == [s]
    && s.constraints == [] && s.rolloutPercent == 100 && s.distributions == [d] && d.percent == 100
  }

  lemma SimpleRollout(lib: Library, d: Distribution, entityID: string, salt: string)
    requires d.percent == 100 && entityID != ""
    ensures Rollout(lib, ArrayOf([d]), entityID, salt, 100) == Assigned(d.variantID)
  {
    assert [d][1..] == [] && Sum([d]) == 100;
    RolloutMonotone(lib, [d], entityID, salt, 100, 100);
    var bucket := Crc32Num(lib, entityID, salt);
    RolloutRefinesWalk([d], bucket, 100);
    AssignedIsListed(lib, [d], bucket, 100);
  }

  /** It serves that variant to everybody. */
  lemma SimpleFlagServes(lib: Library, f: Flag, s: Segment, d: Distribution, ctx: EvalContext, random: nat)
    requires IsSimple(f, s, d) && d.variantID in VariantsMap(f.variants)
    ensures Prepare(lib, f).Some?
    ensures var e := EvaluateFlag(lib, Prepare(lib, f).value, ctx, random);
            && e.Evaluated? && e.result.segmentID == s.id && e.result.variantID == d.variantID
            && e.result.variantKey == VariantsMap(f.variants)[d.variantID].key
  {
    var p := Prepare(lib, f).value;
    SimpleRollout(lib, d, FillContext(p, ctx, random).entityID, Text.Decimal(p.id));
  }

  /** Enabling or disabling a live flag changes nothing else about it but the snapshot. */
  lemma SwitchingLoads(lib: Library, db: DB, flagID: nat, enabled: bool, subject: string)
    requires LiveFlag(db, flagID)
    ensures var db', f := Step(lib, db, SetFlagEnabled(flagID, enabled, subject)), Load(db, flagID);
            && LiveFlag(db', flagID)
            && Load(db', flagID) == f.(enabled := enabled, snapshotID := |db.snapshots| + 1, updatedBy := subject)
  {
    var edited := EditOf(lib, db, SetFlagEnabled(flagID, enabled, subject)).db;
    assert LoadSegments(edited, flagID) == LoadSegments(db, flagID);
    SnapshotLoads(edited, flagID, subject, flagID);
  }

  /** The flag after it was created from the template and enabled. */
  lemma TemplateEnabled(lib: Library, db: DB, req: Request, subject: string)
    requires CreatesTemplate(db, req)
    ensures var flagID, created := |db.flags| + 1, Step(lib, db, req);
            var db' := Step(lib, created, SetFlagEnabled(flagID, true, subject));
            && LiveFlag(db', flagID)
            && var f := Load(db', flagID);
               IsSimple(f, TemplateSegment(db), TemplateDistribution(db)) && f.variants == LoadVariants(created, flagID)
    ensures var m := VariantsMap(LoadVariants(Step(lib, db, req), |db.flags| + 1));
            |db.variants| + 1 in m && m[|db.variants| + 1].key == "on"
  {
    var flagID, created := |db.flags| + 1, Step(lib, db, req);
    TemplateTables(lib, db, req);
    TemplateLoads(lib, db, req);
    SwitchingLoads(lib, created, flagID, true, subject);
    VariantsMapOfLoaded(created, flagID, |db.variants| + 1);
  }

  /** The template promise: a flag created from it serves every entity the variant "on" as soon as
      it is enabled, whatever the checksum, as long as no stray rows wait under its new IDs. */
  lemma TemplateServesEverybody(lib: Library, db: DB, req: Request, subject: string, ctx: EvalContext, random: nat)
    requires CreatesTemplate(db, req)
    ensures var flagID := |db.flags| + 1;
            var db' := Step(lib, Step(lib, db, req), SetFlagEnabled(flagID, true, subject));
            && LiveFlag(db', flagID)
            && Prepare(lib, Load(db', flagID)).Some?
            && var e := EvaluateFlag(lib, Prepare(lib, Load(db', flagID)).value, ctx, random);
               && e.Evaluated? && e.result.variantKey == "on"
               && e.result.variantID == |db.variants| + 1 && e.result.segmentID == |db.segments| + 1
  {
    var flagID := |db.flags| + 1;
    var db' := Step(lib, Step(lib, db, req), SetFlagEnabled(flagID, true, subject));
    TemplateEnabled(lib, db, req, subject);
    SimpleFlagServes(lib, Load(db', flagID), TemplateSegment(db), TemplateDistribution(db), ctx, random);
  }
}
