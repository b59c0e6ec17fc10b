/** Evaluating one flag for one entity: the first-match walk over the ordered segments. */
module Evaluation {
  import opened Entities
  import opened Bucketing
  import opened Text
  import opened Words

  /** The JSON value an entity context carries: an object, or anything else. */
  datatype EntityContext = NotAnObject | Object(fields: map<string, string>)

  datatype EvalContext = EvalContext(
    entityID: string,
    entityType: string,
    entityContext: EntityContext,
    flagID: int,
    flagKey: string,
    flagTags: seq<string>,
    flagTagsOperator: Option<string>)

  datatype EvalResult = EvalResult(
    entityID: string,
    entityType: string,
    flagID: nat,
    flagKey: string,
    flagSnapshotID: nat,
    flagTags: seq<string>,
    segmentID: nat,
    variantID: nat,
    variantKey: string,
    variantAttachment: Attachment)

  /** An evaluation answers, or crashes on an index out of range. */
  datatype Evaluation = Crashed | Evaluated(result: EvalResult)

  // ----- one segment -----

  /** Whether the entity satisfies the constraints of a prepared segment. Without
      constraints everybody does; a context that is not an object, or an evaluation
      error, counts as no match. */
  predicate Matches(lib: Library, ctx: EvalContext, s: Segment) {
    s.constraints == []
    || (&& ctx.entityContext.Object?
        && s.evaluation.conditionsExpr.Some?
        && lib.evaluate(s.evaluation.conditionsExpr.value, ctx.entityContext.fields) == Match)
  }

  function RolloutOf(lib: Library, flagID: nat, ctx: EvalContext, s: Segment): Outcome {
    Rollout(lib, s.evaluation.distributionArray, ctx.entityID, Decimal(flagID), s.rolloutPercent)
  }

  datatype SegmentOutcome = NextSegment | Stop(outcome: Outcome)

  function EvalSegment(lib: Library, flagID: nat, ctx: EvalContext, s: Segment): SegmentOutcome {
    if s.constraints != [] then
      match ctx.entityContext
      case NotAnObject => NextSegment
      case Object(fields) =>
        match s.evaluation.conditionsExpr
        case None => NextSegment
        case Some(expr) =>
          match lib.evaluate(expr, fields)
          case Failure => NextSegment
          case NoMatch => NextSegment
          case Match => Stop(RolloutOf(lib, flagID, ctx, s))
    else
      Stop(RolloutOf(lib, flagID, ctx, s))
  }

  // ----- the reference -----

  /** The index of the first segment that matches, or the number of segments. */
  function FirstMatch(lib: Library, ctx: EvalContext, segments: seq<Segment>): (k: nat)
    ensures k <= |segments|
    ensures k < |segments| ==> Matches(lib, ctx, segments[k])
    ensures forall j :: 0 <= j < k ==> !Matches(lib, ctx, segments[j])
  {
    if segments == [] || Matches(lib, ctx, segments[0]) then 0 else 1 + FirstMatch(lib, ctx, segments[1..])
  }

  /** Which segment decides, and how: the first match; without one the last segment is
      reported and nothing is assigned. */
  datatype Decision = Decision(segmentID: nat, outcome: Outcome)

  function Decide(lib: Library, flagID: nat, ctx: EvalContext, segments: seq<Segment>): Decision
    requires segments != []
  {
    var k := FirstMatch(lib, ctx, segments);
    if k < |segments| then Decision(segments[k].id, RolloutOf(lib, flagID, ctx, segments[k]))
    else Decision(segments[|segments| - 1].id, Withheld)
  }

  function BlankResult(f: Flag, ctx: EvalContext): EvalResult {
    EvalResult(ctx.entityID, ctx.entityType, f.id, f.key, f.snapshotID, TagValues(f.tags), 0, 0, "", map[])
  }

  function TagValues(tags: seq<Tag>): seq<string> {
    seq(|tags|, i requires 0 <= i < |tags| => tags[i].value)
  }

  /** The flag that stands in for one that is not found. */
  function EmptyFlag(id: nat, key: string): Flag {
    Flag(id, key, "", "", "", false, [], [], [], 0, "", false, "", map[])
  }

  /** The context after a missing entity ID and the flag's entity type are filled in. */
  function FillContext(f: Flag, ctx: EvalContext, random: nat): EvalContext {
    var named := if ctx.entityID == "" then ctx.(entityID := "randomly_generated_" + Decimal(random)) else ctx;
    if f.entityType != "" then named.(entityType := f.entityType) else named
  }

  function Answer(f: Flag, ctx: EvalContext, segmentID: nat, variantID: nat): EvalResult {
    var blank := BlankResult(f, ctx).(segmentID := segmentID, variantID := variantID);
    if variantID in f.variantsMap then
      blank.(variantKey := f.variantsMap[variantID].key, variantAttachment := f.variantsMap[variantID].attachment)
    else blank
  }

  function EvaluateFlag(lib: Library, f: Flag, ctx: EvalContext, random: nat): Evaluation {
    if !f.enabled || f.segments == [] then Evaluated(BlankResult(f, ctx))
    else
      var filled := FillContext(f, ctx, random);
      var decision := Decide(lib, f.id, filled, f.segments);
      match decision.outcome
      case Panic => Crashed
      case Withheld => Evaluated(Answer(f, filled, decision.segmentID, 0))
      case Assigned(v) => Evaluated(Answer(f, filled, decision.segmentID, v))
  }

  function Evaluate(lib: Library, f: Option<Flag>, ctx: EvalContext, random: nat): Evaluation {
    match f
    case None => Evaluated(BlankResult(EmptyFlag(SafeUint(ctx.flagID), ctx.flagKey), ctx))
    case Some(flag) => EvaluateFlag(lib, flag, ctx, random)
  }

  // ----- the code -----

  method MakeBlankResult(f: Flag, ctx: EvalContext) returns (r: EvalResult)
    ensures r == BlankResult(f, ctx)
  {
    var flagTags: seq<string> := [];
    for i := 0 to |f.tags|
      invariant flagTags == TagValues(f.tags[..i])
    {
      flagTags := flagTags + [f.tags[i].value];
    }
    assert f.tags[..|f.tags|] == f.tags;
    r := EvalResult(ctx.entityID, ctx.entityType, f.id, f.key, f.snapshotID, flagTags, 0, 0, "", map[]);
  }

  /** The segment loop with its early exit computes the first-match reference. */
  method EvalFlagWithContext(lib: Library, flag: Option<Flag>, evalContext: EvalContext, random: nat)
    returns (r: Evaluation)
    ensures r == Evaluate(lib, flag, evalContext, random)
  {
    if flag == None {
      var blank := MakeBlankResult(EmptyFlag(SafeUint(evalContext.flagID), evalContext.flagKey), evalContext);
      return Evaluated(blank);
    }
    var f := flag.value;
    if !f.enabled || |f.segments| == 0 {
      var blank := MakeBlankResult(f, evalContext);
      return Evaluated(blank);
    }
    var ctx := evalContext;
    if ctx.entityID == "" {
      ctx := ctx.(entityID := "randomly_generated_" + Decimal(random));
    }
    if f.entityType != "" {
      ctx := ctx.(entityType := f.entityType);
    }

    var vID, sID := 0, 0;
    var i := 0;
    while i < |f.segments|
      invariant i <= |f.segments|
      invariant forall j :: 0 <= j < i ==> !Matches(lib, ctx, f.segments[j])
      invariant vID == 0 && (i > 0 ==> sID == f.segments[i - 1].id)
    {
      sID := f.segments[i].id;
      var outcome := EvalSegment(lib, f.id, ctx, f.segments[i]);
      if outcome.Stop? {
        FirstMatchIs(lib, ctx, f.segments, i);
        assert Decide(lib, f.id, ctx, f.segments) == Decision(sID, outcome.outcome);
        if outcome.outcome.Panic? {
          return Crashed;
        }
        if outcome.outcome.Assigned? {
          vID := outcome.outcome.variantID;
        }
        break;
      }
      i := i + 1;
    }
    if i == |f.segments| {
      FirstMatchIs(lib, ctx, f.segments, i);
      assert Decide(lib, f.id, ctx, f.segments) == Decision(sID, Withheld);
    }
    var result := MakeBlankResult(f, ctx);
    result := result.(segmentID := sID, variantID := vID);
    if vID in f.variantsMap {
      result := result.(variantKey := f.variantsMap[vID].key, variantAttachment := f.variantsMap[vID].attachment);
    }
    return Evaluated(result);
  }

  // ----- properties -----

  /** The first match is determined by being the least one. */
  lemma FirstMatchIs(lib: Library, ctx: EvalContext, segments: seq<Segment>, k: nat)
    requires k <= |segments|
    requires k < |segments| ==> Matches(lib, ctx, segments[k])
    requires forall j :: 0 <= j < k ==> !Matches(lib, ctx, segments[j])
    ensures FirstMatch(lib, ctx, segments) == k
  {
  }

  /** Once a segment matches, whatever comes after it cannot affect the decision, even
      when the matching segment's rollout withholds the variant. */
  lemma LaterSegmentsDoNotMatter(lib: Library, flagID: nat, ctx: EvalContext, front: seq<Segment>, back: seq<Segment>)
    requires exists i :: 0 <= i < |front| && Matches(lib, ctx, front[i])
    ensures Decide(lib, flagID, ctx, front + back) == Decide(lib, flagID, ctx, front)
    ensures var k := FirstMatch(lib, ctx, front);
            && k < |front|
            && Decide(lib, flagID, ctx, front) == Decision(front[k].id, RolloutOf(lib, flagID, ctx, front[k]))
  {
    var k := FirstMatch(lib, ctx, front);
    var i :| 0 <= i < |front| && Matches(lib, ctx, front[i]);
    assert k < |front|;
    FirstMatchIs(lib, ctx, front + back, k);
  }

  /** Segments that do not match are skipped wherever they stand before the first match,
      and without any match no variant is assigned and the last segment is reported. */
  lemma NoMatchMeansNoVariant(lib: Library, f: Flag, ctx: EvalContext, random: nat)
    requires f.enabled && f.segments != [] && 0 !in f.variantsMap
    requires forall i :: 0 <= i < |f.segments| ==> !Matches(lib, FillContext(f, ctx, random), f.segments[i])
    ensures EvaluateFlag(lib, f, ctx, random)
            == Evaluated(BlankResult(f, FillContext(f, ctx, random)).(segmentID := f.segments[|f.segments| - 1].id))
  {
    FirstMatchIs(lib, FillContext(f, ctx, random), f.segments, |f.segments|);
  }

  /** Two evaluations that differ at most in the snapshot they report. */
  ghost predicate SameAnswer(a: Evaluation, b: Evaluation) {
    a.Evaluated? == b.Evaluated? && (a.Evaluated? ==> a.result.(flagSnapshotID := 0) == b.result.(flagSnapshotID := 0))
  }

  /** Segments that decide alike, one by one. */
  ghost predicate SameSegments(lib: Library, flagID: nat, ctx: EvalContext, ss: seq<Segment>, ss': seq<Segment>) {
    && |ss| == |ss'|
    && (forall i :: 0 <= i < |ss| ==>
          && ss[i].id == ss'[i].id
          && Matches(lib, ctx, ss[i]) == Matches(lib, ctx, ss'[i])
          && RolloutOf(lib, flagID, ctx, ss[i]) == RolloutOf(lib, flagID, ctx, ss'[i]))
  }

  lemma SameSegmentsDecideAlike(lib: Library, flagID: nat, ctx: EvalContext, ss: seq<Segment>, ss': seq<Segment>)
    requires ss != [] && SameSegments(lib, flagID, ctx, ss, ss')
    ensures Decide(lib, flagID, ctx, ss) == Decide(lib, flagID, ctx, ss')
    ensures FirstMatch(lib, ctx, ss) == FirstMatch(lib, ctx, ss')
  {
    FirstMatchIs(lib, ctx, ss', FirstMatch(lib, ctx, ss));
  }

  /** No segment, no variant: what an evaluation answers when nothing is decided. */
  predicate IsBlank(r: EvalResult) {
    r.segmentID == 0 && r.variantID == 0 && r.variantKey == "" && r.variantAttachment == map[]
  }

  /** A disabled flag, a flag without segments and a flag that is not found answer blank to
      everybody, the last under the ID and the key that were asked for. */
  lemma UndecidedAnswersBlank(lib: Library, f: Option<Flag>, ctx: EvalContext, random: nat)
    requires f.Some? ==> !f.value.enabled || f.value.segments == []
    ensures var e := Evaluate(lib, f, ctx, random);
            && e.Evaluated? && IsBlank(e.result) && e.result.entityID == ctx.entityID
            && (f == None ==> e.result.flagID == SafeUint(ctx.flagID) && e.result.flagKey == ctx.flagKey)
  {
  }

  /** An enabled flag with segments always reports one of them. */
  lemma DecidedReportsASegment(lib: Library, f: Flag, ctx: EvalContext, random: nat)
    requires f.enabled && f.segments != [] && EvaluateFlag(lib, f, ctx, random).Evaluated?
    ensures exists i :: 0 <= i < |f.segments| && f.segments[i].id == EvaluateFlag(lib, f, ctx, random).result.segmentID
  {
    var k := FirstMatch(lib, FillContext(f, ctx, random), f.segments);
    var i := if k < |f.segments| then k else |f.segments| - 1;
    assert f.segments[i].id == EvaluateFlag(lib, f, ctx, random).result.segmentID;
  }

  /** Whatever it decides, an answer is about the flag and the entity that were asked for. */
  lemma AnswersNameWhatWasAsked(lib: Library, f: Flag, ctx: EvalContext, random: nat)
    requires EvaluateFlag(lib, f, ctx, random).Evaluated?
    ensures var r := EvaluateFlag(lib, f, ctx, random).result;
            && r.flagID == f.id && r.flagKey == f.key && r.flagSnapshotID == f.snapshotID
            && (forall v :: v in r.flagTags <==> exists i :: 0 <= i < |f.tags| && f.tags[i].value == v)
            && (ctx.entityID != "" ==> r.entityID == ctx.entityID)
            && (f.entityType == "" ==> r.entityType == ctx.entityType)
            && (r.segmentID != 0 ==> r.entityID != "" && (f.entityType != "" ==> r.entityType == f.entityType))
  {
    var r := EvaluateFlag(lib, f, ctx, random).result;
    assert r.flagTags == TagValues(f.tags);
    forall v
      ensures v in r.flagTags <==> exists i :: 0 <= i < |f.tags| && f.tags[i].value == v
    {
      if i :| 0 <= i < |f.tags| && f.tags[i].value == v {
        assert r.flagTags[i] == v;
      }
    }
  }

  // ----- what a decision depends on -----

  /** The contexts agree on what segments are matched and rolled out by. */
  predicate SameEntity(ctx: EvalContext, ctx': EvalContext) {
    ctx.entityID == ctx'.entityID && ctx.entityContext == ctx'.entityContext
  }

  lemma SameEntitySameDecision(lib: Library, flagID: nat, ctx: EvalContext, ctx': EvalContext, segments: seq<Segment>)
    requires segments != [] && SameEntity(ctx, ctx')
    ensures Decide(lib, flagID, ctx', segments) == Decide(lib, flagID, ctx, segments)
  {
    var k := FirstMatch(lib, ctx, segments);
    assert forall j :: 0 <= j < |segments| ==> Matches(lib, ctx', segments[j]) == Matches(lib, ctx, segments[j]);
    FirstMatchIs(lib, ctx', segments, k);
  }

  /** The answer is determined by the entity's ID, type and context: the flag tags of the context, and
      for a flag that is found its ID and key, play no part. */
  lemma AnswerReadsTheEntity(lib: Library, f: Option<Flag>, ctx: EvalContext, ctx': EvalContext, random: nat)
    requires SameEntity(ctx, ctx') && ctx.entityType == ctx'.entityType
    requires f == None ==> ctx.flagID == ctx'.flagID && ctx.flagKey == ctx'.flagKey
    ensures Evaluate(lib, f, ctx', random) == Evaluate(lib, f, ctx, random)
  {
    if f.Some? && f.value.enabled && f.value.segments != [] {
      var filled, filled' := FillContext(f.value, ctx, random), FillContext(f.value, ctx', random);
      assert SameEntity(filled, filled') && filled.entityType == filled'.entityType;
      SameEntitySameDecision(lib, f.value.id, filled, filled', f.value.segments);
    }
  }

  // ----- the salt -----

  /** Whether the segment consults the entity's bucket at all. */
  predicate Consults(ctx: EvalContext, s: Segment) {
    && ctx.entityID != "" && s.rolloutPercent > 0
    && s.evaluation.distributionArray.variantIDs != [] && s.evaluation.distributionArray.percentsAccumulated != []
  }

  /** The bucket is that of the entity salted with the flag's ID. */
  predicate RollsOutBucket(lib: Library, flagID: nat, ctx: EvalContext, s: Segment, b: nat) {
    RolloutOf(lib, flagID, ctx, s) == RolloutBucket(s.evaluation.distributionArray, b, s.rolloutPercent)
  }

  lemma RollsOutItsBucket(lib: Library, flagID: nat, ctx: EvalContext, s: Segment)
    requires Consults(ctx, s)
    ensures RollsOutBucket(lib, flagID, ctx, s, Crc32Num(lib, ctx.entityID, Decimal(flagID)))
  {
  }

  lemma SaltsDiffer(flagID: nat, flagID': nat, entityID: string)
    requires flagID != flagID'
    ensures Decimal(flagID) + entityID != Decimal(flagID') + entityID
  {
    var s, t := Decimal(flagID), Decimal(flagID');
    if s + entityID == t + entityID {
      assert |s| == |t|;
      assert s == (s + entityID)[..|s|] == (t + entityID)[..|t|] == t;
      DecimalInjective(flagID, flagID');
    }
  }

  /** A checksum with `b` for the one text and `c` for the other. */
  lemma SeparatingChecksum(lib: Library, s: string, t: string, b: nat, c: nat) returns (l: Library)
    requires s != t
    ensures l == lib.(checksum := l.checksum) && l.checksum(s) == b && l.checksum(t) == c
  {
    l := lib.(checksum := (x: string) => if x == s then b else c);
  }

  /** Rollouts of different flags are independent: for any two buckets there is a checksum that puts
      the same entity into the one for the one flag and into the other for the other. */
  lemma FlagsRollOutIndependently(lib: Library, flagID: nat, flagID': nat, ctx: EvalContext, s: Segment, b: nat, c: nat)
    returns (l: Library)
    requires flagID != flagID' && Consults(ctx, s) && b < TOTAL_BUCKET_NUM && c < TOTAL_BUCKET_NUM
    ensures l == lib.(checksum := l.checksum)
    ensures RollsOutBucket(l, flagID, ctx, s, b) && RollsOutBucket(l, flagID', ctx, s, c)
  {
    SaltsDiffer(flagID, flagID', ctx.entityID);
    l := SeparatingChecksum(lib, Decimal(flagID) + ctx.entityID, Decimal(flagID') + ctx.entityID, b, c);
    RollsOutItsBucket(l, flagID, ctx, s);
    RollsOutItsBucket(l, flagID', ctx, s);
  }
}
