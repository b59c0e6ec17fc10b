/** The constraints of segments: what is stored always prepares, and editing one constraint
    narrows, replaces or widens who matches its segment. */
module Constraints {
  import opened Entities
  import opened Preparation
  import opened Evaluation
  import opened Tables
  import opened Database
  import opened Handlers
  import opened Integrity

  // ----- stored constraints are valid -----

  /** Every live constraint parses on its own. */
  ghost predicate ConstraintsValid(lib: Library, db: DB) {
    forall i :: 0 <= i < |db.constraints| && db.constraints[i].live ==> ValidConstraint(lib, db.constraints[i].data)
  }

  predicate KeepsConstraints(req: Request) {
    !req.CreateConstraint? && !req.PutConstraint? && !req.DeleteConstraint?
  }

  lemma OthersKeepConstraints(lib: Library, db: DB, req: Request)
    requires KeepsConstraints(req)
    ensures Result(EditOf(lib, db, req)).constraints == db.constraints
  {
  }

  lemma StepKeepsConstraintsValid(lib: Library, db: DB, req: Request)
    requires ConstraintsValid(lib, db)
    ensures ConstraintsValid(lib, Step(lib, db, req))
  {
    FinishKeepsTables(EditOf(lib, db, req), FlagOf(db, req), SubjectOf(req));
    if KeepsConstraints(req) {
      OthersKeepConstraints(lib, db, req);
    }
  }

  lemma {:induction false} ExecuteKeepsConstraintsValid(lib: Library, reqs: seq<Request>)
    ensures ConstraintsValid(lib, Execute(lib, reqs))
  {
    if reqs != [] {
      ExecuteKeepsConstraintsValid(lib, reqs[..|reqs| - 1]);
      StepKeepsConstraintsValid(lib, Execute(lib, reqs[..|reqs| - 1]), reqs[|reqs| - 1]);
    }
  }

  /** The operators of the API. */
  const OPERATORS: set<string> := {"EQ", "NEQ", "LT", "LTE", "GT", "GTE", "EREG", "NEREG", "IN", "NOTIN",
                                   "CONTAINS", "NOTCONTAINS"}

  /** A constraint that misses a part, or has another operator, or does not parse, is refused without a trace. */
  lemma InvalidConstraintIsRefused(lib: Library, db: DB, req: Request)
    requires req.CreateConstraint? || req.PutConstraint?
    requires var c := req.constraint;
             || c.property == "" || c.value == "" || c.operator !in OPERATORS
             || (ExprString(c.property, c.operator, c.value).Some?
                 && !lib.parses(ExprString(c.property, c.operator, c.value).value))
    ensures EditOf(lib, db, req).Refused? && Step(lib, db, req) == db
  {
    var c := req.constraint;
    assert c.operator !in OPERATORS ==> OperatorToExpr(c.operator) == None;
  }

  /** The expression that negates the comparison of another. */
  function Negated(e: string): string
    requires e != ""
  {
    if e[0] == '=' then "!" + e[1..] else "NOT " + e
  }

  /** Exactly these operators have an expression, and no two have the same. */
  lemma OperatorsKeepApart(o: string, o': string)
    ensures o in OPERATORS <==> OperatorToExpr(o).Some?
    ensures o in OPERATORS && OperatorToExpr(o) == OperatorToExpr(o') ==> o == o'
  {
  }

  /** Opposite operators have opposite expressions, and the two that include equality say so. */
  lemma OppositeOperators()
    ensures OperatorToExpr("NEQ") == Some(Negated(OperatorToExpr("EQ").value))
    ensures OperatorToExpr("NEREG") == Some(Negated(OperatorToExpr("EREG").value))
    ensures OperatorToExpr("NOTIN") == Some(Negated(OperatorToExpr("IN").value))
    ensures OperatorToExpr("NOTCONTAINS") == Some(Negated(OperatorToExpr("CONTAINS").value))
    ensures OperatorToExpr("LTE") == Some(OperatorToExpr("LT").value + "=")
    ensures OperatorToExpr("GTE") == Some(OperatorToExpr("GT").value + "=")
  {
    assert Negated("==") == "!=" && Negated("=~") == "!~";
    assert Negated("IN") == "NOT IN" && Negated("CONTAINS") == "NOT CONTAINS";
    assert "<" + "=" == "<=" && ">" + "=" == ">=";
  }

  // ----- so loaded flags prepare -----

  function DataOf(c: Constraint): ConstraintData {
    ConstraintData(c.property, c.operator, c.value)
  }

  predicate AllValid(lib: Library, cs: seq<Constraint>) {
    forall i :: 0 <= i < |cs| ==> ValidConstraint(lib, DataOf(cs[i]))
  }

  lemma LoadedConstraintsAreValid(lib: Library, db: DB, segmentID: nat)
    requires ConstraintsValid(lib, db)
    ensures AllValid(lib, LoadConstraints(db, segmentID))
  {
    var cs := LoadConstraints(db, segmentID);
    forall i | 0 <= i < |cs|
      ensures ValidConstraint(lib, DataOf(cs[i]))
    {
      var id := ChildRow(db.constraints, segmentID, MakeConstraint, cs[i]);
    }
  }

  /** The parser accepts two expressions joined by AND if it accepts each. */
  ghost predicate JoinsParse(lib: Library) {
    forall s, e :: lib.parses(s) && lib.parses(e) ==> lib.parses(s + " AND " + e)
  }

  lemma {:induction false} ValidConstraintsJoin(lib: Library, cs: seq<Constraint>)
    requires AllValid(lib, cs)
    ensures JoinExprs(cs).Some?
    ensures cs != [] && JoinsParse(lib) ==> lib.parses(JoinExprs(cs).value)
  {
    if cs != [] {
      assert ValidConstraint(lib, DataOf(cs[|cs| - 1]));
      ValidConstraintsJoin(lib, cs[..|cs| - 1]);
    }
  }

  /** Whatever was edited, a flag fails to prepare only where a segment's constraints, each of which
      parses, do not parse when joined. */
  lemma PreparesExactly(lib: Library, reqs: seq<Request>, flagID: nat)
    requires Exists(Execute(lib, reqs).flags, flagID)
    ensures var f := Load(Execute(lib, reqs), flagID);
            && (forall i :: 0 <= i < |f.segments| ==> JoinExprs(f.segments[i].constraints).Some?)
            && (Preparable(lib, f) <==> forall i :: 0 <= i < |f.segments| && f.segments[i].constraints != [] ==>
                  lib.parses(JoinExprs(f.segments[i].constraints).value))
  {
    var db := Execute(lib, reqs);
    var f := Load(db, flagID);
    ExecuteKeepsConstraintsValid(lib, reqs);
    forall i | 0 <= i < |f.segments|
      ensures JoinExprs(f.segments[i].constraints).Some?
      ensures SegmentEvaluationOf(lib, f.segments[i]).Some?
              <==> f.segments[i].constraints == [] || lib.parses(JoinExprs(f.segments[i].constraints).value)
    {
      LoadedSegment(db, flagID, i);
      LoadedConstraintsAreValid(lib, db, f.segments[i].id);
      ValidConstraintsJoin(lib, f.segments[i].constraints);
    }
  }

  /** With a parser that accepts what it accepts when joined, every flag prepares after any requests. */
  lemma EveryFlagPrepares(lib: Library, reqs: seq<Request>, flagID: nat)
    requires JoinsParse(lib) && Exists(Execute(lib, reqs).flags, flagID)
    ensures Prepare(lib, Load(Execute(lib, reqs), flagID)).Some?
  {
    var db := Execute(lib, reqs);
    var f := Load(db, flagID);
    ExecuteKeepsConstraintsValid(lib, reqs);
    PreparesExactly(lib, reqs, flagID);
    forall i | 0 <= i < |f.segments| && f.segments[i].constraints != []
      ensures lib.parses(JoinExprs(f.segments[i].constraints).value)
    {
      LoadedSegment(db, flagID, i);
      LoadedConstraintsAreValid(lib, db, f.segments[i].id);
      ValidConstraintsJoin(lib, f.segments[i].constraints);
    }
  }

  // ----- who matches -----

  /** The entity satisfies the constraint taken alone. */
  predicate Satisfies(lib: Library, ctx: EvalContext, c: ConstraintData) {
    && ctx.entityContext.Object?
    && ExprString(c.property, c.operator, c.value).Some?
    && lib.evaluate(ExprString(c.property, c.operator, c.value).value, ctx.entityContext.fields) == Match
  }

  predicate SatisfiesAll(lib: Library, ctx: EvalContext, cs: seq<Constraint>) {
    forall c :: c in cs ==> Satisfies(lib, ctx, DataOf(c))
  }

  /** The evaluator reads the expression joined with the constraint as a conjunction. */
  ghost predicate ReadsAsAnd(lib: Library, s: string, c: ConstraintData) {
    match ExprString(c.property, c.operator, c.value)
    case None => true
    case Some(e) =>
      forall fields ::
        lib.evaluate(s + " AND " + e, fields) == Match
        <==> lib.evaluate(s, fields) == Match && lib.evaluate(e, fields) == Match
  }

  /** It does so with every further constraint of the list. */
  ghost predicate ReadsAsConjunction(lib: Library, cs: seq<Constraint>) {
    forall n :: 1 <= n < |cs| && JoinExprs(cs[..n]).Some? ==> ReadsAsAnd(lib, JoinExprs(cs[..n]).value, DataOf(cs[n]))
  }

  /** The joined expression of a list that ends in `c`: its own one alone, or behind AND. */
  predicate JoinsTo(before: seq<Constraint>, c: Constraint, s: string) {
    match (JoinExprs(before), ExprString(c.property, c.operator, c.value))
    case (Some(first), Some(e)) => s == if before == [] then e else first + " AND " + e
    case _ => false
  }

  lemma JoinStep(before: seq<Constraint>, c: Constraint, s: string)
    requires JoinExprs(before + [c]) == Some(s)
    ensures JoinsTo(before, c, s)
  {
    assert (before + [c])[..|before|] == before;
  }

  lemma LastJoin(lib: Library, before: seq<Constraint>, c: Constraint, s: string, ctx: EvalContext)
    requires JoinsTo(before, c, s) && ctx.entityContext.Object?
    requires before != [] ==> ReadsAsAnd(lib, JoinExprs(before).value, DataOf(c))
    ensures lib.evaluate(s, ctx.entityContext.fields) == Match
            <==> && (before != [] ==> lib.evaluate(JoinExprs(before).value, ctx.entityContext.fields) == Match)
                 && Satisfies(lib, ctx, DataOf(c))
  {
  }

  lemma {:induction false} JoinMeansAll(lib: Library, cs: seq<Constraint>, ctx: EvalContext, s: string)
    requires cs != [] && ReadsAsConjunction(lib, cs) && ctx.entityContext.Object? && JoinExprs(cs) == Some(s)
    ensures lib.evaluate(s, ctx.entityContext.fields) == Match <==> SatisfiesAll(lib, ctx, cs)
  {
    var before, c := cs[..|cs| - 1], cs[|cs| - 1];
    assert cs == before + [c];
    JoinStep(before, c, s);
    if before != [] {
      PrefixReads(lib, cs);
      JoinMeansAll(lib, before, ctx, JoinExprs(before).value);
    }
    LastJoin(lib, before, c, s, ctx);
    SatisfiesOneMore(lib, ctx, before, c);
  }

  lemma PrefixReads(lib: Library, cs: seq<Constraint>)
    requires cs != [] && ReadsAsConjunction(lib, cs)
    ensures ReadsAsConjunction(lib, cs[..|cs| - 1])
    ensures var before := cs[..|cs| - 1];
            before != [] && JoinExprs(before).Some? ==>
              ReadsAsAnd(lib, JoinExprs(before).value, DataOf(cs[|cs| - 1]))
  {
    var before := cs[..|cs| - 1];
    assert forall n :: 0 <= n <= |before| ==> before[..n] == cs[..n];
  }

  lemma SatisfiesOneMore(lib: Library, ctx: EvalContext, cs: seq<Constraint>, c: Constraint)
    ensures SatisfiesAll(lib, ctx, cs + [c]) <==> SatisfiesAll(lib, ctx, cs) && Satisfies(lib, ctx, DataOf(c))
  {
    assert forall x :: x in cs + [c] <==> x in cs || x == c;
  }

  /** What the segment rule promises: an entity matches a prepared segment if and only if it satisfies
      each of the constraints, whether its context is an object or not and whether there are any. */
  lemma MatchesEveryConstraint(lib: Library, s: Segment, ctx: EvalContext)
    requires SegmentEvaluationOf(lib, s).Some? && ReadsAsConjunction(lib, s.constraints)
    ensures Matches(lib, ctx, s.(evaluation := SegmentEvaluationOf(lib, s).value))
            <==> SatisfiesAll(lib, ctx, s.constraints)
  {
    var cs := s.constraints;
    if cs != [] {
      if ctx.entityContext.Object? {
        JoinMeansAll(lib, cs, ctx, JoinExprs(cs).value);
      } else {
        assert cs[0] in cs && !Satisfies(lib, ctx, DataOf(cs[0]));
      }
    }
  }

  // ----- one constraint more, another or one less -----

  /** The segment as it is loaded and prepared from the tables. */
  function SegmentIn(db: DB, segmentID: nat): Segment
    requires Exists(db.segments, segmentID)
  {
    Fill(db, MakeSegment(segmentID, db.segments[segmentID - 1]))
  }

  /** The segment prepares, and its expression is read as the conjunction it is meant to be. */
  ghost predicate Readable(lib: Library, db: DB, segmentID: nat)
    requires Exists(db.segments, segmentID)
  {
    SegmentEvaluationOf(lib, SegmentIn(db, segmentID)).Some? && ReadsAsConjunction(lib, LoadConstraints(db, segmentID))
  }

  predicate MatchesIn(lib: Library, db: DB, segmentID: nat, ctx: EvalContext)
    requires Exists(db.segments, segmentID) && SegmentEvaluationOf(lib, SegmentIn(db, segmentID)).Some?
  {
    var s := SegmentIn(db, segmentID);
    Matches(lib, ctx, s.(evaluation := SegmentEvaluationOf(lib, s).value))
  }

  lemma ConstraintLoaded(db: DB, segmentID: nat, c: Constraint)
    ensures c in LoadConstraints(db, segmentID)
            <==> && Live(db.constraints, c.id) && Owned(db.constraints, c.id, segmentID)
                 && c == MakeConstraint(c.id, db.constraints[c.id - 1])
  {
    if c in LoadConstraints(db, segmentID) {
      var id := ChildRow(db.constraints, segmentID, MakeConstraint, c);
    } else if Live(db.constraints, c.id) && Owned(db.constraints, c.id, segmentID) {
      RowChild(db.constraints, segmentID, MakeConstraint, c.id);
    }
  }

  lemma ConstraintEditKeepsSegments(lib: Library, db: DB, req: Request)
    requires !KeepsConstraints(req)
    ensures Step(lib, db, req).segments == db.segments
    ensures Step(lib, db, req).constraints == EditOf(lib, db, req).db.constraints
  {
    FinishKeepsTables(EditOf(lib, db, req), req.flagID, req.subject);
  }

  /** Creating a constraint narrows its segment to the entities that satisfy the constraint as well,
      and leaves every other segment alone. */
  lemma CreatedConstraintNarrows(lib: Library, db: DB, req: Request, segmentID: nat, ctx: EvalContext)
    requires req.CreateConstraint? && ValidConstraint(lib, req.constraint) && Exists(db.segments, segmentID)
    requires Exists(Step(lib, db, req).segments, segmentID)
    requires Readable(lib, db, segmentID) && Readable(lib, Step(lib, db, req), segmentID)
    ensures MatchesIn(lib, Step(lib, db, req), segmentID, ctx)
            <==> && MatchesIn(lib, db, segmentID, ctx)
                 && (segmentID == req.segmentID ==> Satisfies(lib, ctx, req.constraint))
  {
    var db', row := Step(lib, db, req), Row(req.segmentID, true, req.constraint);
    ConstraintEditKeepsSegments(lib, db, req);
    ChildrenAppend(db.constraints, row, segmentID, MakeConstraint);
    MatchesEveryConstraint(lib, SegmentIn(db, segmentID), ctx);
    MatchesEveryConstraint(lib, SegmentIn(db', segmentID), ctx);
    if segmentID == req.segmentID {
      SatisfiesOneMore(lib, ctx, LoadConstraints(db, segmentID), MakeConstraint(|db.constraints| + 1, row));
    } else {
      assert LoadConstraints(db', segmentID) == LoadConstraints(db, segmentID);
    }
  }

  /** The entity satisfies every constraint of the segment but the one with the ID. */
  ghost predicate SatisfiesOthers(lib: Library, ctx: EvalContext, db: DB, segmentID: nat, id: nat) {
    forall c :: c in LoadConstraints(db, segmentID) && c.id != id ==> Satisfies(lib, ctx, DataOf(c))
  }

  /** Deleting a constraint widens its segment: afterwards it matches who satisfies the others. */
  lemma DeletedConstraintWidens(lib: Library, db: DB, req: Request, segmentID: nat, ctx: EvalContext)
    requires req.DeleteConstraint? && Exists(db.segments, segmentID) && Exists(Step(lib, db, req).segments, segmentID)
    requires Readable(lib, db, segmentID) && Readable(lib, Step(lib, db, req), segmentID)
    ensures MatchesIn(lib, Step(lib, db, req), segmentID, ctx)
            <==> SatisfiesOthers(lib, ctx, db, segmentID, req.constraintID)
    ensures MatchesIn(lib, db, segmentID, ctx) ==> MatchesIn(lib, Step(lib, db, req), segmentID, ctx)
  {
    var db' := Step(lib, db, req);
    ConstraintEditKeepsSegments(lib, db, req);
    MatchesEveryConstraint(lib, SegmentIn(db, segmentID), ctx);
    MatchesEveryConstraint(lib, SegmentIn(db', segmentID), ctx);
    forall c
      ensures c in LoadConstraints(db', segmentID) <==> c in LoadConstraints(db, segmentID) && c.id != req.constraintID
    {
      ConstraintLoaded(db, segmentID, c);
      ConstraintLoaded(db', segmentID, c);
    }
  }

  /** Putting a constraint replaces it: its segment matches who satisfies the others and the new one. */
  lemma PutConstraintReplaces(lib: Library, db: DB, req: Request, segmentID: nat, ctx: EvalContext)
    requires req.PutConstraint? && Live(db.constraints, req.constraintID) && ValidConstraint(lib, req.constraint)
    requires Exists(db.segments, segmentID) && Exists(Step(lib, db, req).segments, segmentID)
    requires Readable(lib, db, segmentID) && Readable(lib, Step(lib, db, req), segmentID)
    ensures MatchesIn(lib, Step(lib, db, req), segmentID, ctx)
            <==> && SatisfiesOthers(lib, ctx, db, segmentID, req.constraintID)
                 && (Owned(db.constraints, req.constraintID, segmentID) ==> Satisfies(lib, ctx, req.constraint))
  {
    var db' := Step(lib, db, req);
    ConstraintEditKeepsSegments(lib, db, req);
    MatchesEveryConstraint(lib, SegmentIn(db', segmentID), ctx);
    var put := MakeConstraint(req.constraintID, db'.constraints[req.constraintID - 1]);
    forall c
      ensures c in LoadConstraints(db', segmentID)
              <==> || (c in LoadConstraints(db, segmentID) && c.id != req.constraintID)
                   || (c == put && Owned(db.constraints, req.constraintID, segmentID))
    {
      ConstraintLoaded(db, segmentID, c);
      ConstraintLoaded(db', segmentID, c);
    }
  }

  lemma ConstraintEditKeepsTables(lib: Library, db: DB, req: Request)
    requires !KeepsConstraints(req)
    ensures var db' := Step(lib, db, req);
            && db'.segments == db.segments && db'.distributions == db.distributions && db'.variants == db.variants
            && db'.tags == db.tags && db'.flagTags == db.flagTags
  {
    FinishKeepsTables(EditOf(lib, db, req), req.flagID, req.subject);
  }

  /** The flag row keeps everything but the snapshot and the updater, and those too unless it is in the path. */
  ghost predicate SameFlagBut(db: DB, db': DB, flagID: nat, snapshotted: nat)
    requires Exists(db.flags, flagID)
  {
    && Exists(db'.flags, flagID)
    && var r, r' := db.flags[flagID - 1], db'.flags[flagID - 1];
       r' == r.(snapshotID := r'.snapshotID, updatedBy := r'.updatedBy) && (flagID != snapshotted ==> r' == r)
  }

  lemma SnapshotKeepsFlags(db: DB, snapshotted: nat, subject: string, flagID: nat)
    requires Exists(db.flags, flagID)
    ensures SameFlagBut(db, SaveFlagSnapshot(db, snapshotted, subject), flagID, snapshotted)
  {
  }

  lemma ConstraintEditKeepsFlagColumn(lib: Library, db: DB, req: Request)
    requires !KeepsConstraints(req)
    ensures EditOf(lib, db, req).db.flags == db.flags
  {
  }

  lemma ConstraintEditKeepsFlags(lib: Library, db: DB, req: Request, flagID: nat)
    requires !KeepsConstraints(req) && Exists(db.flags, flagID)
    ensures SameFlagBut(db, Step(lib, db, req), flagID, req.flagID)
  {
    var edited := EditOf(lib, db, req).db;
    ConstraintEditKeepsFlagColumn(lib, db, req);
    SnapshotKeepsFlags(edited, req.flagID, req.subject, flagID);
    assert SameFlagBut(edited, edited, flagID, req.flagID);
  }

  /** Deleting undoes creating: every flag loads as it did, but for the snapshots of the flag in the path. */
  lemma DeleteUndoesCreate(lib: Library, db: DB, req: Request, subject: string, flagID: nat)
    requires req.CreateConstraint? && ValidConstraint(lib, req.constraint) && Exists(db.flags, flagID)
    ensures var db' := Step(lib, Step(lib, db, req), DeleteConstraint(req.flagID, |db.constraints| + 1, subject));
            && SameFlagBut(db, db', flagID, req.flagID)
            && Load(db', flagID) == Load(db, flagID).(snapshotID := db'.flags[flagID - 1].snapshotID,
                                                      updatedBy := db'.flags[flagID - 1].updatedBy)
  {
    var created, undo := Step(lib, db, req), DeleteConstraint(req.flagID, |db.constraints| + 1, subject);
    var db' := Step(lib, created, undo);
    ConstraintEditKeepsTables(lib, db, req);
    ConstraintEditKeepsTables(lib, created, undo);
    ConstraintEditKeepsFlags(lib, db, req, flagID);
    ConstraintEditKeepsFlags(lib, created, undo, flagID);
    CreatedAndDeletedRows(lib, db, req, subject);
    SameConstraintsSameSegments(db, db', flagID);
  }

  lemma CreatedAndDeletedRows(lib: Library, db: DB, req: Request, subject: string)
    requires req.CreateConstraint? && ValidConstraint(lib, req.constraint)
    ensures Step(lib, Step(lib, db, req), DeleteConstraint(req.flagID, |db.constraints| + 1, subject)).constraints
            == db.constraints + [Row(req.segmentID, false, req.constraint)]
  {
    var created, undo := Step(lib, db, req), DeleteConstraint(req.flagID, |db.constraints| + 1, subject);
    ConstraintEditKeepsSegments(lib, db, req);
    ConstraintEditKeepsSegments(lib, created, undo);
  }

  lemma SameConstraintsSameSegments(db: DB, db': DB, flagID: nat)
    requires db'.segments == db.segments && db'.distributions == db.distributions
    requires forall owner: nat :: SameFor(db.constraints, db'.constraints, owner)
    ensures LoadSegments(db', flagID) == LoadSegments(db, flagID)
  {
    assert SegmentRows(db', flagID) == SegmentRows(db, flagID);
    forall i | 0 <= i < |SegmentRows(db, flagID)|
      ensures LoadSegments(db', flagID)[i] == LoadSegments(db, flagID)[i]
    {
      ChildrenSame(db.constraints, db'.constraints, SegmentRows(db, flagID)[i].id, MakeConstraint);
    }
  }
}
