/** What putting and deleting a segment does to its flag, and to everybody's answer. */
module SegmentLife {
  import opened Words
  import opened Entities
  import opened Bucketing
  import opened Preparation
  import opened Evaluation
  import opened Tables
  import opened Database
  import opened Handlers
  import opened Integrity
  import opened Agreement
  import opened Frames
  import opened Ordering

  // ----- deleted -----

  predicate IsOther(id: nat, s: Segment) {
    s.id != id
  }

  lemma {:induction false} KillOneSegment(t: seq<Row<SegmentData>>, owner: nat, id: nat)
    ensures Children(Kill(t, {id}), owner, MakeSegment) == Keep(Children(t, owner, MakeSegment), s => IsOther(id, s))
  {
    if t != [] {
      var init, last := t[..|t| - 1], t[|t| - 1];
      assert Kill(t, {id})[..|t| - 1] == Kill(init, {id});
      KillOneSegment(init, owner, id);
      var before, s := Children(init, owner, MakeSegment), MakeSegment(|t|, last);
      if Visible(last, owner) {
        assert (before + [s])[..|before|] == before;
      } else {
        assert before + [] == before;
      }
      assert Children(Kill(init, {id}), owner, MakeSegment) + [] == Children(Kill(init, {id}), owner, MakeSegment);
    }
  }

  /** Afterwards every flag loads its segments but for the deleted one, in the same order. */
  lemma DeletedSegmentIsGone(lib: Library, db: DB, req: Request, flagID: nat)
    requires req.DeleteSegment?
    ensures SegmentRows(Step(lib, db, req), flagID)
            == Keep(SegmentRows(db, flagID), s => IsOther(req.segmentID, s))
  {
    FinishKeepsTables(EditOf(lib, db, req), req.flagID, req.subject);
    KillOneSegment(db.segments, flagID, req.segmentID);
    KeepSortBy(Children(db.segments, flagID, MakeSegment), RankOf, s => IsOther(req.segmentID, s));
  }

  lemma {:induction false} KeepFilled(db: DB, rows: seq<Segment>, id: nat)
    ensures FillAll(db, Keep(rows, s => IsOther(id, s))) == Keep(FillAll(db, rows), s => IsOther(id, s))
  {
    if rows != [] {
      var init, last := rows[..|rows| - 1], rows[|rows| - 1];
      KeepFilled(db, init, id);
      assert FillAll(db, rows)[..|rows| - 1] == FillAll(db, init);
      var kept := Keep(init, s => IsOther(id, s));
      assert FillAll(db, kept + [last]) == FillAll(db, kept) + [Fill(db, last)];
    }
  }

  function FillAll(db: DB, rows: seq<Segment>): (ss: seq<Segment>)
    ensures |ss| == |rows|
  {
    seq(|rows|, i requires 0 <= i < |rows| => Fill(db, rows[i]))
  }

  lemma LoadsFilled(db: DB, flagID: nat)
    ensures LoadSegments(db, flagID) == FillAll(db, SegmentRows(db, flagID))
  {
  }

  lemma DeletedSegmentLoads(lib: Library, db: DB, req: Request, flagID: nat)
    requires req.DeleteSegment?
    ensures LoadSegments(Step(lib, db, req), flagID)
            == Keep(LoadSegments(db, flagID), s => IsOther(req.segmentID, s))
  {
    var db' := Step(lib, db, req);
    DeletedSegmentIsGone(lib, db, req, flagID);
    LoadsFilled(db, flagID);
    LoadsFilled(db', flagID);
    KeepFilled(db, SegmentRows(db, flagID), req.segmentID);
    FinishKeepsTables(EditOf(lib, db, req), req.flagID, req.subject);
    assert FillAll(db', SegmentRows(db', flagID)) == FillAll(db, SegmentRows(db', flagID));
  }

  lemma {:induction false} KeepAll(ss: seq<Segment>, id: nat)
    requires forall i :: 0 <= i < |ss| ==> ss[i].id != id
    ensures Keep(ss, s => IsOther(id, s)) == ss
  {
    if ss != [] {
      KeepAll(ss[..|ss| - 1], id);
    }
  }

  lemma {:induction false} KeepBut(ss: seq<Segment>, id: nat, n: nat)
    requires n < |ss| && ss[n].id == id
    requires forall i :: 0 <= i < |ss| && i != n ==> ss[i].id != id
    ensures Keep(ss, s => IsOther(id, s)) == ss[..n] + ss[n + 1..]
  {
    var init := ss[..|ss| - 1];
    if n == |init| {
      KeepAll(init, id);
      assert ss[..n] + ss[n + 1..] == init;
    } else {
      KeepBut(init, id, n);
      assert ss[..n] + ss[n + 1..] == init[..n] + init[n + 1..] + [ss[|ss| - 1]];
    }
  }

  lemma SegmentIDsDiffer(db: DB, flagID: nat, i: nat, j: nat)
    requires i < j < |LoadSegments(db, flagID)|
    ensures LoadSegments(db, flagID)[i].id != LoadSegments(db, flagID)[j].id
  {
    var rows := SegmentRows(db, flagID);
    var ids := Children(db.segments, flagID, MakeSegment);
    DistinctSorted(ids);
    ChildrenAscend(db.segments, flagID, MakeSegment, SegmentIDOf);
    assert rows[i].id != rows[j].id;
  }

  lemma {:induction false} DistinctSorted(ss: seq<Segment>)
    ensures Ascending(ss, SegmentIDOf) ==>
              forall i, j :: 0 <= i < j < |ss| ==> SortBy(ss, RankOf)[i].id != SortBy(ss, RankOf)[j].id
  {
    if ss != [] && Ascending(ss, SegmentIDOf) {
      var init, last := ss[..|ss| - 1], ss[|ss| - 1];
      DistinctSorted(init);
      forall i | 0 <= i < |init|
        ensures SortBy(init, RankOf)[i].id != last.id
      {
        SortByElements(init, RankOf, SortBy(init, RankOf)[i]);
      }
      DistinctInserted(SortBy(init, RankOf), last);
    }
  }

  lemma {:induction false} DistinctInserted(ss: seq<Segment>, s: Segment)
    requires forall i, j :: 0 <= i < j < |ss| ==> ss[i].id != ss[j].id
    requires forall i :: 0 <= i < |ss| ==> ss[i].id != s.id
    ensures forall i, j :: 0 <= i < j < |Insert(ss, s, RankOf)| ==>
              Insert(ss, s, RankOf)[i].id != Insert(ss, s, RankOf)[j].id
  {
    if ss != [] && RankOf(ss[|ss| - 1]) > RankOf(s) {
      var init := ss[..|ss| - 1];
      DistinctInserted(init, s);
      forall i | 0 <= i < |Insert(init, s, RankOf)|
        ensures Insert(init, s, RankOf)[i].id != ss[|ss| - 1].id
      {
        InsertedElement(init, s, RankOf, Insert(init, s, RankOf)[i]);
      }
    }
  }

  // ----- who is affected -----

  /** Leaving out a segment that is not the first match changes no decision, as long as there is a first match. */
  lemma LeftOutSegmentDoesNotMatter(lib: Library, flagID: nat, ctx: EvalContext, ss: seq<Segment>, n: nat)
    requires n < |ss| && FirstMatch(lib, ctx, ss) < |ss| && FirstMatch(lib, ctx, ss) != n
    ensures var ts := ss[..n] + ss[n + 1..];
            ts != [] && Decide(lib, flagID, ctx, ts) == Decide(lib, flagID, ctx, ss)
  {
    var k, ts := FirstMatch(lib, ctx, ss), ss[..n] + ss[n + 1..];
    if k < n {
      assert ts[k] == ss[k];
      FirstMatchIs(lib, ctx, ts, k);
    } else {
      assert ts[k - 1] == ss[k];
      assert forall j :: 0 <= j < k - 1 ==> ts[j] == ss[if j < n then j else j + 1];
      FirstMatchIs(lib, ctx, ts, k - 1);
    }
  }

  lemma PreparedWithout(lib: Library, f: Flag, g: Flag, n: nat)
    requires n < |f.segments| && g.segments == f.segments[..n] + f.segments[n + 1..] && Preparable(lib, f)
    ensures Preparable(lib, g)
    ensures PreparedSegments(lib, g) == PreparedSegments(lib, f)[..n] + PreparedSegments(lib, f)[n + 1..]
  {
    forall i | 0 <= i < |g.segments|
      ensures SegmentEvaluationOf(lib, g.segments[i]).Some?
    {
      assert g.segments[i] == f.segments[if i < n then i else i + 1];
    }
  }

  lemma DeletionKeepsFlag(lib: Library, db: DB, req: Request, flagID: nat)
    requires req.DeleteSegment? && Exists(db.flags, flagID)
    ensures Exists(Step(lib, db, req).flags, flagID)
    ensures var f, g := Load(db, flagID), Load(Step(lib, db, req), flagID);
            g == f.(segments := g.segments, snapshotID := g.snapshotID, updatedBy := g.updatedBy)
  {
    FinishKeepsFlag(db, EditOf(lib, db, req), req.flagID, req.subject, flagID);
  }

  lemma WithoutSegment(lib: Library, f: Flag, g: Flag, id: nat, ctx: EvalContext, random: nat)
    requires g == f.(segments := g.segments, snapshotID := g.snapshotID, updatedBy := g.updatedBy)
    requires g.segments == Keep(f.segments, s => IsOther(id, s)) && Preparable(lib, f)
    requires forall i, j :: 0 <= i < j < |f.segments| ==> f.segments[i].id != f.segments[j].id
    ensures Preparable(lib, g)
    ensures var p, q := Prepare(lib, f).value, Prepare(lib, g).value;
            var k := FirstMatch(lib, FillContext(p, ctx, random), p.segments);
            k < |p.segments| && p.segments[k].id != id
            ==> SameAnswer(EvaluateFlag(lib, p, ctx, random), EvaluateFlag(lib, q, ctx, random))
  {
    var filled := FillContext(f, ctx, random);
    if n: nat :| n < |f.segments| && f.segments[n].id == id {
      KeepBut(f.segments, id, n);
      PreparedWithout(lib, f, g, n);
      var p, q := Prepare(lib, f).value, Prepare(lib, g).value;
      var k := FirstMatch(lib, filled, p.segments);
      if k < |p.segments| && p.segments[k].id != id {
        LeftOutSegmentDoesNotMatter(lib, p.id, filled, p.segments, n);
        SameDecisionSameAnswer(lib, p, q, ctx, random);
      }
    } else {
      KeepAll(f.segments, id);
      assert PreparedSegments(lib, g) == PreparedSegments(lib, f);
      var p, q := Prepare(lib, f).value, Prepare(lib, g).value;
      if p.segments != [] {
        SameDecisionSameAnswer(lib, p, q, ctx, random);
      }
    }
  }

  /** Deleting a segment concerns only the entities that it decided: whoever is decided by another segment, of
      whatever flag, keeps the whole answer. */
  lemma DeletionConcernsItsOwn(lib: Library, db: DB, req: Request, flagID: nat, ctx: EvalContext, random: nat)
    requires req.DeleteSegment? && Exists(db.flags, flagID) && Preparable(lib, Load(db, flagID))
    ensures Exists(Step(lib, db, req).flags, flagID) && Preparable(lib, Load(Step(lib, db, req), flagID))
    ensures var p := Prepare(lib, Load(db, flagID)).value;
            var q := Prepare(lib, Load(Step(lib, db, req), flagID)).value;
            var k := FirstMatch(lib, FillContext(p, ctx, random), p.segments);
            k < |p.segments| && p.segments[k].id != req.segmentID
            ==> SameAnswer(EvaluateFlag(lib, p, ctx, random), EvaluateFlag(lib, q, ctx, random))
  {
    DeletionKeepsFlag(lib, db, req, flagID);
    DeletedSegmentLoads(lib, db, req, flagID);
    forall i, j | 0 <= i < j < |LoadSegments(db, flagID)|
      ensures LoadSegments(db, flagID)[i].id != LoadSegments(db, flagID)[j].id
    {
      SegmentIDsDiffer(db, flagID, i, j);
    }
    WithoutSegment(lib, Load(db, flagID), Load(Step(lib, db, req), flagID), req.segmentID, ctx, random);
  }

  // ----- put -----

  /** The segment with the ID as the request describes it, every other as it is. */
  function Rewritten(s: Segment, req: Request): Segment
    requires req.PutSegment?
  {
    if s.id == req.segmentID then
      s.(description := req.description, rolloutPercent := SafeUint(req.rolloutPercent))
    else s
  }

  function RewriteAll(ss: seq<Segment>, req: Request): (ts: seq<Segment>)
    requires req.PutSegment?
    ensures |ts| == |ss|
  {
    seq(|ss|, i requires 0 <= i < |ss| => Rewritten(ss[i], req))
  }

  lemma {:induction false} RewriteInserted(ss: seq<Segment>, s: Segment, req: Request)
    requires req.PutSegment?
    ensures Insert(RewriteAll(ss, req), Rewritten(s, req), RankOf) == RewriteAll(Insert(ss, s, RankOf), req)
  {
    if ss != [] && RankOf(ss[|ss| - 1]) > RankOf(s) {
      var init := ss[..|ss| - 1];
      RewriteInserted(init, s, req);
      assert RewriteAll(ss, req)[..|ss| - 1] == RewriteAll(init, req);
    }
  }

  lemma {:induction false} RewriteSorted(ss: seq<Segment>, req: Request)
    requires req.PutSegment?
    ensures SortBy(RewriteAll(ss, req), RankOf) == RewriteAll(SortBy(ss, RankOf), req)
  {
    if ss != [] {
      var init := ss[..|ss| - 1];
      RewriteSorted(init, req);
      assert RewriteAll(ss, req)[..|ss| - 1] == RewriteAll(init, req);
      RewriteInserted(SortBy(init, RankOf), ss[|ss| - 1], req);
    }
  }

  function RewriteRows(t: seq<Row<SegmentData>>, req: Request): (t': seq<Row<SegmentData>>)
    requires req.PutSegment?
    ensures |t'| == |t|
  {
    seq(|t|, i requires 0 <= i < |t| =>
      if i + 1 == req.segmentID then
        t[i].(data := t[i].data.(rolloutPercent := SafeUint(req.rolloutPercent), description := req.description))
      else t[i])
  }

  lemma {:induction false} RewriteChildren(t: seq<Row<SegmentData>>, owner: nat, req: Request)
    requires req.PutSegment?
    ensures Children(RewriteRows(t, req), owner, MakeSegment) == RewriteAll(Children(t, owner, MakeSegment), req)
  {
    if t != [] {
      var init := t[..|t| - 1];
      RewriteChildren(init, owner, req);
      assert RewriteRows(t, req)[..|t| - 1] == RewriteRows(init, req);
    }
  }

  /** After an accepted request every flag loads its segments as before, in the same order, the one with the ID
      as the request describes it; a request for a segment that is not live leaves no trace. */
  lemma PutSegmentWrites(lib: Library, db: DB, req: Request, flagID: nat)
    requires req.PutSegment?
    ensures !Live(db.segments, req.segmentID) ==> Step(lib, db, req) == db
    ensures Live(db.segments, req.segmentID) ==>
              LoadSegments(Step(lib, db, req), flagID) == RewriteAll(LoadSegments(db, flagID), req)
  {
    if Live(db.segments, req.segmentID) {
      var db' := Step(lib, db, req);
      FinishKeepsTables(EditOf(lib, db, req), req.flagID, req.subject);
      assert db'.segments == RewriteRows(db.segments, req);
      RewriteChildren(db.segments, flagID, req);
      RewriteSorted(Children(db.segments, flagID, MakeSegment), req);
      assert SegmentRows(db', flagID) == RewriteAll(SegmentRows(db, flagID), req);
    }
  }

  lemma RewrittenPrepares(lib: Library, f: Flag, g: Flag, req: Request)
    requires req.PutSegment? && g.segments == RewriteAll(f.segments, req)
    ensures Preparable(lib, g) <==> Preparable(lib, f)
    ensures Preparable(lib, f) ==> PreparedSegments(lib, g) == RewriteAll(PreparedSegments(lib, f), req)
  {
    forall i | 0 <= i < |f.segments|
      ensures SegmentEvaluationOf(lib, g.segments[i]) == SegmentEvaluationOf(lib, f.segments[i])
    {
    }
  }

  /** No smaller rollout percentage than the segment has. */
  predicate Raises(s: Segment, req: Request)
    requires req.PutSegment?
  {
    s.id == req.segmentID ==> s.rolloutPercent <= req.rolloutPercent
  }

  lemma ReachedFits(ds: seq<Distribution>, rolloutPercent: nat)
    requires Sum(ds) <= 200 && rolloutPercent <= 100
    ensures FitsWord(ds, rolloutPercent)
  {
    var total := 10 * Sum(ds);
    assert total * rolloutPercent <= 2000 * 100 by {
      MulGrows(total, rolloutPercent, 100);
      assert total * 100 <= 2000 * 100;
    }
  }

  lemma RaisedRollout(lib: Library, flagID: nat, ctx: EvalContext, s: Segment, req: Request)
    requires req.PutSegment? && InBounds(req) && Raises(s, req)
    requires s.evaluation.distributionArray == ArrayOf(s.distributions)
    requires Sum(s.distributions) <= 200 && s.rolloutPercent <= 100
    ensures RolloutOf(lib, flagID, ctx, s).Assigned?
            ==> RolloutOf(lib, flagID, ctx, Rewritten(s, req)) == RolloutOf(lib, flagID, ctx, s)
  {
    if s.id == req.segmentID {
      ReachedFits(s.distributions, s.rolloutPercent);
      ReachedFits(s.distributions, req.rolloutPercent);
      RolloutMonotone(lib, s.distributions, ctx.entityID, Text.Decimal(flagID), s.rolloutPercent, req.rolloutPercent);
    }
  }

  lemma LoadedReaches(db: DB, flagID: nat, i: nat)
    requires SumsReach(db) && RolloutsBounded(db) && i < |LoadSegments(db, flagID)|
    ensures Sum(LoadSegments(db, flagID)[i].distributions) <= 200 && LoadSegments(db, flagID)[i].rolloutPercent <= 100
  {
    LoadedSegment(db, flagID, i);
    LoadedSum(db, LoadSegments(db, flagID)[i].id);
  }

  /** The same segment decides, and assigns what it assigned before. */
  lemma RaisedDecision(lib: Library, flagID: nat, ctx: EvalContext, ss: seq<Segment>, req: Request)
    requires req.PutSegment? && InBounds(req) && ss != []
    requires forall i :: 0 <= i < |ss| ==>
               && Raises(ss[i], req) && ss[i].evaluation.distributionArray == ArrayOf(ss[i].distributions)
               && Sum(ss[i].distributions) <= 200 && ss[i].rolloutPercent <= 100
    ensures var before, after := Decide(lib, flagID, ctx, ss), Decide(lib, flagID, ctx, RewriteAll(ss, req));
            && after.segmentID == before.segmentID
            && (before.outcome.Assigned? ==> after == before)
  {
    var k, ts := FirstMatch(lib, ctx, ss), RewriteAll(ss, req);
    assert forall i :: 0 <= i < |ss| ==> Matches(lib, ctx, ts[i]) == Matches(lib, ctx, ss[i]);
    FirstMatchIs(lib, ctx, ts, k);
    if k < |ss| {
      RaisedRollout(lib, flagID, ctx, ss[k], req);
    }
  }

  lemma PutKeepsFlag(lib: Library, db: DB, req: Request, flagID: nat)
    requires req.PutSegment? && Exists(db.flags, flagID)
    ensures Exists(Step(lib, db, req).flags, flagID)
    ensures var f, g := Load(db, flagID), Load(Step(lib, db, req), flagID);
            g == f.(segments := g.segments, snapshotID := g.snapshotID, updatedBy := g.updatedBy)
  {
    FinishKeepsFlag(db, EditOf(lib, db, req), req.flagID, req.subject, flagID);
  }

  lemma RaisedAnswer(lib: Library, p: Flag, q: Flag, req: Request, ctx: EvalContext, random: nat)
    requires req.PutSegment? && InBounds(req) && q.segments == RewriteAll(p.segments, req)
    requires q == p.(segments := q.segments, snapshotID := q.snapshotID, updatedBy := q.updatedBy)
    requires forall i :: 0 <= i < |p.segments| ==>
               && Raises(p.segments[i], req)
               && p.segments[i].evaluation.distributionArray == ArrayOf(p.segments[i].distributions)
               && Sum(p.segments[i].distributions) <= 200 && p.segments[i].rolloutPercent <= 100
    ensures var e := EvaluateFlag(lib, p, ctx, random);
            e.Evaluated? && e.result.variantID != 0 ==> SameAnswer(e, EvaluateFlag(lib, q, ctx, random))
  {
    if p.enabled && p.segments != [] {
      var filled := FillContext(p, ctx, random);
      RaisedDecision(lib, p.id, filled, p.segments, req);
      if Decide(lib, p.id, filled, p.segments).outcome.Assigned? {
        SameDecisionSameAnswer(lib, p, q, ctx, random);
      } else if EvaluateFlag(lib, p, ctx, random).Evaluated? {
        assert EvaluateFlag(lib, p, ctx, random).result.variantID == 0;
      }
    }
  }

  /** Raising the rollout percentage of a segment takes nobody's variant away: after any requests in bounds and
      one that raises it, everybody who was assigned a variant of whatever flag keeps the whole answer. */
  lemma RaisingTakesNothingAway(lib: Library, reqs: seq<Request>, req: Request, flagID: nat,
                                ctx: EvalContext, random: nat)
    requires AllInBounds(reqs) && req.PutSegment? && InBounds(req)
    requires Exists(Execute(lib, reqs).flags, flagID)
    requires forall i :: 0 <= i < |LoadSegments(Execute(lib, reqs), flagID)| ==>
               Raises(LoadSegments(Execute(lib, reqs), flagID)[i], req)
    requires Prepare(lib, Load(Execute(lib, reqs), flagID)).Some?
    ensures var db := Execute(lib, reqs);
            var db' := Step(lib, db, req);
            && Exists(db'.flags, flagID) && Prepare(lib, Load(db', flagID)).Some?
            && var e := EvaluateFlag(lib, Prepare(lib, Load(db, flagID)).value, ctx, random);
               e.Evaluated? && e.result.variantID != 0
               ==> SameAnswer(e, EvaluateFlag(lib, Prepare(lib, Load(db', flagID)).value, ctx, random))
  {
    var db := Execute(lib, reqs);
    var db' := Step(lib, db, req);
    ExecuteKeepsSumsReach(lib, reqs);
    PutKeepsFlag(lib, db, req, flagID);
    PutSegmentWrites(lib, db, req, flagID);
    if Live(db.segments, req.segmentID) {
      RewrittenPrepares(lib, Load(db, flagID), Load(db', flagID), req);
      forall i | 0 <= i < |LoadSegments(db, flagID)|
        ensures Sum(LoadSegments(db, flagID)[i].distributions) <= 200
        ensures LoadSegments(db, flagID)[i].rolloutPercent <= 100
      {
        LoadedReaches(db, flagID, i);
      }
      var p, q := Prepare(lib, Load(db, flagID)).value, Prepare(lib, Load(db', flagID)).value;
      RaisedAnswer(lib, p, q, req, ctx, random);
    }
  }
}
