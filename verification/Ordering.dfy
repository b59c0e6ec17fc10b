/** The order of a flag's segments: new segments come last, and a reorder request is obeyed. */
module Ordering {
  import opened Words
  import opened Entities
  import opened Preparation
  import opened Evaluation
  import opened Tables
  import opened Database
  import opened Handlers
  import opened Integrity

  // ----- ranks -----

  ghost predicate RanksBounded(db: DB) {
    forall i :: 0 <= i < |db.segments| ==> db.segments[i].data.rank <= SEGMENT_DEFAULT_RANK
  }

  /** A reorder request lists at most 1000 IDs. */
  predicate ShortReorder(req: Request) {
    req.PutSegmentsReorder? ==> |req.segmentIDs| <= SEGMENT_DEFAULT_RANK + 1
  }

  lemma EditKeepsRanks(lib: Library, db: DB, req: Request)
    requires RanksBounded(db) && ShortReorder(req)
    ensures RanksBounded(Result(EditOf(lib, db, req)))
  {
    if KeepsSegments(req) {
      OthersKeepSegments(lib, db, req);
    }
  }

  lemma StepKeepsRanks(lib: Library, db: DB, req: Request)
    requires RanksBounded(db) && ShortReorder(req)
    ensures RanksBounded(Step(lib, db, req))
  {
    EditKeepsRanks(lib, db, req);
    FinishKeepsTables(EditOf(lib, db, req), FlagOf(db, req), SubjectOf(req));
  }

  lemma {:induction false} ExecuteKeepsRanks(lib: Library, reqs: seq<Request>)
    requires forall i :: 0 <= i < |reqs| ==> ShortReorder(reqs[i])
    ensures RanksBounded(Execute(lib, reqs))
  {
    if reqs != [] {
      ExecuteKeepsRanks(lib, reqs[..|reqs| - 1]);
      StepKeepsRanks(lib, Execute(lib, reqs[..|reqs| - 1]), reqs[|reqs| - 1]);
    }
  }

  /** The segments of a flag are loaded by rank, and by ID within a rank. */
  lemma LoadOrder(db: DB, flagID: nat)
    ensures Ordered(SegmentRows(db, flagID), RankOf, SegmentIDOf)
  {
    ChildrenAscend(db.segments, flagID, MakeSegment, SegmentIDOf);
    SortByOrdered(Children(db.segments, flagID, MakeSegment), RankOf, SegmentIDOf);
  }

  // ----- a new segment -----

  function NewSegmentRow(req: Request): Row<SegmentData>
    requires req.CreateSegment?
  {
    Row(req.flagID, true, SegmentData(req.description, SEGMENT_DEFAULT_RANK, Uint(req.rolloutPercent)))
  }

  function NewSegment(db: DB, req: Request): Segment
    requires req.CreateSegment?
  {
    MakeSegment(|db.segments| + 1, NewSegmentRow(req))
  }

  lemma NewSegmentIsInserted(lib: Library, db: DB, req: Request)
    requires req.CreateSegment?
    ensures SegmentRows(Step(lib, db, req), req.flagID)
            == Insert(SegmentRows(db, req.flagID), NewSegment(db, req), RankOf)
  {
    FinishKeepsTables(EditOf(lib, db, req), req.flagID, req.subject);
    ChildrenAppend(db.segments, NewSegmentRow(req), req.flagID, MakeSegment);
    SortByAppend(Children(db.segments, req.flagID, MakeSegment), NewSegment(db, req), RankOf);
  }

  /** Inserting into a sorted list is appending exactly when no key is greater. */
  lemma InsertedLast<E>(xs: seq<E>, x: E, key: E -> nat)
    requires Sorted(xs, key)
    ensures Insert(xs, x, key) == xs + [x] <==> forall i :: 0 <= i < |xs| ==> key(xs[i]) <= key(x)
  {
    if i :| 0 <= i < |xs| && key(xs[i]) > key(x) {
      assert key(xs[i]) <= key(xs[|xs| - 1]);
      assert Insert(xs, x, key)[|xs|] == xs[|xs| - 1] != (xs + [x])[|xs|];
    } else {
      InsertLast(xs, x, key);
    }
  }

  /** A new segment is loaded last exactly when no segment of the flag has a rank beyond the default. */
  lemma NewSegmentIsLast(lib: Library, db: DB, req: Request)
    requires req.CreateSegment?
    ensures var rows := SegmentRows(db, req.flagID);
            SegmentRows(Step(lib, db, req), req.flagID) == rows + [NewSegment(db, req)]
            <==> forall i :: 0 <= i < |rows| ==> rows[i].rank <= SEGMENT_DEFAULT_RANK
  {
    var rows := SegmentRows(db, req.flagID);
    NewSegmentIsInserted(lib, db, req);
    SortByKeeps(Children(db.segments, req.flagID, MakeSegment), RankOf);
    InsertedLast(rows, NewSegment(db, req), RankOf);
    assert forall i :: 0 <= i < |rows| ==> RankOf(rows[i]) == rows[i].rank;
  }

  lemma LoadedWithNewSegment(lib: Library, db: DB, req: Request)
    requires req.CreateSegment? && RanksBounded(db)
    ensures LoadSegments(Step(lib, db, req), req.flagID)
            == LoadSegments(db, req.flagID) + [Fill(db, NewSegment(db, req))]
  {
    var db' := Step(lib, db, req);
    var rows := SegmentRows(db, req.flagID);
    FinishKeepsTables(EditOf(lib, db, req), req.flagID, req.subject);
    forall i | 0 <= i < |rows|
      ensures rows[i].rank <= SEGMENT_DEFAULT_RANK
    {
      LoadedSegment(db, req.flagID, i);
      assert LoadSegments(db, req.flagID)[i].rank == rows[i].rank;
    }
    NewSegmentIsLast(lib, db, req);
    assert forall s: Segment :: Fill(db', s) == Fill(db, s);
  }

  lemma PreparedPrefix(lib: Library, f: Flag, g: Flag, s: Segment)
    requires g.segments == f.segments + [s] && Preparable(lib, g)
    ensures Preparable(lib, f)
    ensures PreparedSegments(lib, g) == PreparedSegments(lib, f) + [PreparedSegments(lib, g)[|f.segments|]]
  {
    forall i | 0 <= i < |f.segments|
      ensures SegmentEvaluationOf(lib, f.segments[i]) == SegmentEvaluationOf(lib, g.segments[i])
    {
    }
    assert forall i :: 0 <= i < |f.segments| ==> PreparedSegments(lib, g)[i] == PreparedSegments(lib, f)[i];
  }

  lemma MatchedKeepsAnswer(lib: Library, p: Flag, q: Flag, s: Segment, ctx: EvalContext, random: nat)
    requires q.segments == p.segments + [s]
    requires q == p.(segments := q.segments, snapshotID := q.snapshotID, updatedBy := q.updatedBy)
    requires exists i :: 0 <= i < |p.segments| && Matches(lib, FillContext(p, ctx, random), p.segments[i])
    ensures SameAnswer(EvaluateFlag(lib, p, ctx, random), EvaluateFlag(lib, q, ctx, random))
  {
    var filled := FillContext(p, ctx, random);
    assert FillContext(q, ctx, random) == filled;
    LaterSegmentsDoNotMatter(lib, p.id, filled, p.segments, [s]);
    SameDecisionSameAnswer(lib, p, q, ctx, random);
  }

  lemma SameDecisionSameAnswer(lib: Library, p: Flag, q: Flag, ctx: EvalContext, random: nat)
    requires q == p.(segments := q.segments, snapshotID := q.snapshotID, updatedBy := q.updatedBy)
    requires p.segments != [] && q.segments != []
    requires Decide(lib, p.id, FillContext(p, ctx, random), p.segments)
             == Decide(lib, p.id, FillContext(p, ctx, random), q.segments)
    ensures SameAnswer(EvaluateFlag(lib, p, ctx, random), EvaluateFlag(lib, q, ctx, random))
  {
    if p.enabled {
      var filled := FillContext(p, ctx, random);
      assert FillContext(q, ctx, random) == filled;
      var decision := Decide(lib, p.id, filled, p.segments);
      var v := if decision.outcome.Assigned? then decision.outcome.variantID else 0;
      assert Answer(p, filled, decision.segmentID, v).(flagSnapshotID := 0)
          == Answer(q, filled, decision.segmentID, v).(flagSnapshotID := 0);
    }
  }

  lemma CreatedFlagLoads(lib: Library, db: DB, req: Request)
    requires req.CreateSegment? && RanksBounded(db) && Exists(db.flags, req.flagID)
    ensures var db' := Step(lib, db, req);
            && Exists(db'.flags, req.flagID)
            && var f, g := Load(db, req.flagID), Load(db', req.flagID);
               && g.segments == f.segments + [Fill(db, NewSegment(db, req))]
               && g == f.(segments := g.segments, snapshotID := g.snapshotID, updatedBy := g.updatedBy)
  {
    LoadedWithNewSegment(lib, db, req);
  }

  /** Creating a segment never pre-empts: when no reorder request so far listed more than
      1000 IDs, every entity that matched an existing segment of the flag keeps its answer. */
  lemma CreateSegmentNeverPreempts(lib: Library, reqs: seq<Request>, req: Request, ctx: EvalContext, random: nat)
    requires forall i :: 0 <= i < |reqs| ==> ShortReorder(reqs[i])
    requires req.CreateSegment? && Exists(Execute(lib, reqs).flags, req.flagID)
    requires Exists(Step(lib, Execute(lib, reqs), req).flags, req.flagID)
    requires Prepare(lib, Load(Step(lib, Execute(lib, reqs), req), req.flagID)).Some?
    ensures var before, after := Prepare(lib, Load(Execute(lib, reqs), req.flagID)),
                                 Prepare(lib, Load(Step(lib, Execute(lib, reqs), req), req.flagID));
            && before.Some?
            && ((exists i :: 0 <= i < |before.value.segments|
                   && Matches(lib, FillContext(before.value, ctx, random), before.value.segments[i]))
                ==> SameAnswer(EvaluateFlag(lib, before.value, ctx, random),
                               EvaluateFlag(lib, after.value, ctx, random)))
  {
    var db := Execute(lib, reqs);
    var db' := Step(lib, db, req);
    ExecuteKeepsRanks(lib, reqs);
    CreatedFlagLoads(lib, db, req);
    var f, g := Load(db, req.flagID), Load(db', req.flagID);
    PreparedPrefix(lib, f, g, Fill(db, NewSegment(db, req)));
    var p, q := Prepare(lib, f).value, Prepare(lib, g).value;
    if exists i :: 0 <= i < |p.segments| && Matches(lib, FillContext(p, ctx, random), p.segments[i]) {
      MatchedKeepsAnswer(lib, p, q, q.segments[|p.segments|], ctx, random);
    }
  }

  // ----- reordering -----

  lemma RankAfterReorder(lib: Library, db: DB, req: Request, flagID: nat, i: nat)
    requires req.PutSegmentsReorder? && EditPutSegmentsReorder(db, req).Saved?
    requires i < |SegmentRows(Step(lib, db, req), flagID)|
    ensures var s := SegmentRows(Step(lib, db, req), flagID)[i];
            && Live(db.segments, s.id) && Owned(db.segments, s.id, flagID)
            && (s.id in req.segmentIDs ==> s.rank == LastIndex(req.segmentIDs, s.id))
            && (s.id !in req.segmentIDs ==> s.rank == db.segments[s.id - 1].data.rank)
  {
    FinishKeepsTables(EditOf(lib, db, req), req.flagID, req.subject);
    LoadedSegment(Step(lib, db, req), flagID, i);
    var s := LoadSegments(Step(lib, db, req), flagID)[i];
    assert s.id == SegmentRows(Step(lib, db, req), flagID)[i].id;
  }

  /** After a successful reorder the listed segments are loaded in the requested order; of an
      ID listed more than once the last position counts. */
  lemma ReorderIsObeyed(lib: Library, db: DB, req: Request, flagID: nat, i: nat, j: nat)
    requires req.PutSegmentsReorder? && EditPutSegmentsReorder(db, req).Saved?
    requires i < j < |SegmentRows(Step(lib, db, req), flagID)|
    requires SegmentRows(Step(lib, db, req), flagID)[i].id in req.segmentIDs
    requires SegmentRows(Step(lib, db, req), flagID)[j].id in req.segmentIDs
    ensures LastIndex(req.segmentIDs, SegmentRows(Step(lib, db, req), flagID)[i].id)
            < LastIndex(req.segmentIDs, SegmentRows(Step(lib, db, req), flagID)[j].id)
  {
    var rows := SegmentRows(Step(lib, db, req), flagID);
    LoadOrder(Step(lib, db, req), flagID);
    RankAfterReorder(lib, db, req, flagID, i);
    RankAfterReorder(lib, db, req, flagID, j);
    assert Precedes(rows[i], rows[j], RankOf, SegmentIDOf);
  }

  /** Strictly increasing numbers that hit everything below a bound and nothing else count up. */
  lemma {:induction false} CountsUp(r: seq<nat>, n: nat, k: nat)
    requires forall i, j :: 0 <= i < j < |r| ==> r[i] < r[j]
    requires forall i :: 0 <= i < |r| ==> r[i] < n
    requires forall v: nat :: v < n ==> v in r
    requires k <= n
    ensures k <= |r| && forall i :: 0 <= i < k ==> r[i] == i
  {
    if k > 0 {
      CountsUp(r, n, k - 1);
      assert k - 1 in r;
      var p :| 0 <= p < |r| && r[p] == k - 1;
      assert p >= k - 1;
      assert r[k - 1] <= r[p];
      assert k >= 2 ==> r[k - 2] < r[k - 1];
    }
  }

  lemma {:induction false} AtLeastIndex(r: seq<nat>, i: nat)
    requires forall i, j :: 0 <= i < j < |r| ==> r[i] < r[j]
    requires i < |r|
    ensures i <= r[i]
  {
    if i > 0 {
      AtLeastIndex(r, i - 1);
      assert r[i - 1] < r[i];
    }
  }

  function RanksOf(rows: seq<Segment>): seq<nat> {
    seq(|rows|, i requires 0 <= i < |rows| => rows[i].rank)
  }

  function SegmentIDs(rows: seq<Segment>): seq<nat> {
    seq(|rows|, i requires 0 <= i < |rows| => rows[i].id)
  }

  /** The request lists each live segment of the flag exactly once. */
  ghost predicate IsPermutation(db: DB, flagID: nat, ids: seq<nat>) {
    && (forall i, j :: 0 <= i < j < |ids| ==> ids[i] != ids[j])
    && (forall id :: id in ids <==> Live(db.segments, id) && Owned(db.segments, id, flagID))
  }

  lemma ReorderedRanks(lib: Library, db: DB, req: Request)
    requires req.PutSegmentsReorder? && IsPermutation(db, req.flagID, req.segmentIDs)
    ensures var rows := SegmentRows(Step(lib, db, req), req.flagID);
            && (forall i :: 0 <= i < |rows| ==>
                rows[i].rank < |req.segmentIDs| && req.segmentIDs[rows[i].rank] == rows[i].id)
            && (forall i, j :: 0 <= i < j < |rows| ==> rows[i].rank < rows[j].rank)
  {
    var rows := SegmentRows(Step(lib, db, req), req.flagID);
    forall i | 0 <= i < |rows|
      ensures rows[i].id in req.segmentIDs && rows[i].rank == LastIndex(req.segmentIDs, rows[i].id)
    {
      RankAfterReorder(lib, db, req, req.flagID, i);
    }
    forall i, j | 0 <= i < j < |rows|
      ensures rows[i].rank < rows[j].rank
    {
      ReorderIsObeyed(lib, db, req, req.flagID, i, j);
    }
  }

  lemma EveryRankIsTaken(lib: Library, db: DB, req: Request, v: nat)
    requires req.PutSegmentsReorder? && IsPermutation(db, req.flagID, req.segmentIDs) && v < |req.segmentIDs|
    ensures v in RanksOf(SegmentRows(Step(lib, db, req), req.flagID))
  {
    var db' := Step(lib, db, req);
    var rows := SegmentRows(db', req.flagID);
    var id := req.segmentIDs[v];
    assert id in req.segmentIDs;
    FinishKeepsTables(EditOf(lib, db, req), req.flagID, req.subject);
    assert Live(db'.segments, id) && Owned(db'.segments, id, req.flagID);
    var i := SegmentLoaded(db', req.flagID, id);
    assert rows[i].id == id && LastIndex(req.segmentIDs, id) == v;
    RankAfterReorder(lib, db, req, req.flagID, i);
    assert RanksOf(rows)[i] == v;
  }

  /** Reorder correctness: when the request is a permutation of the flag's live segments, the
      flag afterwards loads its segments exactly in the requested order. */
  lemma ReorderIsExact(lib: Library, db: DB, req: Request)
    requires req.PutSegmentsReorder? && IsPermutation(db, req.flagID, req.segmentIDs)
    ensures SegmentIDs(SegmentRows(Step(lib, db, req), req.flagID)) == req.segmentIDs
  {
    var rows := SegmentRows(Step(lib, db, req), req.flagID);
    var n := |req.segmentIDs|;
    ReorderedRanks(lib, db, req);
    forall v: nat | v < n
      ensures v in RanksOf(rows)
    {
      EveryRankIsTaken(lib, db, req, v);
    }
    CountsUp(RanksOf(rows), n, n);
    if |rows| > 0 {
      AtLeastIndex(RanksOf(rows), |rows| - 1);
    }
    forall i | 0 <= i < n
      ensures SegmentIDs(rows)[i] == req.segmentIDs[i]
    {
      assert RanksOf(rows)[i] == i;
    }
  }
}
