/** From the tables to the answers: what the evaluation cache serves after it is reloaded
    from the state that a run of the editing API left behind. */
module Serving {
  import opened Entities
  import opened Preparation
  import opened Evaluation
  import opened EvalCacheIndexes
  import opened EvalCacheService
  import opened Tables
  import opened Handlers
  import opened Agreement
  import opened Audit
  import opened Text
  import Constraints
  import D = Database

  // ----- flag keys are unique -----

  /** The unique index on the key column, deleted flags included. */
  ghost predicate UniqueKeys(db: D.DB) {
    forall i, j :: 0 <= i < j < |db.flags| ==> db.flags[i].key != db.flags[j].key
  }

  lemma AppendUnique(flags: seq<D.FlagRow>, row: D.FlagRow)
    requires forall i, j :: 0 <= i < j < |flags| ==> flags[i].key != flags[j].key
    requires !KeyTaken(flags, row.key, 0)
    ensures forall i, j :: 0 <= i < j < |flags + [row]| ==> (flags + [row])[i].key != (flags + [row])[j].key
  {
  }

  lemma StepKeepsUniqueKeys(lib: Library, db: D.DB, req: Request)
    requires UniqueKeys(db)
    ensures UniqueKeys(Step(lib, db, req))
  {
    var edited := EditOf(lib, db, req).db;
    assert UniqueKeys(edited) by {
      if req.CreateFlag? {
        var key := if req.key == "" then req.freshKey else req.key;
        if !KeyTaken(db.flags, key, 0) {
          AppendUnique(db.flags, NewFlag(req.description, key, req.subject));
        }
      } else if req.PutFlag? {
        PutFlagKeepsUniqueKeys(db, req);
      } else {
        OthersKeepKeyColumn(lib, db, req);
      }
    }
    SnapshotKeepsKeyColumn(edited, FlagOf(db, req), SubjectOf(req));
  }

  lemma PutFlagKeepsUniqueKeys(db: D.DB, req: Request)
    requires req.PutFlag? && UniqueKeys(db)
    ensures UniqueKeys(EditPutFlag(db, req).db)
  {
    var db' := EditPutFlag(db, req).db;
    forall i, j | 0 <= i < j < |db'.flags|
      ensures db'.flags[i].key != db'.flags[j].key
    {
      assert db.flags[i].key != db.flags[j].key;
    }
  }

  lemma OthersKeepKeyColumn(lib: Library, db: D.DB, req: Request)
    requires !req.CreateFlag? && !req.PutFlag?
    ensures var db' := EditOf(lib, db, req).db;
            |db'.flags| == |db.flags| && forall i :: 0 <= i < |db.flags| ==> db'.flags[i].key == db.flags[i].key
  {
  }

  lemma SnapshotKeepsKeyColumn(db: D.DB, flagID: nat, subject: string)
    ensures var db' := SaveFlagSnapshot(db, flagID, subject);
            |db'.flags| == |db.flags| && forall i :: 0 <= i < |db.flags| ==> db'.flags[i].key == db.flags[i].key
  {
  }

  lemma {:induction false} ExecuteKeepsUniqueKeys(lib: Library, reqs: seq<Request>)
    ensures UniqueKeys(Execute(lib, reqs))
  {
    if reqs != [] {
      ExecuteKeepsUniqueKeys(lib, reqs[..|reqs| - 1]);
      StepKeepsUniqueKeys(lib, Execute(lib, reqs[..|reqs| - 1]), reqs[|reqs| - 1]);
    }
  }

  // ----- what a fetch returns -----

  /** The live flags, each once, in whatever order the database returns them. */
  ghost predicate IsFetch(db: D.DB, ids: seq<nat>, fs: seq<Flag>) {
    && |fs| == |ids|
    && (forall i, j :: 0 <= i < j < |ids| ==> ids[i] != ids[j])
    && (forall id :: id in ids <==> D.LiveFlag(db, id))
    && (forall i :: 0 <= i < |ids| ==> Exists(db.flags, ids[i]) && fs[i] == D.Load(db, ids[i]))
  }

  /** A fetch from the database meets what the indexes rely on: distinct, non-zero IDs and
      distinct keys. */
  lemma FetchedFlagsAreDistinct(lib: Library, reqs: seq<Request>, ids: seq<nat>, fs: seq<Flag>)
    requires IsFetch(Execute(lib, reqs), ids, fs)
    ensures EvalCacheIndexes.DistinctIDs(fs) && DistinctKeys(fs) && forall i :: 0 <= i < |fs| ==> fs[i].id != 0
  {
    var db := Execute(lib, reqs);
    ExecuteKeepsUniqueKeys(lib, reqs);
    forall i, j | 0 <= i < j < |fs|
      ensures fs[i].id != fs[j].id && fs[i].key != fs[j].key
    {
      if ids[i] < ids[j] {
        assert db.flags[ids[i] - 1].key != db.flags[ids[j] - 1].key;
      } else {
        assert db.flags[ids[j] - 1].key != db.flags[ids[i] - 1].key;
      }
    }
  }

  /** A fetch builds unless some live flag does not prepare; then the whole cache stays as it is. */
  lemma FetchFailsExactly(lib: Library, db: D.DB, ids: seq<nat>, fs: seq<Flag>)
    requires IsFetch(db, ids, fs)
    ensures Build(lib, fs) == None <==> exists id :: D.LiveFlag(db, id) && Prepare(lib, D.Load(db, id)) == None
  {
    FailsWith(lib, fs);
    if f :| f in fs && Prepare(lib, f) == None {
      var i :| 0 <= i < |fs| && fs[i] == f;
      assert ids[i] in ids;
      assert D.LiveFlag(db, ids[i]) && Prepare(lib, D.Load(db, ids[i])) == None;
    }
    if id :| D.LiveFlag(db, id) && Prepare(lib, D.Load(db, id)) == None {
      assert id in ids;
      var i :| 0 <= i < |ids| && ids[i] == id;
      assert fs[i] in fs && Prepare(lib, fs[i]) == None;
    }
  }

  /** Constraints are checked before they are stored, so with a parser that accepts what it accepts
      when joined by AND, a fetch after any requests builds: no edit can freeze the cache. */
  lemma EveryFetchBuilds(lib: Library, reqs: seq<Request>, ids: seq<nat>, fs: seq<Flag>)
    requires Constraints.JoinsParse(lib) && IsFetch(Execute(lib, reqs), ids, fs)
    ensures Build(lib, fs).Some?
  {
    var db := Execute(lib, reqs);
    FetchFailsExactly(lib, db, ids, fs);
    forall id | D.LiveFlag(db, id)
      ensures Prepare(lib, D.Load(db, id)).Some?
    {
      Constraints.EveryFlagPrepares(lib, reqs, id);
    }
  }

  lemma ServedFlag(lib: Library, db: D.DB, ids: seq<nat>, fs: seq<Flag>, f: Flag) returns (id: nat)
    requires IsFetch(db, ids, fs) && Build(lib, fs).Some?
    requires EvalCacheIndexes.DistinctIDs(fs) && DistinctKeys(fs)
    requires InCache(Build(lib, fs).value, f)
    ensures D.LiveFlag(db, id) && Prepare(lib, D.Load(db, id)) == Some(f)
  {
    var ps, c := PrepareAll(lib, fs).value, Build(lib, fs).value;
    PreparedKeepsIdentity(lib, fs);
    IndexAllIndexes(ps);
    InCacheInList(c, ps, f);
    var i :| 0 <= i < |ps| && ps[i] == f;
    PrepareAllElements(lib, fs);
    id := ids[i];
    assert id in ids;
  }

  lemma InCacheInList(c: CacheContainer, ps: seq<Flag>, f: Flag)
    requires Indexes(c, ps) && InCache(c, f)
    ensures f in ps
  {
    if v :| v in c.tagCache && f in c.tagCache[v].Values {
      assert TagIndexed(Under(c.tagCache, v), v, ps);
    }
  }

  // ----- the theorems -----

  /** End to end, no crash: after any requests within the schema's bounds, no flag of a cache
      reloaded from the database crashes for any entity, so no single, tagged or batch
      evaluation does. */
  lemma ServingNeverCrashes(lib: Library, reqs: seq<Request>, ids: seq<nat>, fs: seq<Flag>)
    requires AllInBounds(reqs) && IsFetch(Execute(lib, reqs), ids, fs) && Build(lib, fs).Some?
    ensures !CanCrash(lib, Build(lib, fs).value)
  {
    var db := Execute(lib, reqs);
    FetchedFlagsAreDistinct(lib, reqs, ids, fs);
    forall f | InCache(Build(lib, fs).value, f)
      ensures !Crashes(lib, f)
    {
      var id := ServedFlag(lib, db, ids, fs, f);
      forall ctx, random: nat
        ensures EvaluateFlag(lib, f, ctx, random) != Crashed
      {
        EvaluationNeverCrashes(lib, reqs, id, ctx, random);
      }
    }
  }

  /** The prepared list: each live flag once, as prepared from the tables. */
  ghost predicate IsPreparedFetch(lib: Library, db: D.DB, ids: seq<nat>, ps: seq<Flag>) {
    && |ps| == |ids|
    && (forall id :: id in ids <==> D.LiveFlag(db, id))
    && (forall i :: 0 <= i < |ids| ==> Exists(db.flags, ids[i]) && Prepare(lib, D.Load(db, ids[i])) == Some(ps[i]))
    && EvalCacheIndexes.DistinctIDs(ps) && DistinctKeys(ps)
  }

  lemma FetchPrepares(lib: Library, reqs: seq<Request>, ids: seq<nat>, fs: seq<Flag>) returns (ps: seq<Flag>)
    requires IsFetch(Execute(lib, reqs), ids, fs) && Build(lib, fs).Some?
    ensures IsPreparedFetch(lib, Execute(lib, reqs), ids, ps) && Build(lib, fs) == Some(IndexAll(ps))
    ensures |fs| == |ps| && forall i :: 0 <= i < |fs| ==> fs[i].id == ps[i].id && fs[i].key == ps[i].key
  {
    ps := PrepareAll(lib, fs).value;
    FetchedFlagsAreDistinct(lib, reqs, ids, fs);
    PreparedKeepsIdentity(lib, fs);
    PrepareAllElements(lib, fs);
  }

  lemma PreparedFlag(lib: Library, db: D.DB, ids: seq<nat>, ps: seq<Flag>, flagID: nat) returns (p: Flag)
    requires IsPreparedFetch(lib, db, ids, ps) && D.LiveFlag(db, flagID)
    ensures p in ps && p.id == flagID && Prepare(lib, D.Load(db, flagID)) == Some(p)
    ensures p.key == db.flags[flagID - 1].key
  {
    assert flagID in ids;
    var i :| 0 <= i < |ids| && ids[i] == flagID;
    p := ps[i];
  }

  lemma PreparedRow(lib: Library, db: D.DB, ids: seq<nat>, ps: seq<Flag>, p: Flag)
    requires IsPreparedFetch(lib, db, ids, ps) && p in ps
    ensures D.LiveFlag(db, p.id) && Prepare(lib, D.Load(db, p.id)) == Some(p)
  {
    var i :| 0 <= i < |ps| && ps[i] == p;
    assert ids[i] in ids;
  }

  /** Looking a live flag up by its ID serves that flag as prepared from the tables, whatever
      the flag keys look like. */
  lemma LiveFlagIsServed(lib: Library, reqs: seq<Request>, ids: seq<nat>, fs: seq<Flag>, flagID: nat, key: string)
    requires IsFetch(Execute(lib, reqs), ids, fs) && Build(lib, fs).Some? && D.LiveFlag(Execute(lib, reqs), flagID)
    ensures LookupFlag(Build(lib, fs).value, flagID, key) == Prepare(lib, D.Load(Execute(lib, reqs), flagID))
    ensures LookupFlag(Build(lib, fs).value, flagID, key).Some?
  {
    var ps := FetchPrepares(lib, reqs, ids, fs);
    var p := PreparedFlag(lib, Execute(lib, reqs), ids, ps, flagID);
    IndexAllIndexes(ps);
    GetFinds(IndexAll(ps), ps, Decimal(flagID));
  }

  lemma UnconfusedPrepared(fs: seq<Flag>, ps: seq<Flag>, id: nat, key: string)
    requires |fs| == |ps| && forall i :: 0 <= i < |fs| ==> fs[i].id == ps[i].id && fs[i].key == ps[i].key
    requires Unconfused(fs, id, key)
    ensures Unconfused(ps, id, key)
  {
    forall p | p in ps
      ensures p.key == Decimal(id) ==> key == Decimal(id)
      ensures p.id != 0 && Decimal(p.id) == key ==> p.key == key
    {
      var i :| 0 <= i < |ps| && ps[i] == p;
      assert fs[i] in fs;
    }
  }

  /** So does looking it up by its key, where no live flag has the ID asked for and the two cannot
      be taken for one another. */
  lemma KeyedFlagIsServed(lib: Library, reqs: seq<Request>, ids: seq<nat>, fs: seq<Flag>, flagID: nat, id: nat)
    requires IsFetch(Execute(lib, reqs), ids, fs) && Build(lib, fs).Some? && D.LiveFlag(Execute(lib, reqs), flagID)
    requires !D.LiveFlag(Execute(lib, reqs), id)
    requires var key := Execute(lib, reqs).flags[flagID - 1].key; key != "" && Unconfused(fs, id, key)
    ensures LookupFlag(Build(lib, fs).value, id, Execute(lib, reqs).flags[flagID - 1].key)
            == Prepare(lib, D.Load(Execute(lib, reqs), flagID))
    ensures Prepare(lib, D.Load(Execute(lib, reqs), flagID)).Some?
  {
    var db := Execute(lib, reqs);
    var key := db.flags[flagID - 1].key;
    var ps := FetchPrepares(lib, reqs, ids, fs);
    var p := PreparedFlag(lib, db, ids, ps, flagID);
    UnconfusedPrepared(fs, ps, id, key);
    LookupExactly(ps, id, key);
    forall f | f in ps
      ensures f.id != id
    {
      PreparedRow(lib, db, ids, ps, f);
    }
    SameKeySameFlag(ps, p, LookupFlag(IndexAll(ps), id, key).value);
  }

  lemma SelectsPrepared(lib: Library, f: Flag, p: Flag, tags: seq<string>, operator: Option<string>)
    requires Prepare(lib, f) == Some(p)
    ensures Selects(p, tags, operator) <==> Selects(f, tags, operator)
  {
    assert forall v :: Carries(p, v) <==> Carries(f, v);
  }

  /** A tag query serves exactly the live flags that carry the tags in the tables, as prepared from them. */
  lemma TaggedFlagsAreServed(lib: Library, reqs: seq<Request>, ids: seq<nat>, fs: seq<Flag>,
                             tags: seq<string>, operator: Option<string>, id: nat)
    requires IsFetch(Execute(lib, reqs), ids, fs) && Build(lib, fs).Some?
    ensures var db, m := Execute(lib, reqs), TagQuery(Build(lib, fs).value, tags, operator);
            && (id in m <==> D.LiveFlag(db, id) && Selects(D.Load(db, id), tags, operator))
            && (id in m ==> Prepare(lib, D.Load(db, id)) == Some(m[id]))
  {
    var db, m := Execute(lib, reqs), TagQuery(Build(lib, fs).value, tags, operator);
    var ps := FetchPrepares(lib, reqs, ids, fs);
    TagQueryScans(ps, tags, operator);
    if id in m {
      PreparedRow(lib, db, ids, ps, m[id]);
      SelectsPrepared(lib, D.Load(db, id), m[id], tags, operator);
    }
    if D.LiveFlag(db, id) && Selects(D.Load(db, id), tags, operator) {
      var p := PreparedFlag(lib, db, ids, ps, id);
      SelectsPrepared(lib, D.Load(db, id), p, tags, operator);
    }
  }

  /** The served answer is the one that the flag stored in the snapshot gives. */
  ghost predicate AnswersLikeSnapshot(lib: Library, db: D.DB, flagID: nat, ctx: EvalContext, random: nat,
                                      served: Evaluation)
    requires Exists(db.flags, flagID)
  {
    var id := db.flags[flagID - 1].snapshotID;
    Exists(db.snapshots, id) && AnswersLike(lib, db.snapshots[id - 1].body, ctx, random, served)
  }

  ghost predicate AnswersLike(lib: Library, f: Flag, ctx: EvalContext, random: nat, served: Evaluation) {
    Prepare(lib, f).Some? && SameAnswer(EvaluateFlag(lib, Prepare(lib, f).value, ctx, random), served)
  }

  lemma ServedFromState(lib: Library, db: D.DB, flagID: nat, served: Option<Flag>, ctx: EvalContext, random: nat)
    requires Exists(db.flags, flagID) && SnapshotEvaluatesAlike(lib, db, flagID)
    requires served == Prepare(lib, D.Load(db, flagID)) && served.Some?
    ensures AnswersLikeSnapshot(lib, db, flagID, ctx, random, Evaluate(lib, served, ctx, random))
  {
  }

  /** End to end, auditable: after a well-addressed run and a reload, asking for a live flag by
      its ID answers every entity as evaluating the flag stored in its snapshot does. */
  lemma ServedAnswersAreAudited(lib: Library, reqs: seq<Request>, ids: seq<nat>, fs: seq<Flag>,
                                flagID: nat, ctx: EvalContext, random: nat)
    requires AllInBounds(reqs) && AllWellAddressed(lib, reqs)
    requires IsFetch(Execute(lib, reqs), ids, fs) && Build(lib, fs).Some? && D.LiveFlag(Execute(lib, reqs), flagID)
    ensures AnswersLikeSnapshot(lib, Execute(lib, reqs), flagID, ctx, random,
                                Evaluate(lib, LookupFlag(Build(lib, fs).value, flagID, ctx.flagKey), ctx, random))
  {
    LiveFlagIsServed(lib, reqs, ids, fs, flagID, ctx.flagKey);
    AuditEquivalence(lib, reqs, flagID);
    ServedFromState(lib, Execute(lib, reqs), flagID, LookupFlag(Build(lib, fs).value, flagID, ctx.flagKey), ctx,
        random);
  }

  /** The same for a lookup by key that cannot be taken for another. */
  lemma KeyedAnswersAreAudited(lib: Library, reqs: seq<Request>, ids: seq<nat>, fs: seq<Flag>,
                               flagID: nat, id: nat, ctx: EvalContext, random: nat)
    requires AllInBounds(reqs) && AllWellAddressed(lib, reqs)
    requires IsFetch(Execute(lib, reqs), ids, fs) && Build(lib, fs).Some? && D.LiveFlag(Execute(lib, reqs), flagID)
    requires ctx.flagKey == Execute(lib, reqs).flags[flagID - 1].key != ""
    requires !D.LiveFlag(Execute(lib, reqs), id) && Unconfused(fs, id, ctx.flagKey)
    ensures AnswersLikeSnapshot(lib, Execute(lib, reqs), flagID, ctx, random,
                                Evaluate(lib, LookupFlag(Build(lib, fs).value, id, ctx.flagKey), ctx, random))
  {
    KeyedFlagIsServed(lib, reqs, ids, fs, flagID, id);
    AuditEquivalence(lib, reqs, flagID);
    ServedFromState(lib, Execute(lib, reqs), flagID, LookupFlag(Build(lib, fs).value, id, ctx.flagKey), ctx, random);
  }

  /** And for every flag that a tag query selects. */
  lemma TaggedAnswersAreAudited(lib: Library, reqs: seq<Request>, ids: seq<nat>, fs: seq<Flag>,
                                tags: seq<string>, operator: Option<string>, id: nat, ctx: EvalContext, random: nat)
    requires AllInBounds(reqs) && AllWellAddressed(lib, reqs)
    requires IsFetch(Execute(lib, reqs), ids, fs) && Build(lib, fs).Some?
    requires id in TagQuery(Build(lib, fs).value, tags, operator)
    ensures Exists(Execute(lib, reqs).flags, id)
    ensures AnswersLikeSnapshot(lib, Execute(lib, reqs), id, ctx, random,
                                Evaluate(lib, Some(TagQuery(Build(lib, fs).value, tags, operator)[id]), ctx, random))
  {
    TaggedFlagsAreServed(lib, reqs, ids, fs, tags, operator, id);
    AuditEquivalence(lib, reqs, id);
    ServedFromState(lib, Execute(lib, reqs), id, Some(TagQuery(Build(lib, fs).value, tags, operator)[id]), ctx, random);
  }
}
