/** The mutable store and the mutable cache together: requests are handled, flags are fetched,
    the cache is reloaded and an entity is evaluated. */
module EndToEnd {
  import opened Entities
  import opened Evaluation
  import opened EvalCacheIndexes
  import opened EvalCacheService
  import opened Tables
  import opened Handlers
  import opened Audit
  import opened Serving
  import opened Store
  import opened Words
  import Constraints
  import D = Database

  /** A store that handles requests from the beginning. In bounds and well-addressed, they leave
      every live flag with a snapshot that evaluates like it. */
  method RunAll(lib: Library, reqs: seq<Request>) returns (store: CRUD)
    ensures fresh(store) && store.Db() == Execute(lib, reqs)
    ensures AllInBounds(reqs) && AllWellAddressed(lib, reqs) ==>
              forall flagID :: D.LiveFlag(store.Db(), flagID) ==> SnapshotEvaluatesAlike(lib, store.Db(), flagID)
  {
    store := new CRUD();
    store.Run(lib, reqs, []);
    assert [] + reqs == reqs;
    if AllInBounds(reqs) && AllWellAddressed(lib, reqs) {
      forall flagID | D.LiveFlag(store.Db(), flagID)
        ensures SnapshotEvaluatesAlike(lib, store.Db(), flagID)
      {
        AuditEquivalence(lib, reqs, flagID);
      }
    }
  }

  /** Loads the live flags from the store. */
  method Fetch(store: CRUD) returns (fs: seq<Flag>)
    ensures exists ids :: IsFetch(store.Db(), ids, fs)
  {
    fs := [];
    ghost var ids: seq<nat> := [];
    var db := store.Db();
    for i := 0 to |db.flags|
      invariant |fs| == |ids|
      invariant forall j, k :: 0 <= j < k < |ids| ==> ids[j] != ids[k]
      invariant forall id: nat :: id in ids <==> D.LiveFlag(db, id) && id <= i
      invariant forall j :: 0 <= j < |ids| ==> Exists(db.flags, ids[j]) && fs[j] == D.Load(db, ids[j])
    {
      if db.flags[i].live {
        assert i + 1 !in ids;
        fs := fs + [D.Load(db, i + 1)];
        ids := ids + [i + 1];
      }
    }
    assert IsFetch(db, ids, fs);
  }

  /** Requests, then a reload, then an evaluation by flag ID: the answer is the one that the flag
      stored in the snapshot gives, for some ID generated in place of a missing entity ID. */
  method EditThenEvaluate(lib: Library, reqs: seq<Request>, ctx: EvalContext) returns (e: Evaluation)
    requires AllInBounds(reqs) && AllWellAddressed(lib, reqs) && Constraints.JoinsParse(lib)
    ensures e.Evaluated?
    ensures var flagID := SafeUint(ctx.flagID);
            D.LiveFlag(Execute(lib, reqs), flagID) ==>
              exists random: nat :: AnswersLikeSnapshot(lib, Execute(lib, reqs), flagID, ctx, random, e)
  {
    var store := RunAll(lib, reqs);
    var fs := Fetch(store);
    ghost var ids :| IsFetch(store.Db(), ids, fs);
    EveryFetchBuilds(lib, reqs, ids, fs);
    var evalCache := new EvalCache();
    var ok := evalCache.ReloadMapCache(lib, Some(fs));
    ServingNeverCrashes(lib, reqs, ids, fs);
    e := evalCache.EvalFlag(lib, ctx);
    var flagID := SafeUint(ctx.flagID);
    if D.LiveFlag(Execute(lib, reqs), flagID) {
      var served := LookupFlag(evalCache.cache, flagID, ctx.flagKey);
      var random: nat :| Evaluate(lib, served, ctx, random) == e;
      ServedAnswersAreAudited(lib, reqs, ids, fs, flagID, ctx, random);
    }
  }
}
