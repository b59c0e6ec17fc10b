/** The evaluation cache as an object: the reload that swaps the indexes, the queries that
    read them, and the evaluation requests served from them. */
module EvalCacheService {
  import opened Entities
  import opened Preparation
  import opened Evaluation
  import opened EvalCacheIndexes
  import opened Text
  import opened Words

  datatype EvaluationEntity = EvaluationEntity(entityID: string, entityType: string, entityContext: EntityContext)

  datatype BatchRequest = BatchRequest(
    entities: seq<EvaluationEntity>,
    flagIDs: seq<int>,
    flagKeys: seq<string>,
    flagTags: seq<string>,
    flagTagsOperator: Option<string>)

  /** The results of evaluating a list of flags, or the index of the flag that crashed. */
  datatype FlagResults = Done(results: seq<EvalResult>) | Crash(at: nat)

  datatype BatchReply = TooLarge | BatchCrashed | BatchResults(results: seq<EvalResult>)

  function IDContext(e: EvaluationEntity, flagID: int): EvalContext {
    EvalContext(e.entityID, e.entityType, e.entityContext, flagID, "", [], None)
  }

  function KeyContext(e: EvaluationEntity, flagKey: string): EvalContext {
    EvalContext(e.entityID, e.entityType, e.entityContext, 0, flagKey, [], None)
  }

  function TagsContext(e: EvaluationEntity, tags: seq<string>, operator: Option<string>): EvalContext {
    EvalContext(e.entityID, e.entityType, e.entityContext, 0, "", tags, operator)
  }

  // ----- deduplication -----

  /** The elements in the order of their first occurrences. */
  function Unique<T(==)>(xs: seq<T>): seq<T> {
    if xs == [] then []
    else
      var u := Unique(xs[..|xs| - 1]);
      if xs[|xs| - 1] in u then u else u + [xs[|xs| - 1]]
  }

  /** Nothing is lost, nothing is repeated, and the first occurrences keep their order. */
  lemma {:induction false} UniqueKeepsFirstOccurrences<T(!new)>(xs: seq<T>)
    ensures forall x :: x in xs <==> x in Unique(xs)
    ensures forall i, j :: 0 <= i < j < |Unique(xs)| ==> Unique(xs)[i] != Unique(xs)[j]
    ensures forall i, j, k :: 0 <= i < j < |Unique(xs)| && 0 <= k < |xs| && xs[k] == Unique(xs)[j]
              ==> Unique(xs)[i] in xs[..k]
  {
    if xs != [] {
      var init, last := xs[..|xs| - 1], xs[|xs| - 1];
      var u := Unique(init);
      UniqueKeepsFirstOccurrences(init);
      forall x
        ensures x in xs <==> x in Unique(xs)
      {
        assert x in xs <==> x in init || x == last;
      }
      forall i, j, k | 0 <= i < j < |Unique(xs)| && 0 <= k < |xs| && xs[k] == Unique(xs)[j]
        ensures Unique(xs)[i] in xs[..k]
      {
        assert i < |u| && Unique(xs)[i] == u[i] && u[i] in u;
        if k < |init| {
          assert xs[k] == init[k] && xs[..k] == init[..k];
          assert init[k] in u;
          assert j < |u| && Unique(xs)[j] == u[j];
          assert u[i] in init[..k];
        } else {
          assert xs[..k] == init;
          assert u[i] in init;
        }
      }
    }
  }

  method Deduplicate<T(==,!new)>(xs: seq<T>) returns (unique: seq<T>)
    ensures unique == Unique(xs)
  {
    if |xs| > 1 {
      var seen: set<T> := {};
      unique := [];
      for i := 0 to |xs|
        invariant unique == Unique(xs[..i])
        invariant forall x :: x in seen <==> x in unique
      {
        assert xs[..i + 1][..i] == xs[..i];
        if xs[i] !in seen {
          seen := seen + {xs[i]};
          unique := unique + [xs[i]];
        }
      }
      assert xs[..|xs|] == xs;
    } else {
      unique := xs;
    }
  }

  // ----- batches -----

  /** The number of evaluations a batch is charged for: the tags count once per entity. */
  function Charge(req: BatchRequest): nat {
    Product(|req.entities|, ChargePerEntity(req))
  }

  function ChargePerEntity(req: BatchRequest): nat {
    |Unique(req.flagIDs)| + |Unique(req.flagKeys)| + if req.flagTags != [] then 1 else 0
  }

  function Product(m: nat, n: nat): nat {
    m * n
  }

  /** `r` evaluates the flag in the context, for some generated entity ID. */
  ghost predicate Evaluates(lib: Library, f: Option<Flag>, ctx: EvalContext, r: EvalResult) {
    exists random: nat :: Evaluate(lib, f, ctx, random) == Evaluated(r)
  }

  ghost predicate EvaluatesAll(lib: Library, fs: seq<Flag>, ctx: EvalContext, rs: seq<EvalResult>) {
    |rs| == |fs| && forall i :: 0 <= i < |fs| ==> Evaluates(lib, Some(fs[i]), ctx, rs[i])
  }

  ghost predicate IDResults(lib: Library, c: CacheContainer, e: EvaluationEntity, ids: seq<int>, rs: seq<EvalResult>) {
    && |rs| == |ids|
    && (forall i :: 0 <= i < |ids| ==>
          Evaluates(lib, LookupFlag(c, SafeUint(ids[i]), ""), IDContext(e, ids[i]), rs[i]))
  }

  ghost predicate KeyResults(lib: Library, c: CacheContainer, e: EvaluationEntity, keys: seq<string>,
                             rs: seq<EvalResult>) {
    && |rs| == |keys|
    && (forall i :: 0 <= i < |keys| ==>
          Evaluates(lib, LookupFlag(c, 0, keys[i]), KeyContext(e, keys[i]), rs[i]))
  }

  ghost predicate TagResults(lib: Library, c: CacheContainer, ctx: EvalContext, rs: seq<EvalResult>) {
    exists fs: seq<Flag> ::
      ListsValues(fs, TagQuery(c, ctx.flagTags, ctx.flagTagsOperator)) && EvaluatesAll(lib, fs, ctx, rs)
  }

  /** The results of one entity: its tagged flags in some order, its flag IDs and its flag
      keys, each deduplicated list in request order. */
  ghost predicate AreParts(lib: Library, c: CacheContainer, req: BatchRequest, e: EvaluationEntity,
                           tagged: seq<EvalResult>, byID: seq<EvalResult>, byKey: seq<EvalResult>)
  {
    && (if req.flagTags != [] then TagResults(lib, c, TagsContext(e, req.flagTags, req.flagTagsOperator), tagged)
        else tagged == [])
    && IDResults(lib, c, e, Unique(req.flagIDs), byID)
    && KeyResults(lib, c, e, Unique(req.flagKeys), byKey)
  }

  /** The three parts, one after the other. */
  ghost predicate IsBlock(lib: Library, c: CacheContainer, req: BatchRequest, e: EvaluationEntity,
                          rs: seq<EvalResult>) {
    exists tagged: seq<EvalResult>, byID: seq<EvalResult>, byKey: seq<EvalResult> ::
      rs == tagged + byID + byKey && AreParts(lib, c, req, e, tagged, byID, byKey)
  }

  function Flatten(blocks: seq<seq<EvalResult>>): seq<EvalResult> {
    if blocks == [] then [] else Flatten(blocks[..|blocks| - 1]) + blocks[|blocks| - 1]
  }

  ghost predicate IsBatch(lib: Library, c: CacheContainer, req: BatchRequest, results: seq<EvalResult>) {
    exists blocks: seq<seq<EvalResult>> :: AreBlocks(lib, c, req, req.entities, blocks) && results == Flatten(blocks)
  }

  ghost predicate AreBlocks(lib: Library, c: CacheContainer, req: BatchRequest, es: seq<EvaluationEntity>,
                            blocks: seq<seq<EvalResult>>)
  {
    |blocks| == |es| && forall i :: 0 <= i < |blocks| ==> IsBlock(lib, c, req, es[i], blocks[i])
  }

  lemma AppendBlock(lib: Library, c: CacheContainer, req: BatchRequest, es: seq<EvaluationEntity>,
                    blocks: seq<seq<EvalResult>>, e: EvaluationEntity, block: seq<EvalResult>)
    requires AreBlocks(lib, c, req, es, blocks) && IsBlock(lib, c, req, e, block)
    ensures AreBlocks(lib, c, req, es + [e], blocks + [block])
    ensures Flatten(blocks + [block]) == Flatten(blocks) + block
  {
    assert (blocks + [block])[..|blocks|] == blocks;
  }

  /** The number of results for the tags. */
  function TaggedSize(c: CacheContainer, req: BatchRequest): nat {
    if req.flagTags != [] then |TagQuery(c, req.flagTags, req.flagTagsOperator)| else 0
  }

  function BlockSize(c: CacheContainer, req: BatchRequest): nat {
    TaggedSize(c, req) + |Unique(req.flagIDs)| + |Unique(req.flagKeys)|
  }

  lemma ListedSize<K(!new)>(keys: seq<K>, r: seq<Flag>, m: map<K, Flag>)
    requires IsOrder(keys, r, m)
    ensures |r| == |m|
  {
    DistinctSize(keys, m.Keys);
  }

  lemma {:induction false} DistinctSize<K(!new)>(keys: seq<K>, s: set<K>)
    requires forall i, j :: 0 <= i < j < |keys| ==> keys[i] != keys[j]
    requires forall k :: k in keys <==> k in s
    ensures |keys| == |s|
  {
    if keys == [] {
      assert s == {};
    } else {
      var init, last := keys[..|keys| - 1], keys[|keys| - 1];
      assert forall k :: k in keys <==> k in init || k == last;
      assert last in s;
      DistinctSize(init, s - {last});
    }
  }

  lemma TaggedPartSize(lib: Library, c: CacheContainer, req: BatchRequest, e: EvaluationEntity,
                       tagged: seq<EvalResult>, byID: seq<EvalResult>, byKey: seq<EvalResult>)
    requires AreParts(lib, c, req, e, tagged, byID, byKey)
    ensures |tagged| == TaggedSize(c, req)
  {
    if req.flagTags != [] {
      var m := TagQuery(c, req.flagTags, req.flagTagsOperator);
      var ctx := TagsContext(e, req.flagTags, req.flagTagsOperator);
      var fs: seq<Flag> :| ListsValues(fs, m) && EvaluatesAll(lib, fs, ctx, tagged);
      var keys: seq<nat> :| IsOrder(keys, fs, m);
      ListedSize(keys, fs, m);
    }
  }

  lemma BlockParts(lib: Library, c: CacheContainer, req: BatchRequest, e: EvaluationEntity, rs: seq<EvalResult>)
    returns (tagged: seq<EvalResult>, byID: seq<EvalResult>, byKey: seq<EvalResult>)
    requires IsBlock(lib, c, req, e, rs)
    ensures rs == tagged + byID + byKey && AreParts(lib, c, req, e, tagged, byID, byKey)
    ensures |tagged| == TaggedSize(c, req)
  {
    tagged, byID, byKey :| rs == tagged + byID + byKey && AreParts(lib, c, req, e, tagged, byID, byKey);
    TaggedPartSize(lib, c, req, e, tagged, byID, byKey);
  }

  lemma BlockHasBlockSize(lib: Library, c: CacheContainer, req: BatchRequest, e: EvaluationEntity, rs: seq<EvalResult>)
    requires IsBlock(lib, c, req, e, rs)
    ensures |rs| == BlockSize(c, req)
  {
    var tagged, byID, byKey := BlockParts(lib, c, req, e, rs);
  }

  lemma {:induction false} FlattenSize(blocks: seq<seq<EvalResult>>, size: nat)
    requires forall i :: 0 <= i < |blocks| ==> |blocks[i]| == size
    ensures |Flatten(blocks)| == Product(|blocks|, size)
  {
    if blocks != [] {
      FlattenSize(blocks[..|blocks| - 1], size);
    }
  }

  /** The size of an accepted batch. The limit bounds it exactly as long as the tags select
      at most one flag: a tag query is charged once however many flags it selects. */
  lemma BatchSize(lib: Library, c: CacheContainer, req: BatchRequest, results: seq<EvalResult>)
    requires IsBatch(lib, c, req, results)
    ensures |results| == Product(|req.entities|, BlockSize(c, req))
    ensures |results| > Charge(req)
            <==> req.entities != [] && req.flagTags != [] && |TagQuery(c, req.flagTags, req.flagTagsOperator)| > 1
  {
    BlocksSize(lib, c, req, results);
    ProductOrder(|req.entities|, BlockSize(c, req), ChargePerEntity(req));
  }

  lemma BlocksSize(lib: Library, c: CacheContainer, req: BatchRequest, results: seq<EvalResult>)
    requires IsBatch(lib, c, req, results)
    ensures |results| == Product(|req.entities|, BlockSize(c, req))
  {
    var blocks: seq<seq<EvalResult>> :| AreBlocks(lib, c, req, req.entities, blocks) && results == Flatten(blocks);
    forall i | 0 <= i < |blocks|
      ensures |blocks[i]| == BlockSize(c, req)
    {
      BlockHasBlockSize(lib, c, req, req.entities[i], blocks[i]);
    }
    FlattenSize(blocks, BlockSize(c, req));
  }

  lemma ProductOrder(n: nat, x: nat, y: nat)
    ensures Product(n, x) > Product(n, y) <==> n > 0 && x > y
  {
    if x <= y {
      assert n * x <= n * y;
    }
  }

  // ----- crashes -----

  ghost predicate InCache(c: CacheContainer, f: Flag) {
    || f in c.idCache.Values
    || f in c.keyCache.Values
    || exists v :: v in c.tagCache && f in c.tagCache[v].Values
  }

  ghost predicate Crashes(lib: Library, f: Flag) {
    exists ctx, random: nat :: EvaluateFlag(lib, f, ctx, random) == Crashed
  }

  /** Some flag of the cache crashes for some entity. */
  ghost predicate CanCrash(lib: Library, c: CacheContainer) {
    exists f :: InCache(c, f) && Crashes(lib, f)
  }

  lemma EvaluatesWith(lib: Library, f: Option<Flag>, ctx: EvalContext, r: EvalResult, random: nat)
    requires Evaluate(lib, f, ctx, random) == Evaluated(r)
    ensures Evaluates(lib, f, ctx, r)
  {
  }

  lemma CrashesWith(lib: Library, f: Flag, ctx: EvalContext, random: nat)
    requires EvaluateFlag(lib, f, ctx, random) == Crashed
    ensures Crashes(lib, f)
  {
  }

  lemma CrashInCache(lib: Library, c: CacheContainer, f: Flag)
    requires InCache(c, f) && Crashes(lib, f)
    ensures CanCrash(lib, c)
  {
  }

  lemma {:induction false} AnyIsInCache(c: CacheContainer, tags: seq<string>, id: nat)
    requires id in TagsAny(c, tags)
    ensures InCache(c, TagsAny(c, tags)[id])
  {
    var init, last := tags[..|tags| - 1], tags[|tags| - 1];
    if id in Under(c.tagCache, last) {
      assert TagsAny(c, tags)[id] in c.tagCache[last].Values;
    } else {
      AnyIsInCache(c, init, id);
    }
  }

  lemma SelectedIsInCache(c: CacheContainer, tags: seq<string>, operator: Option<string>, fs: seq<Flag>, i: nat)
    requires ListsValues(fs, TagQuery(c, tags, operator)) && i < |fs|
    ensures InCache(c, fs[i])
  {
    var keys: seq<nat> :| IsOrder(keys, fs, TagQuery(c, tags, operator));
    var id := keys[i];
    assert id in keys;
    if operator == None || operator == Some(ANY) {
      AnyIsInCache(c, tags, id);
    } else {
      assert fs[i] in c.tagCache[tags[0]].Values;
    }
  }

  // ----- the cache object -----

  class EvalCache {
    var cache: CacheContainer

    constructor ()
      ensures cache == EMPTY
    {
      cache := EMPTY;
    }

    /** Fills the three maps from the fetched flags, preparing each one; any error, from the
        fetch or from a preparation, yields nothing. */
    method FetchAllFlags(lib: Library, fetched: Option<seq<Flag>>) returns (c: Option<CacheContainer>)
      ensures c == if fetched == None then None else Build(lib, fetched.value)
    {
      if fetched == None {
        return None;
      }
      var fs := fetched.value;
      var idCache: map<string, Flag> := map[];
      var keyCache: map<string, Flag> := map[];
      var tagCache: map<string, map<nat, Flag>> := map[];
      ghost var ps: seq<Flag> := [];

      for i := 0 to |fs|
        invariant PrepareAll(lib, fs[..i]) == Some(ps)
        invariant CacheContainer(idCache, keyCache, tagCache) == IndexAll(ps)
      {
        assert fs[..i + 1][..i] == fs[..i];
        var record := new FlagRecord(fs[i]);
        var prepared := record.PrepareEvaluation(lib);
        if !prepared {
          FailsWith(lib, fs);
          assert fs[i] in fs;
          return None;
        }
        var f := record.Value();
        if f.id != 0 {
          idCache := idCache[Decimal(f.id) := f];
        }
        if f.key != "" {
          keyCache := keyCache[f.key := f];
        }
        tagCache := AddToTagCache(tagCache, f);
        assert (ps + [f])[..|ps|] == ps;
        ps := ps + [f];
      }
      assert fs[..|fs|] == fs;
      return Some(CacheContainer(idCache, keyCache, tagCache));
    }

    method AddToTagCache(tagCache: map<string, map<nat, Flag>>, f: Flag) returns (after: map<string, map<nat, Flag>>)
      ensures after == AddTags(tagCache, f, f.tags)
    {
      after := tagCache;
      for j := 0 to |f.tags|
        invariant after == AddTags(tagCache, f, f.tags[..j])
      {
        assert f.tags[..j + 1][..j] == f.tags[..j];
        var value := f.tags[j].value;
        if value !in after {
          after := after[value := map[]];
        }
        var flags: map<nat, Flag> := after[value];
        after := after[value := flags[f.id := f]];
      }
      assert f.tags[..|f.tags|] == f.tags;
    }

    /** Swaps the indexes when the fetch and every preparation succeeded; otherwise the
        readers keep what they have. */
    method ReloadMapCache(lib: Library, fetched: Option<seq<Flag>>) returns (ok: bool)
      modifies this
      ensures ok == (fetched.Some? && Build(lib, fetched.value).Some?)
      ensures cache == if ok then Build(lib, fetched.value).value else old(cache)
    {
      var c := FetchAllFlags(lib, fetched);
      if c == None {
        return false;
      }
      cache := c.value;
      return true;
    }

    method GetByTagsAny(tags: seq<string>) returns (results: map<nat, Flag>)
      ensures results == TagsAny(cache, tags)
    {
      results := map[];
      for i := 0 to |tags|
        invariant results == TagsAny(cache, tags[..i])
      {
        assert tags[..i + 1][..i] == tags[..i];
        if tags[i] in cache.tagCache {
          results := results + cache.tagCache[tags[i]];
        }
      }
      assert tags[..|tags|] == tags;
    }

    /** Copies the first tag's flags, then deletes in place those that a further tag misses;
        stops early at an unknown tag or when no flag is left. */
    method GetByTagsAll(tags: seq<string>) returns (results: map<nat, Flag>)
      ensures results == TagsAll(cache, tags)
    {
      results := map[];
      for i := 0 to |tags|
        invariant IsAllSoFar(cache, tags, i, results)
      {
        if tags[i] !in cache.tagCache {
          return map[];
        }
        var fSet := cache.tagCache[tags[i]];
        if i == 0 {
          results := map[] + fSet;
          FirstTag(cache, tags);
        } else {
          var kept := DeleteMissing(results, fSet);
          NextTag(cache, tags, i, results, kept);
          results := kept;
          if |results| == 0 {
            NoneLeft(cache, tags, i + 1);
            return results;
          }
        }
      }
      assert tags[..|tags|] == tags;
    }

    /** Deletes from the results, key by key in map order, the flags that are not in the set. */
    method DeleteMissing(results: map<nat, Flag>, fSet: map<nat, Flag>) returns (kept: map<nat, Flag>)
      ensures kept == map id | id in results && id in fSet :: results[id]
    {
      kept := results;
      var todo := results.Keys;
      while todo != {}
        invariant todo <= results.Keys
        invariant kept == map id | id in results && (id in todo || id in fSet) :: results[id]
        decreases todo
      {
        var fID :| fID in todo;
        todo := todo - {fID};
        if fID !in fSet {
          kept := kept - {fID};
        }
      }
    }

    /** Lists the selected flags in whatever order the map yields them. */
    method GetByTags(tags: seq<string>, operator: Option<string>) returns (values: seq<Flag>)
      ensures ListsValues(values, TagQuery(cache, tags, operator))
    {
      var results: map<nat, Flag> := map[];
      if operator == None || operator == Some(ANY) {
        results := GetByTagsAny(tags);
      }
      if operator != None && operator == Some(ALL) {
        results := GetByTagsAll(tags);
      }
      values := [];
      ghost var keys: seq<nat> := [];
      var todo := results.Keys;
      while todo != {}
        invariant todo <= results.Keys
        invariant forall k :: k in keys <==> k in results && k !in todo
        invariant |values| == |keys|
        invariant forall i, j :: 0 <= i < j < |keys| ==> keys[i] != keys[j]
        invariant forall i :: 0 <= i < |keys| ==> keys[i] in results && values[i] == results[keys[i]]
        decreases todo
      {
        var fID :| fID in todo;
        todo := todo - {fID};
        values := values + [results[fID]];
        keys := keys + [fID];
      }
      assert IsOrder(keys, values, results);
    }

    method GetByKeyOrID(s: string) returns (f: Option<Flag>)
      ensures f == GetByFlagKeyOrID(cache, s)
    {
      if s in cache.idCache {
        f := Some(cache.idCache[s]);
      } else if s in cache.keyCache {
        f := Some(cache.keyCache[s]);
      } else {
        f := None;
      }
    }

    /** Lists the flags of the ID index in whatever order the map yields them. */
    method Export() returns (fs: seq<Flag>)
      ensures ListsValues(fs, cache.idCache)
    {
      fs := [];
      ghost var keys: seq<string> := [];
      var todo := cache.idCache.Keys;
      while todo != {}
        invariant todo <= cache.idCache.Keys
        invariant forall k :: k in keys <==> k in cache.idCache && k !in todo
        invariant |fs| == |keys|
        invariant forall i, j :: 0 <= i < j < |keys| ==> keys[i] != keys[j]
        invariant forall i :: 0 <= i < |keys| ==> keys[i] in cache.idCache && fs[i] == cache.idCache[keys[i]]
        decreases todo
      {
        var s :| s in todo;
        todo := todo - {s};
        fs := fs + [cache.idCache[s]];
        keys := keys + [s];
      }
      assert IsOrder(keys, fs, cache.idCache);
    }

    /** Evaluates one flag, under a generated entity ID where one is missing. */
    method EvalOne(lib: Library, f: Option<Flag>, ctx: EvalContext) returns (e: Evaluation)
      ensures e.Evaluated? ==> Evaluates(lib, f, ctx, e.result)
      ensures e == Crashed ==> f.Some? && Crashes(lib, f.value)
    {
      var random: nat := *;
      e := EvalFlagWithContext(lib, f, ctx, random);
      if e.Evaluated? {
        EvaluatesWith(lib, f, ctx, e.result, random);
      } else {
        CrashesWith(lib, f.value, ctx, random);
      }
    }

    method EvalFlag(lib: Library, ctx: EvalContext) returns (e: Evaluation)
      ensures e.Evaluated? ==> Evaluates(lib, LookupFlag(cache, SafeUint(ctx.flagID), ctx.flagKey), ctx, e.result)
      ensures e == Crashed ==> CanCrash(lib, cache)
    {
      var f := GetByKeyOrID(Decimal(SafeUint(ctx.flagID)));
      if f == None {
        f := GetByKeyOrID(ctx.flagKey);
      }
      e := EvalOne(lib, f, ctx);
      if e == Crashed {
        CrashInCache(lib, cache, f.value);
      }
    }

    method EvalFlagsByTags(lib: Library, ctx: EvalContext) returns (r: Option<seq<EvalResult>>)
      ensures r.Some? ==> TagResults(lib, cache, ctx, r.value)
      ensures r == None ==> CanCrash(lib, cache)
    {
      var fs := GetByTags(ctx.flagTags, ctx.flagTagsOperator);
      var results := EvalAll(lib, fs, ctx);
      if results.Crash? {
        SelectedIsInCache(cache, ctx.flagTags, ctx.flagTagsOperator, fs, results.at);
        CrashInCache(lib, cache, fs[results.at]);
        return None;
      }
      return Some(results.results);
    }

    method EvalAll(lib: Library, fs: seq<Flag>, ctx: EvalContext) returns (r: FlagResults)
      ensures r.Done? ==> EvaluatesAll(lib, fs, ctx, r.results)
      ensures r.Crash? ==> r.at < |fs| && Crashes(lib, fs[r.at])
    {
      var results: seq<EvalResult> := [];
      for i := 0 to |fs|
        invariant |results| == i
        invariant forall j :: 0 <= j < i ==> Evaluates(lib, Some(fs[j]), ctx, results[j])
      {
        var e := EvalOne(lib, Some(fs[i]), ctx);
        if e == Crashed {
          return Crash(i);
        }
        results := results + [e.result];
      }
      return Done(results);
    }

    /** Deduplicates, checks the limit, then evaluates entity by entity. */
    method PostEvaluationBatch(lib: Library, req: BatchRequest, maxBatchSize: int) returns (reply: BatchReply)
      ensures reply == TooLarge <==> 0 < maxBatchSize < Charge(req)
      ensures reply.BatchResults? ==> IsBatch(lib, cache, req, reply.results)
      ensures reply.BatchCrashed? ==> CanCrash(lib, cache)
    {
      var flagKeys := Deduplicate(req.flagKeys);
      var flagIDs := Deduplicate(req.flagIDs);
      if maxBatchSize > 0 {
        var flagsPerEntity := |flagIDs| + |flagKeys|;
        if |req.flagTags| > 0 {
          flagsPerEntity := flagsPerEntity + 1;
        }
        var total := Product(|req.entities|, flagsPerEntity);
        if total > maxBatchSize {
          return TooLarge;
        }
      }
      reply := EvalEntities(lib, req, flagIDs, flagKeys);
    }

    method EvalEntities(lib: Library, req: BatchRequest, flagIDs: seq<int>, flagKeys: seq<string>)
      returns (reply: BatchReply)
      requires flagIDs == Unique(req.flagIDs) && flagKeys == Unique(req.flagKeys)
      ensures reply != TooLarge
      ensures reply.BatchResults? ==> IsBatch(lib, cache, req, reply.results)
      ensures reply.BatchCrashed? ==> CanCrash(lib, cache)
    {
      var results: seq<EvalResult> := [];
      ghost var blocks: seq<seq<EvalResult>> := [];
      for i := 0 to |req.entities|
        invariant results == Flatten(blocks)
        invariant AreBlocks(lib, cache, req, req.entities[..i], blocks)
      {
        var block := EvalEntity(lib, req, flagIDs, flagKeys, req.entities[i]);
        if block == None {
          return BatchCrashed;
        }
        AppendBlock(lib, cache, req, req.entities[..i], blocks, req.entities[i], block.value);
        assert req.entities[..i + 1] == req.entities[..i] + [req.entities[i]];
        results := results + block.value;
        blocks := blocks + [block.value];
      }
      assert req.entities[..|req.entities|] == req.entities;
      return BatchResults(results);
    }

    method EvalEntity(lib: Library, req: BatchRequest, flagIDs: seq<int>, flagKeys: seq<string>, e: EvaluationEntity)
      returns (block: Option<seq<EvalResult>>)
      requires flagIDs == Unique(req.flagIDs) && flagKeys == Unique(req.flagKeys)
      ensures block.Some? ==> IsBlock(lib, cache, req, e, block.value)
      ensures block == None ==> CanCrash(lib, cache)
    {
      var tagged: seq<EvalResult> := [];
      if |req.flagTags| > 0 {
        var r := EvalFlagsByTags(lib, TagsContext(e, req.flagTags, req.flagTagsOperator));
        if r == None {
          return None;
        }
        tagged := r.value;
      }
      var byID: seq<EvalResult> := [];
      for i := 0 to |flagIDs|
        invariant IDResults(lib, cache, e, flagIDs[..i], byID)
      {
        var r := EvalFlag(lib, IDContext(e, flagIDs[i]));
        if r == Crashed {
          return None;
        }
        byID := byID + [r.result];
      }
      var byKey: seq<EvalResult> := [];
      for i := 0 to |flagKeys|
        invariant KeyResults(lib, cache, e, flagKeys[..i], byKey)
      {
        var r := EvalFlag(lib, KeyContext(e, flagKeys[i]));
        if r == Crashed {
          return None;
        }
        byKey := byKey + [r.result];
      }
      assert flagIDs[..|flagIDs|] == flagIDs && flagKeys[..|flagKeys|] == flagKeys;
      assert AreParts(lib, cache, req, e, tagged, byID, byKey);
      return Some(tagged + byID + byKey);
    }
  }

  /** After `i` tags, all of them known, the results are those of the first `i` tags. */
  ghost predicate IsAllSoFar(c: CacheContainer, tags: seq<string>, i: nat, results: map<nat, Flag>) {
    i <= |tags| && KnowsAll(c, tags[..i]) && results == TagsAll(c, tags[..i])
  }

  lemma FirstTag(c: CacheContainer, tags: seq<string>)
    requires tags != [] && tags[0] in c.tagCache
    ensures IsAllSoFar(c, tags, 1, c.tagCache[tags[0]])
  {
  }

  lemma NextTag(c: CacheContainer, tags: seq<string>, i: nat, results: map<nat, Flag>, kept: map<nat, Flag>)
    requires 0 < i < |tags| && IsAllSoFar(c, tags, i, results) && tags[i] in c.tagCache
    requires kept == map id | id in results && id in c.tagCache[tags[i]] :: results[id]
    ensures IsAllSoFar(c, tags, i + 1, kept)
  {
    var before, after := tags[..i], tags[..i + 1];
    assert forall j :: 0 <= j < i ==> before[j] == after[j];
    assert after[i] == tags[i] && after[0] == tags[0];
    forall id | id in c.tagCache[tags[0]]
      ensures UnderAll(c, after, id) <==> UnderAll(c, before, id) && id in c.tagCache[tags[i]]
    {
    }
  }

  lemma NoneLeft(c: CacheContainer, tags: seq<string>, i: nat)
    requires 0 < i <= |tags| && IsAllSoFar(c, tags, i, map[])
    ensures TagsAll(c, tags) == map[]
  {
    var part := tags[..i];
    assert part[0] == tags[0];
    if KnowsAll(c, tags) {
      forall id | id in c.tagCache[tags[0]]
        ensures !UnderAll(c, tags, id)
      {
        assert id !in TagsAll(c, part);
        var j :| 0 <= j < i && id !in c.tagCache[part[j]];
        assert part[j] == tags[j];
      }
    }
  }
}
