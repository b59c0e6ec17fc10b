/** Batch and single evaluation agree: each result of a batch is what evaluating its flag alone
    answers for its entity. */
module Batches {
  import opened Entities
  import opened Evaluation
  import opened EvalCacheIndexes
  import opened EvalCacheService
  import opened Words

  /** The context is about the entity that was sent. */
  predicate IsAbout(ctx: EvalContext, e: EvaluationEntity) {
    ctx.entityID == e.entityID && ctx.entityType == e.entityType && ctx.entityContext == e.entityContext
  }

  lemma SameEntitySameEvaluation(lib: Library, f: Option<Flag>, ctx: EvalContext, ctx': EvalContext, r: EvalResult)
    requires SameEntity(ctx, ctx') && ctx.entityType == ctx'.entityType
    requires f == None ==> ctx.flagID == ctx'.flagID && ctx.flagKey == ctx'.flagKey
    requires Evaluates(lib, f, ctx, r)
    ensures Evaluates(lib, f, ctx', r)
  {
    var random: nat :| Evaluate(lib, f, ctx, random) == Evaluated(r);
    AnswerReadsTheEntity(lib, f, ctx, ctx', random);
  }

  /** A result for a flag ID is what asking for that ID alone, about that entity, answers. */
  lemma IDResultIsSingle(lib: Library, c: CacheContainer, e: EvaluationEntity, ids: seq<int>, rs: seq<EvalResult>,
                         i: nat, ctx: EvalContext)
    requires IDResults(lib, c, e, ids, rs) && i < |ids|
    requires IsAbout(ctx, e) && ctx.flagID == ids[i] && ctx.flagKey == ""
    ensures Evaluates(lib, LookupFlag(c, SafeUint(ctx.flagID), ctx.flagKey), ctx, rs[i])
  {
    var f := LookupFlag(c, SafeUint(ids[i]), "");
    SameEntitySameEvaluation(lib, f, IDContext(e, ids[i]), ctx, rs[i]);
  }

  /** A result for a flag key is what asking for that key alone, about that entity, answers. */
  lemma KeyResultIsSingle(lib: Library, c: CacheContainer, e: EvaluationEntity, keys: seq<string>, rs: seq<EvalResult>,
                          i: nat, ctx: EvalContext)
    requires KeyResults(lib, c, e, keys, rs) && i < |keys|
    requires IsAbout(ctx, e) && ctx.flagID == 0 && ctx.flagKey == keys[i]
    ensures Evaluates(lib, LookupFlag(c, SafeUint(ctx.flagID), ctx.flagKey), ctx, rs[i])
  {
    var f := LookupFlag(c, 0, keys[i]);
    SameEntitySameEvaluation(lib, f, KeyContext(e, keys[i]), ctx, rs[i]);
  }

  /** The results for the tags are one for each flag that the query selects, each what evaluating that flag
      alone, about that entity, answers. */
  lemma TagResultsAreSingle(lib: Library, c: CacheContainer, e: EvaluationEntity, tags: seq<string>,
                            operator: Option<string>, rs: seq<EvalResult>, ctx: EvalContext) returns (fs: seq<Flag>)
    requires TagResults(lib, c, TagsContext(e, tags, operator), rs) && IsAbout(ctx, e)
    ensures ListsValues(fs, TagQuery(c, tags, operator)) && EvaluatesAll(lib, fs, ctx, rs)
  {
    fs :| ListsValues(fs, TagQuery(c, tags, operator)) && EvaluatesAll(lib, fs, TagsContext(e, tags, operator), rs);
    forall i | 0 <= i < |fs|
      ensures Evaluates(lib, Some(fs[i]), ctx, rs[i])
    {
      SameEntitySameEvaluation(lib, Some(fs[i]), TagsContext(e, tags, operator), ctx, rs[i]);
    }
  }

  lemma OneEntity(lib: Library, c: CacheContainer, req: BatchRequest, rs: seq<EvalResult>)
    requires |req.entities| == 1 && IsBatch(lib, c, req, rs)
    ensures IsBlock(lib, c, req, req.entities[0], rs)
  {
    var blocks: seq<seq<EvalResult>> :| AreBlocks(lib, c, req, req.entities, blocks) && rs == Flatten(blocks);
    assert blocks[..0] == [] && Flatten(blocks) == blocks[0];
  }

  lemma UniqueOne<T>(x: T)
    ensures Unique([x]) == [x]
  {
    assert [x][..0] == [];
  }

  /** A batch of one entity and one flag ID answers as the single evaluation. */
  lemma BatchOfOneID(lib: Library, c: CacheContainer, req: BatchRequest, rs: seq<EvalResult>, ctx: EvalContext)
    requires |req.entities| == |req.flagIDs| == 1 && req.flagKeys == [] && req.flagTags == []
    requires IsBatch(lib, c, req, rs)
    requires IsAbout(ctx, req.entities[0]) && ctx.flagID == req.flagIDs[0] && ctx.flagKey == ""
    ensures |rs| == 1 && Evaluates(lib, LookupFlag(c, SafeUint(ctx.flagID), ctx.flagKey), ctx, rs[0])
  {
    OneEntity(lib, c, req, rs);
    UniqueOne(req.flagIDs[0]);
    assert req.flagIDs == [req.flagIDs[0]];
    IDResultIsSingle(lib, c, req.entities[0], Unique(req.flagIDs), rs, 0, ctx);
  }

  /** So does a batch of one entity and one flag key. */
  lemma BatchOfOneKey(lib: Library, c: CacheContainer, req: BatchRequest, rs: seq<EvalResult>, ctx: EvalContext)
    requires |req.entities| == |req.flagKeys| == 1 && req.flagIDs == [] && req.flagTags == []
    requires IsBatch(lib, c, req, rs)
    requires IsAbout(ctx, req.entities[0]) && ctx.flagID == 0 && ctx.flagKey == req.flagKeys[0]
    ensures |rs| == 1 && Evaluates(lib, LookupFlag(c, SafeUint(ctx.flagID), ctx.flagKey), ctx, rs[0])
  {
    OneEntity(lib, c, req, rs);
    UniqueOne(req.flagKeys[0]);
    assert req.flagKeys == [req.flagKeys[0]];
    KeyResultIsSingle(lib, c, req.entities[0], Unique(req.flagKeys), rs, 0, ctx);
  }

  /** And a batch of one entity and tags answers as the tagged evaluation. */
  lemma BatchOfTags(lib: Library, c: CacheContainer, req: BatchRequest, rs: seq<EvalResult>, ctx: EvalContext)
    requires |req.entities| == 1 && req.flagIDs == [] && req.flagKeys == [] && req.flagTags != []
    requires IsBatch(lib, c, req, rs)
    requires IsAbout(ctx, req.entities[0]) && ctx.flagTags == req.flagTags
    requires ctx.flagTagsOperator == req.flagTagsOperator
    ensures TagResults(lib, c, ctx, rs)
  {
    OneEntity(lib, c, req, rs);
    var fs := TagResultsAreSingle(lib, c, req.entities[0], req.flagTags, req.flagTagsOperator, rs, ctx);
  }

  lemma PartsAt<T>(xs: seq<T>, ys: seq<T>, zs: seq<T>, t: nat, n: nat)
    requires |xs| == t && |ys| == n
    ensures forall k :: 0 <= k < n ==> (xs + ys + zs)[t + k] == ys[k]
    ensures forall k :: 0 <= k < |zs| ==> (xs + ys + zs)[t + n + k] == zs[k]
  {
  }

  /** In a batch of any flags the results of an entity are, behind those for the tags, one for each different
      ID in order, each what asking for it alone answers. */
  lemma BlockAnswersIDs(lib: Library, c: CacheContainer, req: BatchRequest, e: EvaluationEntity, rs: seq<EvalResult>,
                        k: nat, ctx: EvalContext)
    requires IsBlock(lib, c, req, e, rs) && k < |Unique(req.flagIDs)|
    requires IsAbout(ctx, e) && ctx.flagID == Unique(req.flagIDs)[k] && ctx.flagKey == ""
    ensures TaggedSize(c, req) + k < |rs|
    ensures Evaluates(lib, LookupFlag(c, SafeUint(ctx.flagID), ctx.flagKey), ctx, rs[TaggedSize(c, req) + k])
  {
    var tagged, byID, byKey := BlockParts(lib, c, req, e, rs);
    PartsAt(tagged, byID, byKey, TaggedSize(c, req), |Unique(req.flagIDs)|);
    IDResultIsSingle(lib, c, e, Unique(req.flagIDs), byID, k, ctx);
  }

  /** And behind those, one for each different key in order. */
  lemma BlockAnswersKeys(lib: Library, c: CacheContainer, req: BatchRequest, e: EvaluationEntity, rs: seq<EvalResult>,
                         k: nat, ctx: EvalContext)
    requires IsBlock(lib, c, req, e, rs) && k < |Unique(req.flagKeys)|
    requires IsAbout(ctx, e) && ctx.flagID == 0 && ctx.flagKey == Unique(req.flagKeys)[k]
    ensures TaggedSize(c, req) + |Unique(req.flagIDs)| + k < |rs|
    ensures Evaluates(lib, LookupFlag(c, SafeUint(ctx.flagID), ctx.flagKey), ctx,
                      rs[TaggedSize(c, req) + |Unique(req.flagIDs)| + k])
  {
    var tagged, byID, byKey := BlockParts(lib, c, req, e, rs);
    PartsAt(tagged, byID, byKey, TaggedSize(c, req), |Unique(req.flagIDs)|);
    KeyResultIsSingle(lib, c, e, Unique(req.flagKeys), byKey, k, ctx);
  }

  /** A block lies behind the blocks before it. */
  lemma {:induction false} FlattenedBlock(blocks: seq<seq<EvalResult>>, i: nat)
    requires i < |blocks|
    ensures Flatten(blocks[..i]) + blocks[i] <= Flatten(blocks)
  {
    var init := blocks[..|blocks| - 1];
    if i < |init| {
      FlattenedBlock(init, i);
      assert init[..i] == blocks[..i];
      assert Flatten(blocks) == Flatten(init) + blocks[|blocks| - 1];
    }
  }

  lemma SliceAt<T>(xs: seq<T>, front: seq<T>, block: seq<T>, n: nat, size: nat)
    requires front + block <= xs && |front| == n && |block| == size
    ensures n + size <= |xs| && xs[n..n + size] == block
  {
    assert xs[..n + size] == front + block;
  }

  lemma BlockSizes(lib: Library, c: CacheContainer, req: BatchRequest,
                   es: seq<EvaluationEntity>, blocks: seq<seq<EvalResult>>)
    requires AreBlocks(lib, c, req, es, blocks)
    ensures forall k :: 0 <= k < |blocks| ==> |blocks[k]| == BlockSize(c, req)
  {
    forall k | 0 <= k < |blocks|
      ensures |blocks[k]| == BlockSize(c, req)
    {
      BlockHasBlockSize(lib, c, req, es[k], blocks[k]);
    }
  }

  lemma BlockAt(blocks: seq<seq<EvalResult>>, i: nat, size: nat, n: nat)
    requires (forall k :: 0 <= k < |blocks| ==> |blocks[k]| == size) && i < |blocks| && n == Product(i, size)
    ensures n + size <= |Flatten(blocks)| && Flatten(blocks)[n..n + size] == blocks[i]
  {
    FlattenSize(blocks[..i], size);
    FlattenedBlock(blocks, i);
    SliceAt(Flatten(blocks), Flatten(blocks[..i]), blocks[i], n, size);
  }

  lemma OneBlockBatch(lib: Library, c: CacheContainer, req: BatchRequest, e: EvaluationEntity, block: seq<EvalResult>)
    requires IsBlock(lib, c, req, e, block)
    ensures IsBatch(lib, c, req.(entities := [e]), block)
  {
    var one, req' := [block], req.(entities := [e]);
    assert IsBlock(lib, c, req', e, block);
    assert one[..0] == [] && Flatten(one) == block;
    assert AreBlocks(lib, c, req', req'.entities, one);
  }

  lemma BatchBlocks(lib: Library, c: CacheContainer, req: BatchRequest, rs: seq<EvalResult>)
    returns (blocks: seq<seq<EvalResult>>)
    requires IsBatch(lib, c, req, rs)
    ensures |blocks| == |req.entities| && rs == Flatten(blocks)
    ensures forall i :: 0 <= i < |blocks| ==> IsBlock(lib, c, req, req.entities[i], blocks[i])
    ensures forall i :: 0 <= i < |blocks| ==> |blocks[i]| == BlockSize(c, req)
  {
    blocks :| AreBlocks(lib, c, req, req.entities, blocks) && rs == Flatten(blocks);
    BlockSizes(lib, c, req, req.entities, blocks);
  }

  /** The results of one entity are those of a batch of that entity alone. */
  ghost predicate IsBatchOf(lib: Library, c: CacheContainer, req: BatchRequest, e: EvaluationEntity,
                            rs: seq<EvalResult>) {
    IsBatch(lib, c, req.(entities := [e]), rs)
  }

  /** Each entity of a batch gets the results of its own, at its own place `n`: the batch of many entities is
      the batches of each of them, one after the other. */
  lemma BatchIsEntityByEntity(lib: Library, c: CacheContainer, req: BatchRequest, rs: seq<EvalResult>,
                              i: nat, size: nat, n: nat)
    requires IsBatch(lib, c, req, rs) && i < |req.entities|
    requires size == BlockSize(c, req) && n == Product(i, size)
    ensures n + size <= |rs| && IsBatchOf(lib, c, req, req.entities[i], rs[n..n + size])
  {
    var blocks := BatchBlocks(lib, c, req, rs);
    BlockAt(blocks, i, size, n);
    OneBlockBatch(lib, c, req, req.entities[i], blocks[i]);
  }
}
