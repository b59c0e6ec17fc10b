/** The order in which a segment's distributions load, and what it is for: the same percentages
    give everybody the same variant however a request lists them, and changed ones reassign few. */
module DistributionOrder {
  import opened Entities
  import opened Bucketing
  import opened Shares
  import opened Preparation
  import opened Evaluation
  import opened Tables
  import opened Database
  import opened Handlers
  import opened Integrity
  import opened Frames
  import opened EditEffects
  import opened Ordering

  /** The distributions of a segment are loaded by variant, and by ID within a variant. */
  lemma DistributionsLoadInOrder(db: DB, segmentID: nat)
    ensures Ordered(LoadDistributions(db, segmentID), VariantIDOf, DistributionIDOf)
  {
    ChildrenAscend(db.distributions, segmentID, MakeDistribution, DistributionIDOf);
    SortByOrdered(Children(db.distributions, segmentID, MakeDistribution), VariantIDOf, DistributionIDOf);
  }

  ghost predicate IsRequested(bodies: seq<DistributionBody>, d: Distribution) {
    exists b :: b in bodies && Delivers(d, b)
  }

  ghost predicate IsLoaded(ds: seq<Distribution>, b: DistributionBody) {
    exists d :: d in ds && Delivers(d, b)
  }

  /** The loaded distributions are what the list asks for, by ascending variant. */
  ghost predicate Fulfils(ds: seq<Distribution>, bodies: seq<DistributionBody>) {
    && (forall i, j :: 0 <= i < j < |ds| ==> ds[i].variantID < ds[j].variantID)
    && (forall d :: d in ds ==> IsRequested(bodies, d))
    && (forall b :: b in bodies ==> IsLoaded(ds, b))
  }

  /** A request for distributions that is accepted and names each variant once. */
  ghost predicate Proper(db: DB, req: Request) {
    && req.PutDistributions? && InBounds(req) && AcceptsDistributions(db, req.flagID, req.distributions)
    && DistinctRequest(req.distributions)
  }

  lemma RequestIsFulfilled(lib: Library, db: DB, req: Request)
    requires Proper(db, req)
    ensures Fulfils(LoadDistributions(Step(lib, db, req), req.segmentID), req.distributions)
  {
    var ds := LoadDistributions(Step(lib, db, req), req.segmentID);
    DistributionsLoadInOrder(Step(lib, db, req), req.segmentID);
    LoadedIsDistinct(lib, db, req);
    forall i, j | 0 <= i < j < |ds|
      ensures ds[i].variantID < ds[j].variantID
    {
      assert Precedes(ds[i], ds[j], VariantIDOf, DistributionIDOf);
    }
    forall d | d in ds
      ensures IsRequested(req.distributions, d)
    {
      var j := LoadedIsRequested(lib, db, req, d);
      assert req.distributions[j] in req.distributions;
    }
    forall b | b in req.distributions
      ensures IsLoaded(ds, b)
    {
      var j :| 0 <= j < |req.distributions| && req.distributions[j] == b;
      var i := RequestedIsLoaded(lib, db, req, j);
      assert ds[i] in ds;
    }
  }

  /** Ascending lists of the same numbers are the same list. */
  lemma {:induction false} AscendingUnique(xs: seq<nat>, ys: seq<nat>)
    requires forall i, j :: 0 <= i < j < |xs| ==> xs[i] < xs[j]
    requires forall i, j :: 0 <= i < j < |ys| ==> ys[i] < ys[j]
    requires forall x :: x in xs <==> x in ys
    ensures xs == ys
  {
    assert xs != [] ==> xs[|xs| - 1] in ys;
    assert ys != [] ==> ys[|ys| - 1] in xs;
    if xs != [] && ys != [] {
      var x, xs', ys' := xs[|xs| - 1], xs[..|xs| - 1], ys[..|ys| - 1];
      assert ys[|ys| - 1] == x;
      forall n
        ensures n in xs' <==> n in ys'
      {
        assert n in xs <==> n in xs' || n == x;
        assert n in ys <==> n in ys' || n == x;
      }
      AscendingUnique(xs', ys');
      assert xs == xs' + [x] && ys == ys' + [x];
    }
  }

  function VariantsOf(ds: seq<Distribution>): seq<nat> {
    seq(|ds|, i requires 0 <= i < |ds| => ds[i].variantID)
  }

  ghost predicate Named(bodies: seq<DistributionBody>, v: int) {
    exists b :: b in bodies && b.variantID == v
  }

  /** Both lists name the same variants. */
  ghost predicate SameNames(bodies: seq<DistributionBody>, bodies': seq<DistributionBody>) {
    forall v :: Named(bodies, v) <==> Named(bodies', v)
  }

  lemma LoadedAreNamed(ds: seq<Distribution>, bodies: seq<DistributionBody>, v: nat)
    requires Fulfils(ds, bodies)
    ensures v in VariantsOf(ds) <==> Named(bodies, v)
  {
    if v in VariantsOf(ds) {
      var i :| 0 <= i < |ds| && VariantsOf(ds)[i] == v;
      assert IsRequested(bodies, ds[i]);
    }
    if b :| b in bodies && b.variantID == v {
      assert IsLoaded(ds, b);
      var d :| d in ds && Delivers(d, b);
      var i :| 0 <= i < |ds| && ds[i] == d;
      assert VariantsOf(ds)[i] == v;
    }
  }

  /** So requests that name the same variants load them in the same order, whatever theirs is. */
  lemma SameNamesSameVariants(ds: seq<Distribution>, bodies: seq<DistributionBody>,
                              es: seq<Distribution>, bodies': seq<DistributionBody>)
    requires Fulfils(ds, bodies) && Fulfils(es, bodies') && SameNames(bodies, bodies')
    ensures SameVariants(ds, es)
  {
    forall v: nat
      ensures v in VariantsOf(ds) <==> v in VariantsOf(es)
    {
      LoadedAreNamed(ds, bodies, v);
      LoadedAreNamed(es, bodies', v);
    }
    AscendingUnique(VariantsOf(ds), VariantsOf(es));
    SameListSameVariants(ds, es);
  }

  lemma SameListSameVariants(ds: seq<Distribution>, es: seq<Distribution>)
    requires VariantsOf(ds) == VariantsOf(es)
    ensures SameVariants(ds, es)
  {
    assert |VariantsOf(ds)| == |VariantsOf(es)|;
    forall i | 0 <= i < |ds|
      ensures ds[i].variantID == es[i].variantID
    {
      assert ds[i].variantID == VariantsOf(ds)[i] == VariantsOf(es)[i];
    }
  }

  // ----- the same bodies in another order -----

  /** The same bodies, in any order. */
  ghost predicate Reordered(bodies: seq<DistributionBody>, bodies': seq<DistributionBody>) {
    multiset(bodies) == multiset(bodies')
  }

  lemma ReorderedElements(bodies: seq<DistributionBody>, bodies': seq<DistributionBody>, b: DistributionBody)
    requires Reordered(bodies, bodies')
    ensures b in bodies <==> b in bodies'
  {
    assert b in multiset(bodies) <==> b in multiset(bodies');
  }

  lemma ReorderedSameNames(bodies: seq<DistributionBody>, bodies': seq<DistributionBody>)
    requires Reordered(bodies, bodies')
    ensures SameNames(bodies, bodies')
  {
    forall b
      ensures b in bodies <==> b in bodies'
    {
      ReorderedElements(bodies, bodies', b);
    }
  }

  lemma SameVariantSameBody(bodies: seq<DistributionBody>, b: DistributionBody, b': DistributionBody)
    requires DistinctRequest(bodies) && b in bodies && b' in bodies && b.variantID == b'.variantID
    ensures b == b'
  {
  }

  lemma SameBodiesSamePercents(ds: seq<Distribution>, bodies: seq<DistributionBody>,
                               es: seq<Distribution>, bodies': seq<DistributionBody>)
    requires Fulfils(ds, bodies) && Fulfils(es, bodies') && Reordered(bodies, bodies') && DistinctRequest(bodies)
    ensures SamePercents(ds, es)
  {
    ReorderedSameNames(bodies, bodies');
    SameNamesSameVariants(ds, bodies, es, bodies');
    forall i | 0 <= i < |ds|
      ensures ds[i].percent == es[i].percent
    {
      SameBodySamePercent(ds[i], bodies, es[i], bodies');
    }
  }

  lemma SameBodySamePercent(d: Distribution, bodies: seq<DistributionBody>,
                            e: Distribution, bodies': seq<DistributionBody>)
    requires IsRequested(bodies, d) && IsRequested(bodies', e) && d.variantID == e.variantID
    requires Reordered(bodies, bodies') && DistinctRequest(bodies)
    ensures d.percent == e.percent
  {
    var b :| b in bodies && Delivers(d, b);
    var b' :| b' in bodies' && Delivers(e, b');
    ReorderedElements(bodies, bodies', b');
    SameVariantSameBody(bodies, b, b');
  }

  // ----- everybody's answer -----

  lemma FilledSegment(lib: Library, db: DB, req: Request, flagID: nat, i: nat)
    requires req.PutDistributions? && i < |LoadSegments(db, flagID)|
    ensures var ss, ts := LoadSegments(db, flagID), LoadSegments(Step(lib, db, req), flagID);
            && |ts| == |ss|
            && ts[i] == ss[i].(distributions := LoadDistributions(Step(lib, db, req), ss[i].id))
  {
    FinishKeepsTables(EditOf(lib, db, req), req.flagID, req.subject);
    assert SegmentRows(Step(lib, db, req), flagID) == SegmentRows(db, flagID);
  }

  lemma AsManySegments(lib: Library, db: DB, req: Request, flagID: nat)
    requires req.PutDistributions?
    ensures |LoadSegments(Step(lib, db, req), flagID)| == |LoadSegments(db, flagID)|
  {
    FinishKeepsTables(EditOf(lib, db, req), req.flagID, req.subject);
    assert SegmentRows(Step(lib, db, req), flagID) == SegmentRows(db, flagID);
  }

  lemma OtherSegmentsKeepTheirs(lib: Library, db: DB, req: Request, segmentID: nat)
    requires req.PutDistributions? && segmentID != req.segmentID
    ensures LoadDistributions(Step(lib, db, req), segmentID) == LoadDistributions(db, segmentID)
  {
    var t, t' := db.distributions, Step(lib, db, req).distributions;
    FinishKeepsTables(EditOf(lib, db, req), req.flagID, req.subject);
    RowsOfOwner(t, req.segmentID);
    assert SameFor(t, t', segmentID);
    ChildrenSame(t, t', segmentID, MakeDistribution);
  }

  /** Every segment is rolled out by the same array after either request. */
  lemma SameArrays(lib: Library, db: DB, req: Request, req': Request, segmentID: nat)
    requires Proper(db, req) && Proper(db, req') && req'.segmentID == req.segmentID
    requires Reordered(req.distributions, req'.distributions)
    ensures ArrayOf(LoadDistributions(Step(lib, db, req), segmentID))
            == ArrayOf(LoadDistributions(Step(lib, db, req'), segmentID))
  {
    if segmentID == req.segmentID {
      var ds, es := LoadDistributions(Step(lib, db, req), segmentID), LoadDistributions(Step(lib, db, req'), segmentID);
      RequestIsFulfilled(lib, db, req);
      RequestIsFulfilled(lib, db, req');
      SameBodiesSamePercents(ds, req.distributions, es, req'.distributions);
      SamePercentsSameArray(ds, es);
    } else {
      OtherSegmentsKeepTheirs(lib, db, req, segmentID);
      OtherSegmentsKeepTheirs(lib, db, req', segmentID);
    }
  }

  lemma SameFlagBesides(lib: Library, db: DB, req: Request, flagID: nat)
    requires req.PutDistributions? && Exists(db.flags, flagID)
    ensures Exists(Step(lib, db, req).flags, flagID)
    ensures var f, g := Load(db, flagID), Load(Step(lib, db, req), flagID);
            g == f.(segments := g.segments, snapshotID := g.snapshotID, updatedBy := g.updatedBy)
  {
    FinishKeepsFlag(db, EditOf(lib, db, req), req.flagID, req.subject, flagID);
  }

  lemma SamePreparedSegments(lib: Library, db: DB, req: Request, req': Request, flagID: nat)
    requires Proper(db, req) && Proper(db, req') && req'.segmentID == req.segmentID
    requires Reordered(req.distributions, req'.distributions) && Exists(db.flags, flagID)
    ensures Exists(Step(lib, db, req).flags, flagID) && Exists(Step(lib, db, req').flags, flagID)
    ensures var f, g := Load(Step(lib, db, req), flagID), Load(Step(lib, db, req'), flagID);
            && |f.segments| == |g.segments|
            && forall i :: 0 <= i < |f.segments| ==>
                 && g.segments[i] == f.segments[i].(distributions := g.segments[i].distributions)
                 && SegmentEvaluationOf(lib, f.segments[i]) == SegmentEvaluationOf(lib, g.segments[i])
  {
    var n := |LoadSegments(db, flagID)|;
    AsManySegments(lib, db, req, flagID);
    AsManySegments(lib, db, req', flagID);
    SameFlagBesides(lib, db, req, flagID);
    SameFlagBesides(lib, db, req', flagID);
    forall i | 0 <= i < n
      ensures var s, t := LoadSegments(Step(lib, db, req), flagID)[i], LoadSegments(Step(lib, db, req'), flagID)[i];
              && t == s.(distributions := t.distributions)
              && SegmentEvaluationOf(lib, s) == SegmentEvaluationOf(lib, t)
    {
      FilledSegment(lib, db, req, flagID, i);
      FilledSegment(lib, db, req', flagID, i);
      SameArrays(lib, db, req, req', LoadSegments(db, flagID)[i].id);
    }
  }

  /** The order of a request does not matter: two accepted requests that list the same bodies, each variant
      once, leave every flag giving every entity the same answer. */
  lemma RequestOrderDoesNotMatter(lib: Library, db: DB, req: Request, req': Request, flagID: nat,
                                  ctx: EvalContext, random: nat)
    requires Proper(db, req) && Proper(db, req') && req'.segmentID == req.segmentID
    requires Reordered(req.distributions, req'.distributions) && Exists(db.flags, flagID)
    ensures Exists(Step(lib, db, req).flags, flagID) && Exists(Step(lib, db, req').flags, flagID)
    ensures var p := Prepare(lib, Load(Step(lib, db, req), flagID));
            var q := Prepare(lib, Load(Step(lib, db, req'), flagID));
            && (p.Some? <==> q.Some?)
            && (p.Some? ==> SameAnswer(EvaluateFlag(lib, p.value, ctx, random),
                                       EvaluateFlag(lib, q.value, ctx, random)))
  {
    SameFlagBesides(lib, db, req, flagID);
    SameFlagBesides(lib, db, req', flagID);
    SamePreparedSegments(lib, db, req, req', flagID);
    SameEvaluationsSameAnswer(lib, Load(Step(lib, db, req), flagID), Load(Step(lib, db, req'), flagID), ctx, random);
  }

  lemma SameEvaluationsSameAnswer(lib: Library, f: Flag, g: Flag, ctx: EvalContext, random: nat)
    requires g == f.(segments := g.segments, snapshotID := g.snapshotID, updatedBy := g.updatedBy)
    requires |f.segments| == |g.segments|
    requires forall i :: 0 <= i < |f.segments| ==>
               && g.segments[i] == f.segments[i].(distributions := g.segments[i].distributions)
               && SegmentEvaluationOf(lib, f.segments[i]) == SegmentEvaluationOf(lib, g.segments[i])
    ensures Prepare(lib, f).Some? <==> Prepare(lib, g).Some?
    ensures Prepare(lib, f).Some? ==>
              SameAnswer(EvaluateFlag(lib, Prepare(lib, f).value, ctx, random),
                         EvaluateFlag(lib, Prepare(lib, g).value, ctx, random))
  {
    if Preparable(lib, f) {
      var p, q := Prepare(lib, f).value, Prepare(lib, g).value;
      if p.segments != [] {
        var filled := FillContext(p, ctx, random);
        assert SameSegments(lib, p.id, filled, p.segments, q.segments);
        SameSegmentsDecideAlike(lib, p.id, filled, p.segments, q.segments);
        SameDecisionSameAnswer(lib, p, q, ctx, random);
      }
    }
  }

  // ----- changed percentages -----

  lemma FulfilledSum(lib: Library, db: DB, req: Request)
    requires Proper(db, req)
    ensures Sum(LoadDistributions(Step(lib, db, req), req.segmentID)) == 100
  {
    FinishKeepsTables(EditOf(lib, db, req), req.flagID, req.subject);
    ReplacedWeight(db.distributions, req.distributions, req.segmentID, req.segmentID);
    LoadedSum(Step(lib, db, req), req.segmentID);
  }

  lemma FulfilledLoads(lib: Library, db: DB, req: Request) returns (ds: seq<Distribution>)
    requires Proper(db, req)
    ensures ds == LoadDistributions(Step(lib, db, req), req.segmentID)
    ensures Fulfils(ds, req.distributions) && Sum(ds) == 100
  {
    ds := LoadDistributions(Step(lib, db, req), req.segmentID);
    RequestIsFulfilled(lib, db, req);
    FulfilledSum(lib, db, req);
  }

  /** At most as many buckets change hands as the boundaries between the variants moved, and with two variants
      exactly ten for each percent that one gave the other. */
  ghost predicate ReassignsFew(ds: seq<Distribution>, es: seq<Distribution>) {
    && SameVariants(ds, es) && |ds| >= 1
    && |Changed(ds, es)| <= Shift(ds, es, |ds| - 1)
    && (|ds| == 2 ==> |Changed(ds, es)| == 10 * Distance(ds[0].percent, es[0].percent))
  }

  lemma FulfilledReassignFew(ds: seq<Distribution>, bodies: seq<DistributionBody>,
                             es: seq<Distribution>, bodies': seq<DistributionBody>)
    requires Fulfils(ds, bodies) && Fulfils(es, bodies') && SameNames(bodies, bodies')
    requires Sum(ds) == Sum(es) == 100
    ensures ReassignsFew(ds, es)
  {
    SameNamesSameVariants(ds, bodies, es, bodies');
    ReassignmentStability(ds, es);
  }

  /** Consistent hashing, from request to request: when a later request names the same variants, in whatever
      order, few buckets change hands. */
  lemma RequestsReassignFew(lib: Library, db: DB, req: Request, db': DB, req': Request)
    requires Proper(db, req) && Proper(db', req') && SameNames(req.distributions, req'.distributions)
    ensures ReassignsFew(LoadDistributions(Step(lib, db, req), req.segmentID),
                         LoadDistributions(Step(lib, db', req'), req'.segmentID))
  {
    var ds := FulfilledLoads(lib, db, req);
    var es := FulfilledLoads(lib, db', req');
    FulfilledReassignFew(ds, req.distributions, es, req'.distributions);
  }
}
