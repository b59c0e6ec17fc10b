/** Whole-run guarantees about distributions: no evaluation ever indexes out of range, the
    percentages stay exact, and every distribution agrees with its variant. */
module Agreement {
  import opened Entities
  import opened Bucketing
  import opened Preparation
  import opened Evaluation
  import opened Tables
  import opened Database
  import opened Handlers
  import opened Integrity

  // ----- the percentages over whole runs -----

  lemma InitTail<T>(xs: seq<T>)
    requires xs != []
    ensures forall i :: 0 <= i < |xs| - 1 ==> xs[..|xs| - 1][i] == xs[i] && xs[..|xs| - 1][..i] == xs[..i]
  {
  }

  lemma {:induction false} ExecuteKeepsSumsReach(lib: Library, reqs: seq<Request>)
    requires AllInBounds(reqs)
    ensures SumsReach(Execute(lib, reqs)) && RolloutsBounded(Execute(lib, reqs))
  {
    if reqs != [] {
      var init, last := reqs[..|reqs| - 1], reqs[|reqs| - 1];
      ExecuteKeepsSumsReach(lib, init);
      StepKeepsSumsReach(lib, Execute(lib, init), last);
      StepKeepsRollouts(lib, Execute(lib, init), last);
    }
  }

  /** An accepted template creation whose segment will take the ID that live distributions wait under. */
  ghost predicate TemplateAdopts(db: DB, req: Request) {
    && req.CreateFlag? && req.template == SIMPLE_BOOLEAN_FLAG && EditCreateFlag(db, req).Saved?
    && Occupied(db.distributions, |db.segments| + 1)
  }

  /** The only way to leave the exact sums: every other request keeps them, and this one never does. */
  lemma StepKeepsSumsExactly(lib: Library, db: DB, req: Request)
    requires SumsExact(db) && InBounds(req)
    ensures SumsExact(Step(lib, db, req)) <==> !TemplateAdopts(db, req)
  {
    var t, t', next := db.distributions, Step(lib, db, req).distributions, |db.segments| + 1;
    FinishKeepsTables(EditOf(lib, db, req), FlagOf(db, req), SubjectOf(req));
    if TemplateAdopts(db, req) {
      AppendedWeight(t, TemplateRow(db), next);
      assert Occupied(t', next) && Weight(t', next) == 200;
    } else {
      forall s: nat | Occupied(t', s)
        ensures Weight(t', s) == 100
      {
        StepWeighs(lib, db, req, s);
      }
    }
  }

  lemma StepWeighs(lib: Library, db: DB, req: Request, s: nat)
    requires SumsExact(db) && InBounds(req) && !TemplateAdopts(db, req)
    requires Occupied(Result(EditOf(lib, db, req)).distributions, s)
    ensures Weight(Result(EditOf(lib, db, req)).distributions, s) == 100
  {
    EditWeights(lib, db, req, s);
    if !Occupied(db.distributions, s) {
      assert forall i :: 0 <= i < |db.distributions| ==> PercentAt(db.distributions[i], s) == 0;
      WeightZero(db.distributions, s);
    }
  }

  /** No template creation of the run adopts waiting distributions. */
  ghost predicate NoneAdopts(lib: Library, reqs: seq<Request>) {
    forall n :: 0 <= n < |reqs| ==> !TemplateAdopts(Execute(lib, reqs[..n]), reqs[n])
  }

  /** The live distributions of every segment are absent or sum to exactly 100 all along the run. */
  ghost predicate ExactThroughout(lib: Library, reqs: seq<Request>) {
    forall n :: 0 <= n <= |reqs| ==> SumsExact(Execute(lib, reqs[..n]))
  }

  /** Whole-run distribution invariant, exactly: the live distributions of every segment are absent
      or sum to exactly 100 throughout a run if and only if no template flag is created while
      distributions wait under the next segment ID. */
  lemma {:induction false} SumsExactThroughout(lib: Library, reqs: seq<Request>)
    requires AllInBounds(reqs)
    ensures ExactThroughout(lib, reqs) <==> NoneAdopts(lib, reqs)
  {
    if reqs != [] {
      var init, last := reqs[..|reqs| - 1], reqs[|reqs| - 1];
      SumsExactThroughout(lib, init);
      LastPrefix(lib, reqs);
      LastAdopts(lib, reqs);
      if SumsExact(Execute(lib, init)) {
        StepKeepsSumsExactly(lib, Execute(lib, init), last);
      }
    }
  }

  lemma SamePrefixes<T>(xs: seq<T>)
    requires xs != []
    ensures var init := xs[..|xs| - 1];
            && xs[..|xs|] == xs && init[..|init|] == init
            && forall n :: 0 <= n <= |init| ==> init[..n] == xs[..n]
  {
  }

  lemma LastPrefix(lib: Library, reqs: seq<Request>)
    requires reqs != []
    ensures var init := reqs[..|reqs| - 1];
            && (ExactThroughout(lib, reqs) <==> ExactThroughout(lib, init) && SumsExact(Execute(lib, reqs)))
            && (ExactThroughout(lib, init) ==> SumsExact(Execute(lib, init)))
  {
    SamePrefixes(reqs);
    var init := reqs[..|reqs| - 1];
    if ExactThroughout(lib, init) && SumsExact(Execute(lib, reqs)) {
      forall n | 0 <= n <= |reqs|
        ensures SumsExact(Execute(lib, reqs[..n]))
      {
        assert n < |reqs| ==> SumsExact(Execute(lib, init[..n]));
      }
    }
    if ExactThroughout(lib, reqs) {
      forall n | 0 <= n <= |init|
        ensures SumsExact(Execute(lib, init[..n]))
      {
        assert SumsExact(Execute(lib, reqs[..n]));
      }
      assert SumsExact(Execute(lib, reqs[..|reqs|]));
    }
    if ExactThroughout(lib, init) {
      assert SumsExact(Execute(lib, init[..|init|]));
    }
  }

  lemma LastAdopts(lib: Library, reqs: seq<Request>)
    requires reqs != []
    ensures var init, last := reqs[..|reqs| - 1], reqs[|reqs| - 1];
            NoneAdopts(lib, reqs) <==> NoneAdopts(lib, init) && !TemplateAdopts(Execute(lib, init), last)
  {
    SamePrefixes(reqs);
    var init := reqs[..|reqs| - 1];
    if NoneAdopts(lib, reqs) {
      forall n | 0 <= n < |init|
        ensures !TemplateAdopts(Execute(lib, init[..n]), init[n])
      {
        assert !TemplateAdopts(Execute(lib, reqs[..n]), reqs[n]);
      }
      assert !TemplateAdopts(Execute(lib, reqs[..|init|]), reqs[|init|]);
    }
    if NoneAdopts(lib, init) && !TemplateAdopts(Execute(lib, init), reqs[|init|]) {
      forall n | 0 <= n < |reqs|
        ensures !TemplateAdopts(Execute(lib, reqs[..n]), reqs[n])
      {
        assert n < |init| ==> !TemplateAdopts(Execute(lib, init[..n]), init[n]);
      }
    }
  }

  /** Every PutDistributions names an existing segment when it arrives. */
  predicate AllNameSegments(lib: Library, reqs: seq<Request>) {
    forall i :: 0 <= i < |reqs| ==> NamesSegment(Execute(lib, reqs[..i]), reqs[i])
  }

  lemma StepKeepsSumsExact(lib: Library, db: DB, req: Request)
    requires SumsExact(db) && OwnersExist(db) && InBounds(req) && NamesSegment(db, req)
    ensures SumsExact(Step(lib, db, req)) && OwnersExist(Step(lib, db, req))
  {
    FinishKeepsTables(EditOf(lib, db, req), FlagOf(db, req), SubjectOf(req));
    EditKeepsOwners(lib, db, req);
    StepKeepsSumsExactly(lib, db, req);
  }

  /** So it is enough that every PutDistributions names an existing segment: then nothing ever waits. */
  lemma {:induction false} ExecuteKeepsSumsExact(lib: Library, reqs: seq<Request>)
    requires AllInBounds(reqs) && AllNameSegments(lib, reqs)
    ensures SumsExact(Execute(lib, reqs)) && OwnersExist(Execute(lib, reqs))
  {
    if reqs != [] {
      var init, last := reqs[..|reqs| - 1], reqs[|reqs| - 1];
      InitTail(reqs);
      forall i | 0 <= i < |init|
        ensures NamesSegment(Execute(lib, init[..i]), init[i])
      {
        assert NamesSegment(Execute(lib, reqs[..i]), reqs[i]);
      }
      ExecuteKeepsSumsExact(lib, init);
      assert NamesSegment(Execute(lib, reqs[..|reqs| - 1]), reqs[|reqs| - 1]);
      StepKeepsSumsExact(lib, Execute(lib, init), last);
    }
  }

  // ----- no evaluation crashes -----

  lemma SegmentNeverPanics(lib: Library, db: DB, flagID: nat, i: nat, entityID: string, salt: string)
    requires SumsReach(db) && RolloutsBounded(db) && i < |LoadSegments(db, flagID)|
    ensures var s := LoadSegments(db, flagID)[i];
            Rollout(lib, ArrayOf(s.distributions), entityID, salt, s.rolloutPercent) != Panic
  {
    var s := LoadSegments(db, flagID)[i];
    LoadedSegment(db, flagID, i);
    LoadedSum(db, s.id);
    RolloutPanicsExactly(lib, s.distributions, entityID, salt, s.rolloutPercent);
  }

  lemma FlagNeverCrashes(lib: Library, db: DB, flagID: nat, p: Flag, ctx: EvalContext, random: nat)
    requires SumsReach(db) && RolloutsBounded(db) && Exists(db.flags, flagID)
    requires Prepare(lib, Load(db, flagID)) == Some(p)
    ensures EvaluateFlag(lib, p, ctx, random).Evaluated?
  {
    if p.enabled && p.segments != [] {
      var filled := FillContext(p, ctx, random);
      var k := FirstMatch(lib, filled, p.segments);
      if k < |p.segments| {
        SegmentNeverPanics(lib, db, flagID, k, filled.entityID, Text.Decimal(p.id));
      }
    }
  }

  /** Whole-run safety: after any sequence of requests within the schema's bounds, whatever
      they address, evaluating any flag as loaded and prepared never indexes out of range,
      for any entity. */
  lemma EvaluationNeverCrashes(lib: Library, reqs: seq<Request>, flagID: nat, ctx: EvalContext, random: nat)
    requires AllInBounds(reqs) && Exists(Execute(lib, reqs).flags, flagID)
    ensures var prepared := Prepare(lib, Load(Execute(lib, reqs), flagID));
            prepared.Some? ==> EvaluateFlag(lib, prepared.value, ctx, random).Evaluated?
  {
    ExecuteKeepsSumsReach(lib, reqs);
    var prepared := Prepare(lib, Load(Execute(lib, reqs), flagID));
    if prepared.Some? {
      FlagNeverCrashes(lib, Execute(lib, reqs), flagID, prepared.value, ctx, random);
    }
  }

  // ----- a run that breaks the exact sums -----

  const TEMPLATE_FLAG: Request := CreateFlag("", "first", "", SIMPLE_BOOLEAN_FLAG, "")
  const NEXT_TEMPLATE_FLAG: Request := CreateFlag("", "second", "", SIMPLE_BOOLEAN_FLAG, "")
  const STRAY_DISTRIBUTIONS: Request := PutDistributions(1, 2, [DistributionBody(1, "on", Some(100))], "")

  lemma OneTemplate(lib: Library)
    ensures var db := Execute(lib, [TEMPLATE_FLAG]);
            && LiveFlag(db, 1) && |db.flags| == 1 && db.flags[0].key == "first"
            && db.segments == [Row(1, true, SegmentData("", SEGMENT_DEFAULT_RANK, 100))] && db.constraints == []
            && db.variants == [Row(1, true, VariantData("on", map[]))]
            && db.distributions == [Row(1, true, DistributionData(1, "on", 100))]
  {
    assert [TEMPLATE_FLAG][..0] == [];
  }

  lemma StrayIsAccepted(db: DB)
    requires LiveFlag(db, 1) && db.variants == [Row(1, true, VariantData("on", map[]))]
    ensures AcceptsDistributions(db, 1, STRAY_DISTRIBUTIONS.distributions)
  {
    var ds := STRAY_DISTRIBUTIONS.distributions;
    assert ds[..0] == [] && SumOfPercents(ds) == 100;
    assert NamesVariant(db, 1, ds[0]);
  }

  lemma TemplateAndStray(lib: Library)
    ensures var db := Execute(lib, [TEMPLATE_FLAG, STRAY_DISTRIBUTIONS]);
            && |db.flags| == 1 && db.flags[0].key == "first" && |db.segments| == 1 && |db.variants| == 1
            && db.distributions
               == [Row(1, true, DistributionData(1, "on", 100)), Row(2, true, DistributionData(1, "on", 100))]
  {
    assert [TEMPLATE_FLAG, STRAY_DISTRIBUTIONS][..1] == [TEMPLATE_FLAG];
    OneTemplate(lib);
    StrayAdded(lib, Execute(lib, [TEMPLATE_FLAG]));
  }

  lemma StrayAdded(lib: Library, db: DB)
    requires LiveFlag(db, 1) && db.variants == [Row(1, true, VariantData("on", map[]))]
    requires db.distributions == [Row(1, true, DistributionData(1, "on", 100))]
    ensures var db' := Step(lib, db, STRAY_DISTRIBUTIONS);
            && |db'.flags| == |db.flags| && db'.flags[0].key == db.flags[0].key && db'.segments == db.segments
            && db'.variants == db.variants
            && db'.distributions == db.distributions + [Row(2, true, DistributionData(1, "on", 100))]
  {
    StrayIsAccepted(db);
    RowsOfOwner(db.distributions, 2);
    assert Kill(db.distributions, RowsOf(db.distributions, 2)) == db.distributions;
    FinishKeepsTables(EditOf(lib, db, STRAY_DISTRIBUTIONS), 1, "");
  }

  /** Distributions put under a segment ID that does not exist yet are adopted by the segment
      that later takes the ID: a template flag then starts with a sum of 200. */
  lemma StrayDistributionsDouble(lib: Library)
    ensures AllInBounds([TEMPLATE_FLAG, STRAY_DISTRIBUTIONS, NEXT_TEMPLATE_FLAG])
    ensures var db := Execute(lib, [TEMPLATE_FLAG, STRAY_DISTRIBUTIONS, NEXT_TEMPLATE_FLAG]);
            Live(db.segments, 2) && Weight(db.distributions, 2) == 200 && !SumsExact(db)
  {
    assert [TEMPLATE_FLAG, STRAY_DISTRIBUTIONS, NEXT_TEMPLATE_FLAG][..2] == [TEMPLATE_FLAG, STRAY_DISTRIBUTIONS];
    TemplateAndStray(lib);
    TemplateAddsUp(lib, Execute(lib, [TEMPLATE_FLAG, STRAY_DISTRIBUTIONS]));
  }

  /** The template adds its 100 percent to whatever waits under the next segment ID. */
  lemma TemplateAddsUp(lib: Library, db: DB)
    requires |db.flags| == 1 && db.flags[0].key == "first" && |db.segments| == 1
    requires db.distributions
             == [Row(1, true, DistributionData(1, "on", 100)), Row(2, true, DistributionData(1, "on", 100))]
    ensures var db' := Step(lib, db, NEXT_TEMPLATE_FLAG);
            Live(db'.segments, 2) && Weight(db'.distributions, 2) == 200 && !SumsExact(db')
  {
    var edit := EditOf(lib, db, NEXT_TEMPLATE_FLAG);
    assert "first" != "second" by { assert "first"[0] != "second"[0]; }
    FinishKeepsTables(edit, 2, "");
    var t := db.distributions;
    var last := Row(2, true, DistributionData(|db.variants| + 1, "on", 100));
    assert edit.db.distributions == t + [last];
    WeightOfTwo(t[0], t[1], 2);
    AppendedWeight(t, last, 2);
    assert Visible(t[1], 2);
  }

  lemma WeightOfTwo(r: Row<DistributionData>, r': Row<DistributionData>, s: nat)
    ensures Weight([r, r'], s) == PercentAt(r, s) + PercentAt(r', s)
  {
    AppendedWeight([], r, s);
    AppendedWeight([r], r', s);
    assert [] + [r] == [r] && [r] + [r'] == [r, r'];
  }

  // ----- distributions agree with their variants -----

  /** A row that agrees with a variant of the flag lies in a segment of the flag. */
  lemma AgreesWithOwner(db: DB, r: Row<DistributionData>, flagID: nat)
    requires Agrees(db, r) && Owned(db.variants, r.data.variantID, flagID)
    ensures Owned(db.segments, r.owner, flagID)
  {
  }

  /** A row that outlives a successful check is not one of the variant in a live segment. */
  lemma SurvivorIsElsewhere(db: DB, flagID: nat, variantID: nat, id: nat)
    requires Live(db.distributions, id) && db.distributions[id - 1].data.variantID == variantID
    requires Owned(db.segments, db.distributions[id - 1].owner, flagID)
    requires AllZero(Visited(LoadSegments(db, flagID), variantID))
    requires id !in Doomed(Visited(LoadSegments(db, flagID), variantID))
    ensures !db.segments[db.distributions[id - 1].owner - 1].live
  {
    if Live(db.segments, db.distributions[id - 1].owner) {
      VisitsEverything(db, flagID, variantID, id);
    }
  }

  /** No live row of the variant is left in a live segment. */
  ghost predicate Unused(db: DB, variantID: nat) {
    forall i :: 0 <= i < |db.distributions| ==> UnusedAt(db, variantID, db.distributions[i])
  }

  ghost predicate UnusedAt(db: DB, variantID: nat, r: Row<DistributionData>) {
    r.live && r.data.variantID == variantID && Exists(db.segments, r.owner) ==> !db.segments[r.owner - 1].live
  }

  lemma CheckedIsUnused(db: DB, flagID: nat, variantID: nat)
    requires KeysAgree(db) && (Exists(db.variants, variantID) ==> Owned(db.variants, variantID, flagID))
    requires AllZero(Visited(LoadSegments(db, flagID), variantID))
    ensures var doomed := Doomed(Visited(LoadSegments(db, flagID), variantID));
            Unused(db.(distributions := Kill(db.distributions, doomed)), variantID)
  {
    var doomed := Doomed(Visited(LoadSegments(db, flagID), variantID));
    var checked := db.(distributions := Kill(db.distributions, doomed));
    forall i | 0 <= i < |checked.distributions|
      ensures UnusedAt(checked, variantID, checked.distributions[i])
    {
      var r := db.distributions[i];
      if r.live && i + 1 !in doomed && r.data.variantID == variantID {
        AgreesWithOwner(db, r, flagID);
        SurvivorIsElsewhere(db, flagID, variantID, i + 1);
      }
    }
  }

  lemma KillingKeepsKeys(db: DB, ids: set<nat>)
    requires KeysAgree(db)
    ensures KeysAgree(db.(distributions := Kill(db.distributions, ids)))
  {
    var db' := db.(distributions := Kill(db.distributions, ids));
    forall i | 0 <= i < |db'.distributions| && db'.distributions[i].live
      ensures Agrees(db', db'.distributions[i])
    {
      assert Agrees(db, db.distributions[i]);
    }
  }

  lemma KillingVariantKeepsKeys(db: DB, variantID: nat)
    requires KeysAgree(db)
    requires Unused(db, variantID)
    ensures KeysAgree(db.(variants := Kill(db.variants, {variantID})))
  {
    var db' := db.(variants := Kill(db.variants, {variantID}));
    forall i | 0 <= i < |db'.distributions| && db'.distributions[i].live
      ensures Agrees(db', db'.distributions[i])
    {
      assert Agrees(db, db.distributions[i]) && UnusedAt(db, variantID, db.distributions[i]);
    }
  }

  lemma DeleteVariantKeepsKeys(db: DB, req: Request)
    requires req.DeleteVariant? && KeysAgree(db) && WellAddressed(db, req)
    ensures KeysAgree(Result(EditDeleteVariant(db, req)))
  {
    if LiveFlag(db, req.flagID) {
      var visited := Visited(LoadSegments(db, req.flagID), req.variantID);
      var checked := db.(distributions := Kill(db.distributions, Doomed(visited)));
      KillingKeepsKeys(db, Doomed(visited));
      if AllZero(visited) {
        CheckedIsUnused(db, req.flagID, req.variantID);
        KillingVariantKeepsKeys(checked, req.variantID);
      }
    }
  }

  lemma PutDistributionsKeepsKeys(db: DB, req: Request)
    requires req.PutDistributions? && KeysAgree(db) && WellAddressed(db, req) && InBounds(req)
    ensures KeysAgree(Result(EditPutDistributions(db, req)))
  {
    var db' := Result(EditPutDistributions(db, req));
    if AcceptsDistributions(db, req.flagID, req.distributions) {
      forall i | 0 <= i < |db'.distributions| && db'.distributions[i].live
        ensures Agrees(db', db'.distributions[i])
      {
        if i < |db.distributions| {
          assert Agrees(db, db.distributions[i]);
        } else {
          assert NamesVariant(db, req.flagID, req.distributions[i - |db.distributions|]);
        }
      }
    }
  }

  lemma PutVariantKeepsKeys(db: DB, req: Request)
    requires req.PutVariant? && KeysAgree(db)
    ensures KeysAgree(Result(EditPutVariant(db, req)))
  {
    var db' := Result(EditPutVariant(db, req));
    forall i | 0 <= i < |db'.distributions| && db'.distributions[i].live
      ensures Agrees(db', db'.distributions[i])
    {
      assert Agrees(db, db.distributions[i]);
    }
  }

  /** The other handlers keep every distribution they find, the owner of every segment and
      variant, and the key and life of every variant. */
  lemma OthersKeepKeys(lib: Library, db: DB, req: Request)
    requires KeysAgree(db)
    requires !req.DeleteVariant? && !req.PutDistributions? && !req.PutVariant?
    ensures KeysAgree(Result(EditOf(lib, db, req)))
  {
    var db' := Result(EditOf(lib, db, req));
    forall i | 0 <= i < |db.distributions| && db.distributions[i].live
      ensures Agrees(db', db.distributions[i])
    {
      assert Agrees(db, db.distributions[i]);
    }
    assert forall i :: 0 <= i < |db.distributions| ==> db'.distributions[i] == db.distributions[i];
  }

  lemma StepKeepsKeys(lib: Library, db: DB, req: Request)
    requires KeysAgree(db) && WellAddressed(db, req) && InBounds(req)
    ensures KeysAgree(Step(lib, db, req))
  {
    FinishKeepsTables(EditOf(lib, db, req), FlagOf(db, req), SubjectOf(req));
    match req {
      case DeleteVariant(_, _, _) => DeleteVariantKeepsKeys(db, req);
      case PutDistributions(_, _, _, _) => PutDistributionsKeepsKeys(db, req);
      case PutVariant(_, _, _, _, _) => PutVariantKeepsKeys(db, req);
      case _ => OthersKeepKeys(lib, db, req);
    }
    var db1, db2 := Result(EditOf(lib, db, req)), Step(lib, db, req);
    forall i | 0 <= i < |db2.distributions| && db2.distributions[i].live
      ensures Agrees(db2, db2.distributions[i])
    {
      assert Agrees(db1, db1.distributions[i]);
    }
  }

  lemma WellAddressedInit(lib: Library, reqs: seq<Request>)
    requires reqs != [] && AllWellAddressed(lib, reqs)
    ensures AllWellAddressed(lib, reqs[..|reqs| - 1])
    ensures WellAddressed(Execute(lib, reqs[..|reqs| - 1]), reqs[|reqs| - 1])
  {
    var init := reqs[..|reqs| - 1];
    InitTail(reqs);
    forall i | 0 <= i < |init|
      ensures WellAddressed(Execute(lib, init[..i]), init[i])
    {
      assert WellAddressed(Execute(lib, reqs[..i]), reqs[i]);
    }
  }

  lemma OneMore(lib: Library, reqs: seq<Request>, req: Request)
    ensures Execute(lib, reqs + [req]) == Step(lib, Execute(lib, reqs), req)
    ensures AllWellAddressed(lib, reqs) && WellAddressed(Execute(lib, reqs), req) ==>
            AllWellAddressed(lib, reqs + [req])
    ensures AllInBounds(reqs) && InBounds(req) ==> AllInBounds(reqs + [req])
  {
    assert (reqs + [req])[..|reqs|] == reqs;
    assert forall i :: 0 <= i <= |reqs| ==> (reqs + [req])[..i] == reqs[..i];
  }

  /** Everything about distributions that well-addressed requests keep. */
  ghost predicate Sound(db: DB) {
    SumsExact(db) && OwnersExist(db) && RolloutsBounded(db) && KeysAgree(db)
  }

  lemma StepKeepsSound(lib: Library, db: DB, req: Request)
    requires Sound(db) && InBounds(req) && WellAddressed(db, req)
    ensures Sound(Step(lib, db, req))
  {
    StepKeepsSumsExact(lib, db, req);
    StepKeepsRollouts(lib, db, req);
    StepKeepsKeys(lib, db, req);
  }

  lemma {:induction false} ExecuteKeepsSound(lib: Library, reqs: seq<Request>)
    requires AllInBounds(reqs) && AllWellAddressed(lib, reqs)
    ensures Sound(Execute(lib, reqs))
  {
    if reqs != [] {
      WellAddressedInit(lib, reqs);
      ExecuteKeepsSound(lib, reqs[..|reqs| - 1]);
      StepKeepsSound(lib, Execute(lib, reqs[..|reqs| - 1]), reqs[|reqs| - 1]);
    }
  }

  lemma VariantIDsDistinct(db: DB, flagID: nat)
    ensures Preparation.DistinctIDs(LoadVariants(db, flagID))
  {
    ChildrenAscend(db.variants, flagID, MakeVariant, VariantID);
    var vs := LoadVariants(db, flagID);
    forall i, j | 0 <= i < j < |vs|
      ensures vs[i].id != vs[j].id
    {
      assert VariantID(vs[i]) < VariantID(vs[j]);
    }
  }

  function VariantID(v: Variant): nat { v.id }

  /** The variant map of a loaded flag holds exactly its live variants. */
  lemma VariantsMapOfLoaded(db: DB, flagID: nat, id: nat)
    ensures var m := VariantsMap(LoadVariants(db, flagID));
            && (id in m <==> Live(db.variants, id) && Owned(db.variants, id, flagID))
            && (id in m ==> m[id] == MakeVariant(id, db.variants[id - 1]))
  {
    var vs := LoadVariants(db, flagID);
    VariantsMapFinds(vs, id);
    VariantIDsDistinct(db, flagID);
    if id in VariantsMap(vs) {
      var rowID := ChildRow(db.variants, flagID, MakeVariant, VariantsMap(vs)[id]);
    }
    if Live(db.variants, id) && Owned(db.variants, id, flagID) {
      RowChild(db.variants, flagID, MakeVariant, id);
      var i :| 0 <= i < |vs| && vs[i] == MakeVariant(id, db.variants[id - 1]);
    }
  }

  /** Every distribution that a flag loads names a live variant of the flag by its current key. */
  lemma LoadedDistributionAgrees(db: DB, flagID: nat, i: nat, d: Distribution)
    requires KeysAgree(db) && i < |LoadSegments(db, flagID)| && d in LoadSegments(db, flagID)[i].distributions
    ensures var m := VariantsMap(LoadVariants(db, flagID));
            d.variantID >= 1 && d.variantID in m && m[d.variantID].key == d.variantKey
  {
    LoadedSegment(db, flagID, i);
    LoadedRow(db, LoadSegments(db, flagID)[i].id, d);
    assert Agrees(db, db.distributions[d.id - 1]);
    VariantsMapOfLoaded(db, flagID, d.variantID);
  }

  lemma {:induction false} AssignedIsListed(lib: Library, ds: seq<Distribution>, bucket: nat, r: nat)
    requires Walk(ds, bucket, r).Assigned?
    ensures exists d :: d in ds && d.variantID == Walk(ds, bucket, r).variantID && d.percent > 0
  {
    if bucket < Width(ds[0]) {
      assert ds[0] in ds;
    } else {
      AssignedIsListed(lib, ds[1..], bucket - Width(ds[0]), r);
      var d :| d in ds[1..] && d.variantID == Walk(ds, bucket, r).variantID && d.percent > 0;
      assert d in ds;
    }
  }

  lemma AssignedFromSegment(lib: Library, db: DB, flagID: nat, k: nat, entityID: string, salt: string)
    returns (d: Distribution)
    requires Sound(db) && k < |LoadSegments(db, flagID)|
    requires var s := LoadSegments(db, flagID)[k];
             Rollout(lib, ArrayOf(s.distributions), entityID, salt, s.rolloutPercent).Assigned?
    ensures var s := LoadSegments(db, flagID)[k];
            && d in s.distributions && d.percent > 0
            && Rollout(lib, ArrayOf(s.distributions), entityID, salt, s.rolloutPercent) == Assigned(d.variantID)
  {
    var s := LoadSegments(db, flagID)[k];
    LoadedSegment(db, flagID, k);
    LoadedSum(db, s.id);
    var bucket := Crc32Num(lib, entityID, salt);
    RolloutRefinesWalk(s.distributions, bucket, s.rolloutPercent);
    AssignedIsListed(lib, s.distributions, bucket, s.rolloutPercent);
    d :| d in s.distributions && d.variantID == Walk(s.distributions, bucket, s.rolloutPercent).variantID
        && d.percent > 0;
  }

  /** What an evaluation may report: no variant, or a live variant of the flag with a positive
      percentage in the deciding segment, under the variant's current key and attachment. */
  ghost predicate ReportsCurrentVariant(db: DB, flagID: nat, r: EvalResult) {
    r.variantID == 0
    || (&& Live(db.variants, r.variantID) && Owned(db.variants, r.variantID, flagID)
        && r.variantKey == db.variants[r.variantID - 1].data.key
        && r.variantAttachment == db.variants[r.variantID - 1].data.attachment
        && exists i, d :: DecidedBy(db, flagID, i, d, r))
  }

  ghost predicate DecidedBy(db: DB, flagID: nat, i: nat, d: Distribution, r: EvalResult) {
    && i < |LoadSegments(db, flagID)|
    && LoadSegments(db, flagID)[i].id == r.segmentID
    && d in LoadSegments(db, flagID)[i].distributions
    && d.variantID == r.variantID && d.variantKey == r.variantKey && d.percent > 0
  }

  lemma AnswerReports(db: DB, flagID: nat, p: Flag, ctx: EvalContext, i: nat, d: Distribution)
    requires Sound(db) && i < |LoadSegments(db, flagID)| && d in LoadSegments(db, flagID)[i].distributions
    requires d.percent > 0 && p.variantsMap == VariantsMap(LoadVariants(db, flagID))
    ensures ReportsCurrentVariant(db, flagID, Answer(p, ctx, LoadSegments(db, flagID)[i].id, d.variantID))
  {
    LoadedDistributionAgrees(db, flagID, i, d);
    VariantsMapOfLoaded(db, flagID, d.variantID);
    assert DecidedBy(db, flagID, i, d, Answer(p, ctx, LoadSegments(db, flagID)[i].id, d.variantID));
  }

  lemma DecisionReports(lib: Library, db: DB, flagID: nat, p: Flag, ctx: EvalContext, k: nat)
    requires Sound(db) && Exists(db.flags, flagID) && Prepare(lib, Load(db, flagID)) == Some(p)
    requires k < |p.segments| && RolloutOf(lib, p.id, ctx, p.segments[k]).Assigned?
    ensures ReportsCurrentVariant(db, flagID,
              Answer(p, ctx, p.segments[k].id, RolloutOf(lib, p.id, ctx, p.segments[k]).variantID))
  {
    var d := AssignedFromSegment(lib, db, flagID, k, ctx.entityID, Text.Decimal(p.id));
    AnswerReports(db, flagID, p, ctx, k, d);
  }

  lemma SoundReports(lib: Library, db: DB, flagID: nat, p: Flag, ctx: EvalContext, random: nat)
    requires Sound(db) && Exists(db.flags, flagID) && Prepare(lib, Load(db, flagID)) == Some(p)
    requires EvaluateFlag(lib, p, ctx, random).Evaluated?
    ensures ReportsCurrentVariant(db, flagID, EvaluateFlag(lib, p, ctx, random).result)
  {
    if p.enabled && p.segments != [] {
      var filled := FillContext(p, ctx, random);
      var k := FirstMatch(lib, filled, p.segments);
      if k < |p.segments| && RolloutOf(lib, p.id, filled, p.segments[k]).Assigned? {
        DecisionReports(lib, db, flagID, p, filled, k);
      }
    }
  }

  /** Whole-run key agreement: after well-addressed requests every evaluation of a flag
      answers, and an assigned variant is always found: it is a live variant of the flag
      with a positive percentage in the deciding segment, reported under its current key
      and attachment, the key also being the distribution's. */
  lemma AssignedKeysAgree(lib: Library, reqs: seq<Request>, flagID: nat, ctx: EvalContext, random: nat)
    requires AllInBounds(reqs) && AllWellAddressed(lib, reqs)
    requires Exists(Execute(lib, reqs).flags, flagID)
    ensures var db := Execute(lib, reqs);
            var prepared := Prepare(lib, Load(db, flagID));
            prepared.Some? ==>
              var e := EvaluateFlag(lib, prepared.value, ctx, random);
              e.Evaluated? && ReportsCurrentVariant(db, flagID, e.result)
  {
    var db := Execute(lib, reqs);
    ExecuteKeepsSound(lib, reqs);
    EvaluationNeverCrashes(lib, reqs, flagID, ctx, random);
    if Prepare(lib, Load(db, flagID)).Some? {
      SoundReports(lib, db, flagID, Prepare(lib, Load(db, flagID)).value, ctx, random);
    }
  }
}
