/** The editing API as an object over mutable tables: every handler is a method, proved to
    leave behind exactly the tables of its step, so runs of the object are runs of the steps. */
module Store {
  import opened Words
  import opened Entities
  import opened Text
  import opened Tables
  import opened Database
  import opened Handlers

  class CRUD {
    var flags: seq<FlagRow>
    var segments: seq<Row<SegmentData>>
    var constraints: seq<Row<ConstraintData>>
    var distributions: seq<Row<DistributionData>>
    var variants: seq<Row<VariantData>>
    var tags: seq<string>
    var flagTags: set<(nat, nat)>
    var snapshots: seq<SnapshotRow>

    constructor ()
      ensures Db() == Database.EMPTY
    {
      flags, segments, constraints, distributions, variants := [], [], [], [], [];
      tags, flagTags, snapshots := [], {}, [];
    }

    /** The tables as a value. */
    function Db(): DB
      reads this
    {
      DB(flags, segments, constraints, distributions, variants, tags, flagTags, snapshots)
    }

    method First(flagID: nat) returns (found: bool)
      ensures found == LiveFlag(Db(), flagID)
    {
      found := 1 <= flagID <= |flags| && flags[flagID - 1].live;
    }

    /** Appends the snapshot, then points the flag at it. */
    method SaveSnapshot(flagID: nat, subject: string)
      modifies this
      ensures Db() == SaveFlagSnapshot(old(Db()), flagID, subject)
    {
      var found := First(flagID);
      if !found {
        return;
      }
      var body := Load(Db(), flagID);
      snapshots := snapshots + [SnapshotRow(flagID, subject, body)];
      flags := flags[flagID - 1 := flags[flagID - 1].(updatedBy := subject, snapshotID := |snapshots|)];
    }

    // ----- flags -----

    method IsKeyTaken(key: string, except: nat) returns (taken: bool)
      ensures taken == KeyTaken(flags, key, except)
    {
      for i := 0 to |flags|
        invariant forall j :: 0 <= j < i ==> j + 1 == except || flags[j].key != key
      {
        if i + 1 != except && flags[i].key == key {
          return true;
        }
      }
      return false;
    }

    method HandleCreateFlag(lib: Library, req: Request) returns (status: nat)
      requires req.CreateFlag?
      modifies this
      ensures Db() == Step(lib, old(Db()), req)
      ensures status == StatusOf(EditOf(lib, old(Db()), req))
    {
      var key := req.key;
      if key == "" {
        key := req.freshKey;
      } else if !IsSafeKey(key) {
        return 400;
      }
      var taken := IsKeyTaken(key, 0);
      if taken {
        return 500;
      }
      var rollback := flags;
      flags := flags + [NewFlag(req.description, key, req.subject)];
      var flagID := |flags|;
      if req.template == SIMPLE_BOOLEAN_FLAG {
        LoadSimpleBooleanFlagTemplate(flagID);
      } else if req.template != "" {
        flags := rollback;
        return 400;
      }
      SaveSnapshot(flagID, req.subject);
      return 200;
    }

    /** The default segment, then the default variant, then the distribution that joins them. */
    method LoadSimpleBooleanFlagTemplate(flagID: nat)
      modifies this
      ensures Db() == LoadTemplate(old(Db()), flagID)
    {
      segments := segments + [Row(flagID, true, SegmentData("", SEGMENT_DEFAULT_RANK, 100))];
      variants := variants + [Row(flagID, true, VariantData("on", map[]))];
      distributions := distributions + [Row(|segments|, true, DistributionData(|variants|, "on", 100))];
    }

    /** Overwrites the given fields one by one, checking the keys on the way. */
    method Patch(row: FlagRow, req: Request) returns (patched: Option<FlagRow>)
      requires req.PutFlag?
      ensures patched == PatchFlag(row, req)
    {
      var f := row;
      if req.newDescription.Some? {
        f := f.(description := req.newDescription.value);
      }
      if req.dataRecordsEnabled.Some? {
        f := f.(dataRecordsEnabled := req.dataRecordsEnabled.value);
      }
      if req.newKey.Some? {
        if req.newKey.value == "" {
          f := f.(key := req.freshKey);
        } else if IsSafeKey(req.newKey.value) {
          f := f.(key := req.newKey.value);
        } else {
          return None;
        }
      }
      if req.entityType.Some? {
        if !IsSafeKey(req.entityType.value) && req.entityType.value != "" {
          return None;
        }
        f := f.(entityType := req.entityType.value);
      }
      if req.notes.Some? {
        f := f.(notes := req.notes.value);
      }
      return Some(f);
    }

    method HandlePutFlag(lib: Library, req: Request) returns (status: nat)
      requires req.PutFlag?
      modifies this
      ensures Db() == Step(lib, old(Db()), req)
      ensures status == StatusOf(EditOf(lib, old(Db()), req))
    {
      var found := First(req.flagID);
      if !found {
        return 404;
      }
      var f := Patch(flags[req.flagID - 1], req);
      if f == None {
        return 400;
      }
      var taken := IsKeyTaken(f.value.key, req.flagID);
      if taken {
        return 500;
      }
      flags := flags[req.flagID - 1 := f.value];
      SaveSnapshot(req.flagID, req.subject);
      return 200;
    }

    method HandleSetFlagEnabled(lib: Library, req: Request) returns (status: nat)
      requires req.SetFlagEnabled?
      modifies this
      ensures Db() == Step(lib, old(Db()), req)
      ensures status == StatusOf(EditOf(lib, old(Db()), req))
    {
      var found := First(req.flagID);
      if !found {
        return 404;
      }
      flags := flags[req.flagID - 1 := flags[req.flagID - 1].(enabled := req.enabled)];
      SaveSnapshot(req.flagID, req.subject);
      return 200;
    }

    method HandleRestoreFlag(lib: Library, req: Request) returns (status: nat)
      requires req.RestoreFlag?
      modifies this
      ensures Db() == Step(lib, old(Db()), req)
      ensures status == StatusOf(EditOf(lib, old(Db()), req))
    {
      if req.flagID < 1 || req.flagID > |flags| {
        return 404;
      }
      flags := flags[req.flagID - 1 := flags[req.flagID - 1].(live := true)];
      SaveSnapshot(req.flagID, req.subject);
      return 200;
    }

    method HandleDeleteFlag(lib: Library, req: Request) returns (status: nat)
      requires req.DeleteFlag?
      modifies this
      ensures Db() == Step(lib, old(Db()), req)
      ensures status == StatusOf(EditOf(lib, old(Db()), req))
    {
      if 1 <= req.flagID <= |flags| {
        flags := flags[req.flagID - 1 := flags[req.flagID - 1].(live := false)];
      }
      return 200;
    }

    // ----- tags -----

    method HandleCreateTag(lib: Library, req: Request) returns (status: nat)
      requires req.CreateTag?
      modifies this
      ensures Db() == Step(lib, old(Db()), req)
      ensures status == StatusOf(EditOf(lib, old(Db()), req))
    {
      if !IsSafeValue(req.tagValue) {
        return 400;
      }
      var tagID := TagIDFor(tags, req.tagValue);
      if req.tagValue !in tags {
        tags := tags + [req.tagValue];
      }
      flagTags := flagTags + {(req.flagID, tagID)};
      SaveSnapshot(req.flagID, req.subject);
      return 200;
    }

    method HandleDeleteTag(lib: Library, req: Request) returns (status: nat)
      requires req.DeleteTag?
      modifies this
      ensures Db() == Step(lib, old(Db()), req)
      ensures status == StatusOf(EditOf(lib, old(Db()), req))
    {
      flagTags := flagTags - {(req.flagID, req.tagID)};
      SaveSnapshot(req.flagID, req.subject);
      return 200;
    }

    // ----- segments -----

    method HandleCreateSegment(lib: Library, req: Request) returns (status: nat)
      requires req.CreateSegment?
      modifies this
      ensures Db() == Step(lib, old(Db()), req)
      ensures status == StatusOf(EditOf(lib, old(Db()), req))
    {
      segments := segments + [Row(req.flagID, true,
                                  SegmentData(req.description, SEGMENT_DEFAULT_RANK, Uint(req.rolloutPercent)))];
      SaveSnapshot(req.flagID, req.subject);
      return 200;
    }

    method HandlePutSegment(lib: Library, req: Request) returns (status: nat)
      requires req.PutSegment?
      modifies this
      ensures Db() == Step(lib, old(Db()), req)
      ensures status == StatusOf(EditOf(lib, old(Db()), req))
    {
      if !Live(segments, req.segmentID) {
        return 500;
      }
      var s := segments[req.segmentID - 1];
      s := s.(data := s.data.(rolloutPercent := SafeUint(req.rolloutPercent), description := req.description));
      segments := segments[req.segmentID - 1 := s];
      SaveSnapshot(req.flagID, req.subject);
      return 200;
    }

    /** Saves the ranks one by one inside a transaction that a missing segment rolls back. */
    method HandlePutSegmentsReorder(lib: Library, req: Request) returns (status: nat)
      requires req.PutSegmentsReorder?
      modifies this
      ensures Db() == Step(lib, old(Db()), req)
      ensures status == StatusOf(EditOf(lib, old(Db()), req))
    {
      var rollback := segments;
      for i := 0 to |req.segmentIDs|
        invariant Db() == old(Db()).(segments := Rerank(rollback, req.segmentIDs[..i]))
        invariant forall j :: 0 <= j < i ==> Live(rollback, req.segmentIDs[j])
      {
        var id := req.segmentIDs[i];
        if !Live(segments, id) {
          segments := rollback;
          assert id in req.segmentIDs && !Live(rollback, id);
          return 404;
        }
        var s := segments[id - 1];
        segments := segments[id - 1 := s.(data := s.data.(rank := i))];
        RerankStep(rollback, req.segmentIDs, i);
      }
      assert req.segmentIDs[..|req.segmentIDs|] == req.segmentIDs;
      SaveSnapshot(req.flagID, req.subject);
      return 200;
    }

    method HandleDeleteSegment(lib: Library, req: Request) returns (status: nat)
      requires req.DeleteSegment?
      modifies this
      ensures Db() == Step(lib, old(Db()), req)
      ensures status == StatusOf(EditOf(lib, old(Db()), req))
    {
      segments := DeleteRow(segments, req.segmentID);
      SaveSnapshot(req.flagID, req.subject);
      return 200;
    }

    // ----- constraints -----

    method HandleCreateConstraint(lib: Library, req: Request) returns (status: nat)
      requires req.CreateConstraint?
      modifies this
      ensures Db() == Step(lib, old(Db()), req)
      ensures status == StatusOf(EditOf(lib, old(Db()), req))
    {
      if !ValidConstraint(lib, req.constraint) {
        return 400;
      }
      constraints := constraints + [Row(req.segmentID, true, req.constraint)];
      SaveSnapshot(req.flagID, req.subject);
      return 200;
    }

    method HandlePutConstraint(lib: Library, req: Request) returns (status: nat)
      requires req.PutConstraint?
      modifies this
      ensures Db() == Step(lib, old(Db()), req)
      ensures status == StatusOf(EditOf(lib, old(Db()), req))
    {
      if !Live(constraints, req.constraintID) {
        return 404;
      }
      if !ValidConstraint(lib, req.constraint) {
        return 400;
      }
      var row := constraints[req.constraintID - 1];
      constraints := constraints[req.constraintID - 1 := row.(data := req.constraint)];
      SaveSnapshot(req.flagID, req.subject);
      return 200;
    }

    method HandleDeleteConstraint(lib: Library, req: Request) returns (status: nat)
      requires req.DeleteConstraint?
      modifies this
      ensures Db() == Step(lib, old(Db()), req)
      ensures status == StatusOf(EditOf(lib, old(Db()), req))
    {
      constraints := DeleteRow(constraints, req.constraintID);
      SaveSnapshot(req.flagID, req.subject);
      return 200;
    }

    // ----- distributions -----

    /** Sums the percentages, indexes the flag's variants, then checks each distribution. */
    method ValidatePutDistributions(flagID: nat, ds: seq<DistributionBody>) returns (ok: bool)
      ensures ok == AcceptsDistributions(Db(), flagID, ds)
    {
      var sum := 0;
      for i := 0 to |ds|
        invariant sum == SumOfPercents(ds[..i])
        invariant forall j :: 0 <= j < i ==> ds[j].percent.Some?
      {
        if ds[i].percent == None {
          return false;
        }
        assert ds[..i + 1][..i] == ds[..i];
        sum := sum + ds[i].percent.value;
      }
      assert ds[..|ds|] == ds;
      if sum != 100 {
        return false;
      }
      var found := First(flagID);
      if !found {
        return false;
      }
      var loaded := LoadVariants(Db(), flagID);
      var vMap: map<nat, string> := map[];
      for i := 0 to |loaded|
        invariant forall id :: id in vMap ==> exists j :: 0 <= j < i && loaded[j].id == id && loaded[j].key == vMap[id]
        invariant forall j :: 0 <= j < i ==> loaded[j].id in vMap
      {
        vMap := vMap[loaded[i].id := loaded[i].key];
      }
      for i := 0 to |ds|
        invariant forall j :: 0 <= j < i ==> NamesVariant(Db(), flagID, ds[j])
      {
        var vID := SafeUint(ds[i].variantID);
        VMapFinds(Db(), flagID, loaded, vMap, vID);
        if vID !in vMap {
          return false;
        }
        if vMap[vID] != ds[i].variantKey {
          return false;
        }
      }
      return true;
    }

    /** Deletes the segment's rows and creates the new ones in request order, all in one transaction. */
    method HandlePutDistributions(lib: Library, req: Request) returns (status: nat)
      requires req.PutDistributions?
      modifies this
      ensures Db() == Step(lib, old(Db()), req)
      ensures status == StatusOf(EditOf(lib, old(Db()), req))
    {
      var ok := ValidatePutDistributions(req.flagID, req.distributions);
      if !ok {
        return 400;
      }
      distributions := Kill(distributions, RowsOf(distributions, req.segmentID));
      ghost var kept := distributions;
      var ds := req.distributions;
      for i := 0 to |ds|
        invariant Db() == old(Db()).(distributions := kept + MapDistributions(ds[..i], req.segmentID))
      {
        distributions := distributions + [MapDistribution(ds[i], req.segmentID)];
        assert MapDistributions(ds[..i + 1], req.segmentID)
            == MapDistributions(ds[..i], req.segmentID) + [MapDistribution(ds[i], req.segmentID)];
      }
      assert ds[..|ds|] == ds;
      SaveSnapshot(req.flagID, req.subject);
      return 200;
    }

    // ----- variants -----

    method HandleCreateVariant(lib: Library, req: Request) returns (status: nat)
      requires req.CreateVariant?
      modifies this
      ensures Db() == Step(lib, old(Db()), req)
      ensures status == StatusOf(EditOf(lib, old(Db()), req))
    {
      var a: Attachment := map[];
      match req.attachment {
        case MalformedAttachment => return 400;
        case NoAttachment =>
        case Attached(value) => a := value;
      }
      if !IsSafeKey(req.variantKey) {
        return 400;
      }
      variants := variants + [Row(req.flagID, true, VariantData(req.variantKey, a))];
      SaveSnapshot(req.flagID, req.subject);
      return 200;
    }

    /** Saves the variant, then brings its live distributions in step with the new key. */
    method HandlePutVariant(lib: Library, req: Request) returns (status: nat)
      requires req.PutVariant?
      modifies this
      ensures Db() == Step(lib, old(Db()), req)
      ensures status == StatusOf(EditOf(lib, old(Db()), req))
    {
      if !Live(variants, req.variantID) {
        return 404;
      }
      var v := variants[req.variantID - 1];
      var a := v.data.attachment;
      match req.attachment {
        case MalformedAttachment => return 400;
        case NoAttachment =>
        case Attached(value) => a := value;
      }
      if !IsSafeKey(req.variantKey) {
        return 400;
      }
      variants := variants[req.variantID - 1 := v.(data := VariantData(req.variantKey, a))];
      distributions := RenameIn(distributions, req.variantID, req.variantKey);
      SaveSnapshot(req.flagID, req.subject);
      return 200;
    }

    /** Visits the loaded distributions segment by segment; deletes the variant's zero-percent
        rows as it goes, outside any transaction, and stops at one that is not zero. */
    method ValidateDeleteVariant(flagID: nat, variantID: nat) returns (status: nat)
      modifies this`distributions
      ensures var visited := Visited(LoadSegments(old(Db()), flagID), variantID);
              && (!LiveFlag(old(Db()), flagID) ==> status == 404 && distributions == old(distributions))
              && (LiveFlag(old(Db()), flagID) ==>
                    && distributions == Kill(old(distributions), Doomed(visited))
                    && status == if AllZero(visited) then 200 else 400)
    {
      var found := First(flagID);
      if !found {
        return 404;
      }
      var loaded := LoadSegments(Db(), flagID);
      ghost var done: seq<Distribution> := [];
      assert Kill(distributions, {}) == distributions;
      for i := 0 to |loaded|
        invariant done == Visited(loaded[..i], variantID)
        invariant Deleted(old(distributions), done)
      {
        assert loaded[..i + 1][..i] == loaded[..i];
        var blocked, j := DeleteZeroRows(loaded[i].distributions, variantID, old(distributions), done);
        if blocked {
          StopsHere(loaded, variantID, i, j, done + OfVariant(loaded[i].distributions[..j], variantID));
          return 400;
        }
        done := done + OfVariant(loaded[i].distributions, variantID);
      }
      assert loaded[..|loaded|] == loaded;
      return 200;
    }

    /** The rows visited so far were all zero and are deleted from the original table. */
    ghost predicate Deleted(original: seq<Row<DistributionData>>, done: seq<Distribution>)
      reads this
    {
      AllZero(done) && distributions == Kill(original, Doomed(done))
    }

    /** The inner loop over one segment; `j` is where it stopped. */
    method DeleteZeroRows(ds: seq<Distribution>, variantID: nat,
                          ghost original: seq<Row<DistributionData>>, ghost before: seq<Distribution>)
      returns (blocked: bool, ghost j: nat)
      requires Deleted(original, before)
      modifies this`distributions
      ensures j <= |ds| && Deleted(original, before + OfVariant(ds[..j], variantID))
      ensures !blocked ==> j == |ds| && ds[..j] == ds
      ensures blocked ==> j < |ds| && ds[j].variantID == variantID && ds[j].percent != 0
    {
      ghost var done := before;
      for i := 0 to |ds|
        invariant done == before + OfVariant(ds[..i], variantID)
        invariant Deleted(original, done)
      {
        OfVariantStep(ds, variantID, i);
        if ds[i].variantID == variantID {
          if ds[i].percent != 0 {
            return true, i;
          }
          DeletedStep(original, done, ds[i]);
          distributions := DeleteRow(distributions, ds[i].id);
          done := done + [ds[i]];
        }
      }
      return false, |ds|;
    }

    method HandleDeleteVariant(lib: Library, req: Request) returns (status: nat)
      requires req.DeleteVariant?
      modifies this
      ensures Db() == Step(lib, old(Db()), req)
      ensures status == StatusOf(EditOf(lib, old(Db()), req))
    {
      status := ValidateDeleteVariant(req.flagID, req.variantID);
      if status != 200 {
        return;
      }
      variants := DeleteRow(variants, req.variantID);
      SaveSnapshot(req.flagID, req.subject);
      return 200;
    }

    // ----- whole runs -----

    /** Routes a request to its handler. */
    method Handle(lib: Library, req: Request) returns (status: nat)
      modifies this
      ensures Db() == Step(lib, old(Db()), req)
      ensures status == StatusOf(EditOf(lib, old(Db()), req))
    {
      match req {
        case CreateFlag(_, _, _, _, _) => status := HandleCreateFlag(lib, req);
        case PutFlag(_, _, _, _, _, _, _, _) => status := HandlePutFlag(lib, req);
        case SetFlagEnabled(_, _, _) => status := HandleSetFlagEnabled(lib, req);
        case RestoreFlag(_, _) => status := HandleRestoreFlag(lib, req);
        case DeleteFlag(_) => status := HandleDeleteFlag(lib, req);
        case CreateTag(_, _, _) => status := HandleCreateTag(lib, req);
        case DeleteTag(_, _, _) => status := HandleDeleteTag(lib, req);
        case CreateSegment(_, _, _, _) => status := HandleCreateSegment(lib, req);
        case PutSegment(_, _, _, _, _) => status := HandlePutSegment(lib, req);
        case PutSegmentsReorder(_, _, _) => status := HandlePutSegmentsReorder(lib, req);
        case DeleteSegment(_, _, _) => status := HandleDeleteSegment(lib, req);
        case CreateConstraint(_, _, _, _) => status := HandleCreateConstraint(lib, req);
        case PutConstraint(_, _, _, _) => status := HandlePutConstraint(lib, req);
        case DeleteConstraint(_, _, _) => status := HandleDeleteConstraint(lib, req);
        case PutDistributions(_, _, _, _) => status := HandlePutDistributions(lib, req);
        case CreateVariant(_, _, _, _) => status := HandleCreateVariant(lib, req);
        case PutVariant(_, _, _, _, _) => status := HandlePutVariant(lib, req);
        case DeleteVariant(_, _, _) => status := HandleDeleteVariant(lib, req);
      }
    }

    method HandleTo(lib: Library, req: Request, ghost db: DB, ghost db': DB) returns (status: nat)
      requires Db() == db && Leads(lib, db, req, db')
      modifies this
      ensures Db() == db'
    {
      status := Handle(lib, req);
    }

    /** Handles the requests one after the other, through the states that their steps lead to. */
    method HandleAll(lib: Library, reqs: seq<Request>, ghost states: seq<DB>)
      requires LeadsThrough(lib, reqs, states) && Db() == states[0]
      modifies this
      ensures Db() == states[|reqs|]
    {
      for i := 0 to |reqs|
        invariant Db() == states[i]
      {
        var status := HandleTo(lib, reqs[i], states[i], states[i + 1]);
      }
    }

    /** Handling requests is running their steps, from wherever the requests so far have led. */
    method Run(lib: Library, reqs: seq<Request>, ghost past: seq<Request>)
      requires Db() == Execute(lib, past)
      modifies this
      ensures Db() == Execute(lib, past + reqs)
    {
      ghost var states := StatesOf(lib, reqs, past);
      StatesLead(lib, reqs, past);
      HandleAll(lib, reqs, states);
    }
  }

  ghost predicate Leads(lib: Library, db: DB, req: Request, db': DB) {
    db' == Step(lib, db, req)
  }

  ghost predicate LeadsThrough(lib: Library, reqs: seq<Request>, states: seq<DB>) {
    |states| == |reqs| + 1 && forall i :: 0 <= i < |reqs| ==> Leads(lib, states[i], reqs[i], states[i + 1])
  }

  /** The states between the requests of a run, from a position on. */
  ghost function StatesOf(lib: Library, reqs: seq<Request>, past: seq<Request>): (states: seq<DB>)
    ensures |states| == |reqs| + 1
  {
    seq(|reqs| + 1, i requires 0 <= i <= |reqs| => Execute(lib, past + reqs[..i]))
  }

  lemma StatesLead(lib: Library, reqs: seq<Request>, past: seq<Request>)
    ensures LeadsThrough(lib, reqs, StatesOf(lib, reqs, past))
    ensures StatesOf(lib, reqs, past)[0] == Execute(lib, past)
    ensures StatesOf(lib, reqs, past)[|reqs|] == Execute(lib, past + reqs)
  {
    assert past + reqs[..0] == past;
    assert past + reqs[..|reqs|] == past + reqs;
    forall i | 0 <= i < |reqs|
      ensures Leads(lib, StatesOf(lib, reqs, past)[i], reqs[i], StatesOf(lib, reqs, past)[i + 1])
    {
      StateLeads(lib, reqs, past, i);
    }
  }

  lemma StateLeads(lib: Library, reqs: seq<Request>, past: seq<Request>, i: nat)
    requires i < |reqs|
    ensures Leads(lib, StatesOf(lib, reqs, past)[i], reqs[i], StatesOf(lib, reqs, past)[i + 1])
  {
    assert past + reqs[..i + 1] == past + reqs[..i] + [reqs[i]];
    ExecuteLeads(lib, past + reqs[..i], reqs[i], past + reqs[..i + 1]);
  }

  lemma ExecuteLeads(lib: Library, reqs: seq<Request>, req: Request, reqs': seq<Request>)
    requires reqs' == reqs + [req]
    ensures Leads(lib, Execute(lib, reqs), req, Execute(lib, reqs'))
  {
    assert reqs'[..|reqs|] == reqs;
  }

  function StatusOf(edit: Edit): nat {
    if edit.Refused? then edit.status else 200
  }

  /** Soft-deletes one row, if there is one. */
  method DeleteRow<T>(t: seq<Row<T>>, id: nat) returns (t': seq<Row<T>>)
    ensures t' == Kill(t, {id})
  {
    t' := t;
    if 1 <= id <= |t| {
      t' := t[id - 1 := t[id - 1].(live := false)];
    }
  }

  lemma RerankStep(t: seq<Row<SegmentData>>, ids: seq<nat>, i: nat)
    requires i < |ids| && Exists(t, ids[i])
    ensures var before := Rerank(t, ids[..i]);
            var row := before[ids[i] - 1];
            Rerank(t, ids[..i + 1]) == before[ids[i] - 1 := row.(data := row.data.(rank := i))]
  {
    assert ids[..i + 1][..i] == ids[..i];
    assert forall id :: id in ids[..i + 1] <==> id in ids[..i] || id == ids[i];
  }

  lemma VMapFinds(db: DB, flagID: nat, loaded: seq<Variant>, vMap: map<nat, string>, id: nat)
    requires loaded == LoadVariants(db, flagID)
    requires forall id :: id in vMap ==>
      exists j :: 0 <= j < |loaded| && loaded[j].id == id && loaded[j].key == vMap[id]
    requires forall j :: 0 <= j < |loaded| ==> loaded[j].id in vMap
    ensures id in vMap <==> Live(db.variants, id) && Owned(db.variants, id, flagID)
    ensures id in vMap ==> vMap[id] == db.variants[id - 1].data.key
  {
    if id in vMap {
      var j :| 0 <= j < |loaded| && loaded[j].id == id && loaded[j].key == vMap[id];
      var rowID := ChildRow(db.variants, flagID, MakeVariant, loaded[j]);
    }
    if Live(db.variants, id) && Owned(db.variants, id, flagID) {
      RowChild(db.variants, flagID, MakeVariant, id);
    }
  }

  lemma {:induction false} DoomedPrefix(ds: seq<Distribution>, es: seq<Distribution>)
    requires AllZero(ds)
    ensures Doomed(ds + es) == Doomed(ds) + Doomed(es)
  {
    if ds == [] {
      assert ds + es == es;
    } else {
      assert (ds + es)[1..] == ds[1..] + es;
      DoomedPrefix(ds[1..], es);
    }
  }

  lemma DoomedAppend(ds: seq<Distribution>, d: Distribution)
    requires AllZero(ds) && d.percent == 0
    ensures Doomed(ds + [d]) == Doomed(ds) + {d.id}
  {
    DoomedPrefix(ds, [d]);
    assert [d][1..] == [];
  }

  lemma DeletedStep(original: seq<Row<DistributionData>>, done: seq<Distribution>, d: Distribution)
    requires AllZero(done) && d.percent == 0
    ensures AllZero(done + [d])
    ensures Kill(Kill(original, Doomed(done)), {d.id}) == Kill(original, Doomed(done + [d]))
  {
    DoomedAppend(done, d);
  }

  lemma OfVariantStep(ds: seq<Distribution>, variantID: nat, j: nat)
    requires j < |ds|
    ensures OfVariant(ds[..j + 1], variantID)
            == OfVariant(ds[..j], variantID) + if ds[j].variantID == variantID then [ds[j]] else []
  {
    assert ds[..j + 1][..j] == ds[..j];
  }

  lemma {:induction false} OfVariantExtends(ds: seq<Distribution>, variantID: nat, j: nat)
    requires j <= |ds|
    ensures OfVariant(ds[..j], variantID) <= OfVariant(ds, variantID)
  {
    if j == |ds| {
      assert ds[..j] == ds;
    } else {
      OfVariantExtends(ds[..|ds| - 1], variantID, j);
      assert ds[..|ds| - 1][..j] == ds[..j];
    }
  }

  lemma {:induction false} VisitedExtends(ss: seq<Segment>, variantID: nat, i: nat)
    requires i <= |ss|
    ensures Visited(ss[..i], variantID) <= Visited(ss, variantID)
  {
    if i == |ss| {
      assert ss[..i] == ss;
    } else {
      VisitedExtends(ss[..|ss| - 1], variantID, i);
      assert ss[..|ss| - 1][..i] == ss[..i];
    }
  }

  /** At the first row that is not zero, the rows deleted are exactly the doomed ones. */
  lemma StopsHere(ss: seq<Segment>, variantID: nat, i: nat, j: nat, done: seq<Distribution>)
    requires i < |ss| && j < |ss[i].distributions|
    requires done == Visited(ss[..i], variantID) + OfVariant(ss[i].distributions[..j], variantID) && AllZero(done)
    requires ss[i].distributions[j].variantID == variantID && ss[i].distributions[j].percent != 0
    ensures Doomed(Visited(ss, variantID)) == Doomed(done) && !AllZero(Visited(ss, variantID))
  {
    var d, ds, visited := ss[i].distributions[j], ss[i].distributions, Visited(ss, variantID);
    assert ss[..i + 1][..i] == ss[..i];
    VisitedExtends(ss, variantID, i + 1);
    OfVariantStep(ds, variantID, j);
    OfVariantExtends(ds, variantID, j + 1);
    assert done + [d] <= Visited(ss[..i + 1], variantID) <= visited;
    var rest := visited[|done|..];
    assert visited == done + rest && rest[0] == d;
    DoomedPrefix(done, rest);
    assert visited[|done|] == d;
  }
}
