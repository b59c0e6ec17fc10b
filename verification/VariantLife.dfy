/** The life of a variant: created, put and deleted for good. */
module VariantLife {
  import opened Words
  import opened Entities
  import opened Text
  import opened Preparation
  import opened Evaluation
  import opened Tables
  import opened Database
  import opened Handlers
  import opened Integrity
  import opened Agreement
  import opened Frames
  import opened Audit

  // ----- deleted -----

  /** What a deletion is accepted on: the flag is live, and no row of the variant that it loads has a percentage. */
  predicate AcceptsDeletion(db: DB, req: Request) {
    && req.DeleteVariant? && LiveFlag(db, req.flagID)
    && AllZero(Visited(LoadSegments(db, req.flagID), req.variantID))
  }

  /** An accepted deletion deletes the variant and no other; a refused one deletes none. */
  lemma DeletionDeletesExactly(lib: Library, db: DB, req: Request, id: nat)
    requires req.DeleteVariant?
    ensures Live(Step(lib, db, req).variants, id)
            <==> Live(db.variants, id) && !(AcceptsDeletion(db, req) && id == req.variantID)
    ensures |Step(lib, db, req).variants| == |db.variants|
  {
    FinishKeepsTables(EditOf(lib, db, req), req.flagID, req.subject);
  }

  predicate IsOther(id: nat, v: Variant) {
    v.id != id
  }

  lemma {:induction false} KillOneChild(t: seq<Row<VariantData>>, owner: nat, id: nat)
    ensures Children(Kill(t, {id}), owner, MakeVariant) == Keep(Children(t, owner, MakeVariant), v => IsOther(id, v))
  {
    if t != [] {
      var init, last := t[..|t| - 1], t[|t| - 1];
      assert Kill(t, {id})[..|t| - 1] == Kill(init, {id});
      KillOneChild(init, owner, id);
      var before, v := Children(init, owner, MakeVariant), MakeVariant(|t|, last);
      if Visible(last, owner) {
        assert (before + [v])[..|before|] == before;
      } else {
        assert before + [] == before;
      }
      assert Children(Kill(init, {id}), owner, MakeVariant) + [] == Children(Kill(init, {id}), owner, MakeVariant);
    }
  }

  /** Afterwards every flag loads its variants but for the deleted one, in the same order. */
  lemma DeletionLoads(lib: Library, db: DB, req: Request, flagID: nat)
    requires AcceptsDeletion(db, req)
    ensures LoadVariants(Step(lib, db, req), flagID)
            == Keep(LoadVariants(db, flagID), v => IsOther(req.variantID, v))
  {
    FinishKeepsTables(EditOf(lib, db, req), req.flagID, req.subject);
    KillOneChild(db.variants, flagID, req.variantID);
  }

  /** No live distribution of a live segment names the variant any more. */
  lemma DeletionLeavesNoRow(lib: Library, db: DB, req: Request)
    requires AcceptsDeletion(db, req) && WellAddressed(db, req) && KeysAgree(db)
    ensures Unused(Step(lib, db, req), req.variantID)
  {
    var doomed := Doomed(Visited(LoadSegments(db, req.flagID), req.variantID));
    var checked, db' := db.(distributions := Kill(db.distributions, doomed)), Step(lib, db, req);
    CheckedIsUnused(db, req.flagID, req.variantID);
    FinishKeepsTables(EditOf(lib, db, req), req.flagID, req.subject);
    forall i | 0 <= i < |db'.distributions|
      ensures UnusedAt(db', req.variantID, db'.distributions[i])
    {
      assert UnusedAt(checked, req.variantID, checked.distributions[i]);
    }
  }

  /** The row exists and is deleted. */
  predicate Dead(db: DB, id: nat) {
    Exists(db.variants, id) && !db.variants[id - 1].live
  }

  lemma StepKeepsDead(lib: Library, db: DB, req: Request, id: nat)
    requires Dead(db, id)
    ensures Dead(Step(lib, db, req), id)
  {
    FinishKeepsTables(EditOf(lib, db, req), FlagOf(db, req), SubjectOf(req));
  }

  ghost predicate DeadAfter(lib: Library, reqs: seq<Request>, id: nat) {
    Dead(Execute(lib, reqs), id)
  }

  lemma DeadAfterOneMore(lib: Library, reqs: seq<Request>, req: Request, id: nat)
    requires DeadAfter(lib, reqs, id)
    ensures DeadAfter(lib, reqs + [req], id)
  {
    OneMore(lib, reqs, req);
    StepKeepsDead(lib, Execute(lib, reqs), req, id);
  }

  lemma {:induction false} DeadForGood(lib: Library, reqs: seq<Request>, more: seq<Request>, id: nat)
    requires DeadAfter(lib, reqs, id)
    ensures DeadAfter(lib, reqs + more, id)
    decreases more
  {
    if more == [] {
      assert reqs + more == reqs;
    } else {
      assert reqs + more == (reqs + [more[0]]) + more[1..];
      DeadAfterOneMore(lib, reqs, more[0], id);
      DeadForGood(lib, reqs + [more[0]], more[1..], id);
    }
  }

  /** A request for distributions that names the variant. */
  predicate Names(req: Request, variantID: nat) {
    && req.PutDistributions?
    && exists i :: 0 <= i < |req.distributions| && SafeUint(req.distributions[i].variantID) == variantID
  }

  lemma DeadIsRefused(lib: Library, db: DB, req: Request, id: nat)
    requires Dead(db, id) && Names(req, id)
    ensures EditOf(lib, db, req) == Refused(400, db) && Step(lib, db, req) == db
  {
    var i :| 0 <= i < |req.distributions| && SafeUint(req.distributions[i].variantID) == id;
    assert !NamesVariant(db, req.flagID, req.distributions[i]);
  }

  /** Deleted for good: once the deletion of an existing variant is accepted, whatever is requested later, the
      variant is not live, no flag loads it, and every request for distributions that names it is refused. */
  lemma DeletedVariantStaysDeleted(lib: Library, reqs: seq<Request>, req: Request, more: seq<Request>, later: Request,
                                   flagID: nat)
    requires AcceptsDeletion(Execute(lib, reqs), req) && Exists(Execute(lib, reqs).variants, req.variantID)
    ensures var db := Execute(lib, reqs + [req] + more);
            && !Live(db.variants, req.variantID)
            && (forall v :: v in LoadVariants(db, flagID) ==> v.id != req.variantID)
            && (Names(later, req.variantID) ==> EditOf(lib, db, later) == Refused(400, db))
  {
    OneMore(lib, reqs, req);
    DeletionDeletesExactly(lib, Execute(lib, reqs), req, req.variantID);
    DeadForGood(lib, reqs + [req], more, req.variantID);
    var db := Execute(lib, reqs + [req] + more);
    forall v | v in LoadVariants(db, flagID)
      ensures v.id != req.variantID
    {
      var id := ChildRow(db.variants, flagID, MakeVariant, v);
    }
    if Names(later, req.variantID) {
      DeadIsRefused(lib, db, later, req.variantID);
    }
  }

  // ----- created -----

  /** What the key and the attachment of a request are accepted on. */
  predicate WellFormed(key: string, attachment: AttachmentBody) {
    !attachment.MalformedAttachment? && IsSafeKey(key)
  }

  function AttachmentOr(attachment: AttachmentBody, default: Attachment): Attachment {
    if attachment.Attached? then attachment.value else default
  }

  function CreatedVariant(db: DB, req: Request): Variant
    requires req.CreateVariant?
  {
    Variant(|db.variants| + 1, req.flagID, req.variantKey, AttachmentOr(req.attachment, map[]))
  }

  /** A created variant is the last that its flag loads, under the key and with the attachment that were
      sent; other flags load theirs as before. A request that is not well-formed leaves no trace. */
  lemma CreatedVariantLoads(lib: Library, db: DB, req: Request, flagID: nat)
    requires req.CreateVariant?
    ensures !WellFormed(req.variantKey, req.attachment) ==> Step(lib, db, req) == db
    ensures WellFormed(req.variantKey, req.attachment) ==>
              LoadVariants(Step(lib, db, req), flagID)
              == LoadVariants(db, flagID) + if flagID == req.flagID then [CreatedVariant(db, req)] else []
  {
    if WellFormed(req.variantKey, req.attachment) {
      FinishKeepsTables(EditOf(lib, db, req), req.flagID, req.subject);
      var row := Row(req.flagID, true, VariantData(req.variantKey, AttachmentOr(req.attachment, map[])));
      ChildrenAppend(db.variants, row, flagID, MakeVariant);
    }
  }

  lemma NormalButVariants(f: Flag, g: Flag)
    requires g == f.(variants := g.variants, snapshotID := g.snapshotID, updatedBy := g.updatedBy)
    ensures Normal(f).(variants := []) == Normal(g).(variants := [])
  {
  }

  lemma CreationKeepsTheRest(lib: Library, db: DB, req: Request, flagID: nat)
    requires req.CreateVariant? && Exists(db.flags, flagID)
    ensures Exists(Step(lib, db, req).flags, flagID)
    ensures var f, g := Load(db, flagID), Load(Step(lib, db, req), flagID);
            g == f.(variants := g.variants, snapshotID := g.snapshotID, updatedBy := g.updatedBy)
  {
    CreationKeepsSegments(db, req, flagID);
    FinishLoads(db, EditOf(lib, db, req), req.flagID, req.subject, flagID);
  }

  lemma FinishLoads(db: DB, edit: Edit, snapshotted: nat, subject: string, flagID: nat)
    requires Exists(db.flags, flagID) && Exists(edit.db.flags, flagID)
    requires var f, g := Load(db, flagID), Load(edit.db, flagID); g == f.(variants := g.variants)
    ensures Exists(Finish(edit, snapshotted, subject).flags, flagID)
    ensures var f, g := Load(db, flagID), Load(Finish(edit, snapshotted, subject), flagID);
            g == f.(variants := g.variants, snapshotID := g.snapshotID, updatedBy := g.updatedBy)
  {
    SnapshotLoads(edit.db, snapshotted, subject, flagID);
  }

  lemma CreationKeepsSegments(db: DB, req: Request, flagID: nat)
    requires req.CreateVariant? && Exists(db.flags, flagID)
    ensures var edited := EditCreateVariant(db, req).db;
            && edited.flags == db.flags
            && Load(edited, flagID) == Load(db, flagID).(variants := LoadVariants(edited, flagID))
  {
    assert LoadSegments(EditCreateVariant(db, req).db, flagID) == LoadSegments(db, flagID);
  }

  lemma CreationKeepsVariant(lib: Library, db: DB, req: Request, flagID: nat, id: nat)
    requires req.CreateVariant? && id <= |db.variants|
    ensures VariantAt(VariantsMap(LoadVariants(db, flagID)), id)
            == VariantAt(VariantsMap(LoadVariants(Step(lib, db, req), flagID)), id)
  {
    FinishKeepsTables(EditOf(lib, db, req), req.flagID, req.subject);
    VariantsMapOfLoaded(db, flagID, id);
    VariantsMapOfLoaded(Step(lib, db, req), flagID, id);
  }

  lemma CreationIsAlike(lib: Library, db: DB, req: Request, flagID: nat)
    requires req.CreateVariant? && Exists(db.flags, flagID) && KeysAgree(db)
    ensures Exists(Step(lib, db, req).flags, flagID)
    ensures Alike(Load(Step(lib, db, req), flagID), Load(db, flagID))
  {
    CreationKeepsTheRest(lib, db, req, flagID);
    NormalButVariants(Load(db, flagID), Load(Step(lib, db, req), flagID));
    CreationKeepsVariant(lib, db, req, flagID, 0);
    forall id | Assignable(Load(db, flagID), id)
      ensures VariantAt(VariantsMap(LoadVariants(db, flagID)), id)
              == VariantAt(VariantsMap(LoadVariants(Step(lib, db, req), flagID)), id)
    {
      AssignableIsLive(db, flagID, id);
      CreationKeepsVariant(lib, db, req, flagID, id);
    }
  }

  /** Creating a variant changes nobody's answer: it is assigned to nobody until distributions name it. */
  lemma CreatedVariantIsInvisible(lib: Library, reqs: seq<Request>, req: Request, flagID: nat)
    requires AllInBounds(reqs) && AllWellAddressed(lib, reqs)
    requires req.CreateVariant? && Exists(Execute(lib, reqs).flags, flagID)
    ensures var db := Execute(lib, reqs);
            var db' := Step(lib, db, req);
            Exists(db'.flags, flagID) && EvaluateAlike(lib, Load(db', flagID), Load(db, flagID))
  {
    var db := Execute(lib, reqs);
    var db' := Step(lib, db, req);
    ExecuteKeepsSound(lib, reqs);
    StepKeepsSound(lib, db, req);
    CreationIsAlike(lib, db, req, flagID);
    LoadedIsWellDistributed(db, flagID);
    LoadedIsWellDistributed(db', flagID);
    AlikeEvaluateAlike(lib, Load(db', flagID), Load(db, flagID));
  }

  // ----- put -----

  /** A request for a variant that is not live, or one that is not well-formed, leaves no trace. */
  lemma RefusedPutVariant(lib: Library, db: DB, req: Request)
    requires req.PutVariant?
    ensures Step(lib, db, req) == db || (Live(db.variants, req.variantID) && WellFormed(req.variantKey, req.attachment))
  {
  }

  /** An accepted request writes the key and, if there is one, the attachment that were sent. */
  lemma PutVariantWrites(lib: Library, db: DB, req: Request)
    requires req.PutVariant? && Live(db.variants, req.variantID) && WellFormed(req.variantKey, req.attachment)
    ensures var v, v' := db.variants[req.variantID - 1], Step(lib, db, req).variants;
            && |v'| == |db.variants|
            && v'[req.variantID - 1]
               == v.(data := VariantData(req.variantKey, AttachmentOr(req.attachment, v.data.attachment)))
            && forall i :: 0 <= i < |v'| && i + 1 != req.variantID ==> v'[i] == db.variants[i]
  {
    FinishKeepsTables(EditOf(lib, db, req), req.flagID, req.subject);
  }

  lemma ReportsTheRow(lib: Library, db: DB, req: Request, flagID: nat, r: EvalResult)
    requires req.PutVariant? && Live(db.variants, req.variantID) && WellFormed(req.variantKey, req.attachment)
    requires ReportsCurrentVariant(Step(lib, db, req), flagID, r) && r.variantID == req.variantID
    ensures r.variantKey == req.variantKey
    ensures r.variantAttachment == AttachmentOr(req.attachment, db.variants[req.variantID - 1].data.attachment)
  {
    PutVariantWrites(lib, db, req);
  }

  /** From then on whoever is assigned the variant is told the new key and the new attachment. */
  lemma PutVariantIsReported(lib: Library, reqs: seq<Request>, req: Request, flagID: nat, ctx: EvalContext, random: nat)
    requires AllInBounds(reqs + [req]) && AllWellAddressed(lib, reqs + [req])
    requires req.PutVariant? && Live(Execute(lib, reqs).variants, req.variantID)
    requires WellFormed(req.variantKey, req.attachment)
    requires Exists(Execute(lib, reqs + [req]).flags, flagID)
    requires Prepare(lib, Load(Execute(lib, reqs + [req]), flagID)).Some?
    ensures var e := EvaluateFlag(lib, Prepare(lib, Load(Execute(lib, reqs + [req]), flagID)).value, ctx, random);
            && e.Evaluated?
            && (e.result.variantID == req.variantID ==>
                  var before := Execute(lib, reqs).variants[req.variantID - 1].data.attachment;
                  && e.result.variantKey == req.variantKey
                  && e.result.variantAttachment == AttachmentOr(req.attachment, before))
  {
    OneMore(lib, reqs, req);
    AssignedKeysAgree(lib, reqs + [req], flagID, ctx, random);
    var e := EvaluateFlag(lib, Prepare(lib, Load(Execute(lib, reqs + [req]), flagID)).value, ctx, random);
    if e.result.variantID == req.variantID {
      ReportsTheRow(lib, Execute(lib, reqs), req, flagID, e.result);
    }
  }
}
