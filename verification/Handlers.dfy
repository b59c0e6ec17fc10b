/** The editing API as steps on the tables: for each request, the tables it leaves behind. */
module Handlers {
  import opened Words
  import opened Entities
  import opened Text
  import opened Tables
  import opened Database
  import Preparation

  const SEGMENT_DEFAULT_RANK: nat := 999
  const SIMPLE_BOOLEAN_FLAG: string := "simple_boolean_flag"

  datatype DistributionBody = DistributionBody(variantID: int, variantKey: string, percent: Option<int>)

  /** The attachment of a request: absent, not an object, or an object. */
  datatype AttachmentBody = NoAttachment | MalformedAttachment | Attached(value: Attachment)

  /** `subject` identifies the sender of the request; `freshKey` is the random key generated when the
      requested flag key is empty. */
  datatype Request =
    | CreateFlag(description: string, key: string, freshKey: string, template: string, subject: string)
    | PutFlag(flagID: nat, newDescription: Option<string>, dataRecordsEnabled: Option<bool>, newKey: Option<string>,
              freshKey: string, entityType: Option<string>, notes: Option<string>, subject: string)
    | SetFlagEnabled(flagID: nat, enabled: bool, subject: string)
    | RestoreFlag(flagID: nat, subject: string)
    | DeleteFlag(flagID: nat)
    | CreateTag(flagID: nat, tagValue: string, subject: string)
    | DeleteTag(flagID: nat, tagID: nat, subject: string)
    | CreateSegment(flagID: nat, description: string, rolloutPercent: int, subject: string)
    | PutSegment(flagID: nat, segmentID: nat, description: string, rolloutPercent: int, subject: string)
    | PutSegmentsReorder(flagID: nat, segmentIDs: seq<nat>, subject: string)
    | DeleteSegment(flagID: nat, segmentID: nat, subject: string)
    | CreateConstraint(flagID: nat, segmentID: nat, constraint: ConstraintData, subject: string)
    | PutConstraint(flagID: nat, constraintID: nat, constraint: ConstraintData, subject: string)
    | DeleteConstraint(flagID: nat, constraintID: nat, subject: string)
    | PutDistributions(flagID: nat, segmentID: nat, distributions: seq<DistributionBody>, subject: string)
    | CreateVariant(flagID: nat, variantKey: string, attachment: AttachmentBody, subject: string)
    | PutVariant(flagID: nat, variantID: nat, variantKey: string, attachment: AttachmentBody, subject: string)
    | DeleteVariant(flagID: nat, variantID: nat, subject: string)

  /** What a handler leaves behind before any snapshot: refused with a status, saved with a
      snapshot to follow, or saved without one. */
  datatype Edit =
    | Refused(status: nat, db: DB)
    | Saved(db: DB)
    | Unsnapshotted(db: DB)

  // ----- flags -----

  predicate KeyTaken(flags: seq<FlagRow>, key: string, except: nat) {
    exists i :: 0 <= i < |flags| && i + 1 != except && flags[i].key == key
  }

  function NewFlag(description: string, key: string, subject: string): FlagRow {
    FlagRow(key, description, subject, "", false, 0, "", false, "", true)
  }

  function EditCreateFlag(db: DB, req: Request): Edit
    requires req.CreateFlag?
  {
    var key := if req.key == "" then req.freshKey else req.key;
    if req.key != "" && !IsSafeKey(req.key) then Refused(400, db)
    else if KeyTaken(db.flags, key, 0) then Refused(500, db)
    else
      var created := db.(flags := db.flags + [NewFlag(req.description, key, req.subject)]);
      if req.template == SIMPLE_BOOLEAN_FLAG then Saved(LoadTemplate(created, |created.flags|))
      else if req.template != "" then Refused(400, db)
      else Saved(created)
  }

  /** The simple boolean flag: one segment for everybody, one variant, all of it rolled out. */
  function LoadTemplate(db: DB, flagID: nat): DB {
    db.(segments := db.segments + [Row(flagID, true, SegmentData("", SEGMENT_DEFAULT_RANK, 100))],
        variants := db.variants + [Row(flagID, true, VariantData("on", map[]))],
        distributions := db.distributions
                         + [Row(|db.segments| + 1, true, DistributionData(|db.variants| + 1, "on", 100))])
  }

  function SetFlag(db: DB, flagID: nat, row: FlagRow): DB
    requires Exists(db.flags, flagID)
  {
    db.(flags := db.flags[flagID - 1 := row])
  }

  /** The flag row with the given fields replaced; `None` when a key is not well-formed. */
  function PatchFlag(row: FlagRow, req: Request): Option<FlagRow>
    requires req.PutFlag?
  {
    if req.newKey.Some? && req.newKey.value != "" && !IsSafeKey(req.newKey.value) then None
    else if req.entityType.Some? && req.entityType.value != "" && !IsSafeKey(req.entityType.value) then None
    else
      Some(row.(
        description := Or(req.newDescription, row.description),
        dataRecordsEnabled := Or(req.dataRecordsEnabled, row.dataRecordsEnabled),
        key := if req.newKey == Some("") then req.freshKey else Or(req.newKey, row.key),
        entityType := Or(req.entityType, row.entityType),
        notes := Or(req.notes, row.notes)))
  }

  function Or<T>(o: Option<T>, default: T): T {
    if o.Some? then o.value else default
  }

  function EditPutFlag(db: DB, req: Request): Edit
    requires req.PutFlag?
  {
    if !LiveFlag(db, req.flagID) then Refused(404, db)
    else
      match PatchFlag(db.flags[req.flagID - 1], req)
      case None => Refused(400, db)
      case Some(row) =>
        if KeyTaken(db.flags, row.key, req.flagID) then Refused(500, db)
        else Saved(SetFlag(db, req.flagID, row))
  }

  function EditSetFlagEnabled(db: DB, req: Request): Edit
    requires req.SetFlagEnabled?
  {
    if !LiveFlag(db, req.flagID) then Refused(404, db)
    else Saved(SetFlag(db, req.flagID, db.flags[req.flagID - 1].(enabled := req.enabled)))
  }

  function EditRestoreFlag(db: DB, req: Request): Edit
    requires req.RestoreFlag?
  {
    if !Exists(db.flags, req.flagID) then Refused(404, db)
    else Saved(SetFlag(db, req.flagID, db.flags[req.flagID - 1].(live := true)))
  }

  function EditDeleteFlag(db: DB, req: Request): Edit
    requires req.DeleteFlag?
  {
    if !Exists(db.flags, req.flagID) then Unsnapshotted(db)
    else Unsnapshotted(SetFlag(db, req.flagID, db.flags[req.flagID - 1].(live := false)))
  }

  // ----- tags -----

  /** The ID of the tag with the value, or the next free one. */
  function TagIDFor(tags: seq<string>, value: string): nat {
    if tags == [] then 1
    else if tags[0] == value then 1
    else 1 + TagIDFor(tags[1..], value)
  }

  function EditCreateTag(db: DB, req: Request): Edit
    requires req.CreateTag?
  {
    if !IsSafeValue(req.tagValue) then Refused(400, db)
    else
      Saved(db.(tags := if req.tagValue in db.tags then db.tags else db.tags + [req.tagValue],
                flagTags := db.flagTags + {(req.flagID, TagIDFor(db.tags, req.tagValue))}))
  }

  function EditDeleteTag(db: DB, req: Request): Edit
    requires req.DeleteTag?
  {
    Saved(db.(flagTags := db.flagTags - {(req.flagID, req.tagID)}))
  }

  // ----- segments -----

  function EditCreateSegment(db: DB, req: Request): Edit
    requires req.CreateSegment?
  {
    var row := Row(req.flagID, true, SegmentData(req.description, SEGMENT_DEFAULT_RANK, Uint(req.rolloutPercent)));
    Saved(db.(segments := db.segments + [row]))
  }

  function EditPutSegment(db: DB, req: Request): Edit
    requires req.PutSegment?
  {
    if !Live(db.segments, req.segmentID) then Refused(500, db)
    else
      var row := db.segments[req.segmentID - 1];
      var data := row.data.(rolloutPercent := SafeUint(req.rolloutPercent), description := req.description);
      Saved(db.(segments := db.segments[req.segmentID - 1 := row.(data := data)]))
  }

  /** The position of the last occurrence: the rank that the reorder loop leaves behind. */
  function LastIndex(ids: seq<nat>, id: nat): (i: nat)
    requires id in ids
    ensures i < |ids| && ids[i] == id
    ensures forall j :: i < j < |ids| ==> ids[j] != id
  {
    if ids[|ids| - 1] == id then |ids| - 1 else LastIndex(ids[..|ids| - 1], id)
  }

  function Rerank(t: seq<Row<SegmentData>>, ids: seq<nat>): (t': seq<Row<SegmentData>>)
    ensures |t'| == |t|
    ensures forall i :: 0 <= i < |t| ==>
      t'[i] == if i + 1 in ids then t[i].(data := t[i].data.(rank := LastIndex(ids, i + 1))) else t[i]
  {
    seq(|t|, i requires 0 <= i < |t| =>
      if i + 1 in ids then t[i].(data := t[i].data.(rank := LastIndex(ids, i + 1))) else t[i])
  }

  function EditPutSegmentsReorder(db: DB, req: Request): Edit
    requires req.PutSegmentsReorder?
  {
    if exists id :: id in req.segmentIDs && !Live(db.segments, id) then Refused(404, db)
    else Saved(db.(segments := Rerank(db.segments, req.segmentIDs)))
  }

  function EditDeleteSegment(db: DB, req: Request): Edit
    requires req.DeleteSegment?
  {
    Saved(db.(segments := Kill(db.segments, {req.segmentID})))
  }

  // ----- constraints -----

  /** A constraint is accepted when its own expression parses. */
  predicate ValidConstraint(lib: Library, c: ConstraintData) {
    match Preparation.ExprString(c.property, c.operator, c.value)
    case None => false
    case Some(e) => lib.parses(e)
  }

  function EditCreateConstraint(lib: Library, db: DB, req: Request): Edit
    requires req.CreateConstraint?
  {
    if !ValidConstraint(lib, req.constraint) then Refused(400, db)
    else Saved(db.(constraints := db.constraints + [Row(req.segmentID, true, req.constraint)]))
  }

  function EditPutConstraint(lib: Library, db: DB, req: Request): Edit
    requires req.PutConstraint?
  {
    if !Live(db.constraints, req.constraintID) then Refused(404, db)
    else if !ValidConstraint(lib, req.constraint) then Refused(400, db)
    else
      var i := req.constraintID - 1;
      Saved(db.(constraints := db.constraints[i := db.constraints[i].(data := req.constraint)]))
  }

  function EditDeleteConstraint(db: DB, req: Request): Edit
    requires req.DeleteConstraint?
  {
    Saved(db.(constraints := Kill(db.constraints, {req.constraintID})))
  }

  // ----- distributions -----

  function SumOfPercents(ds: seq<DistributionBody>): int {
    if ds == [] then 0
    else
      SumOfPercents(ds[..|ds| - 1]) + match ds[|ds| - 1].percent case None => 0 case Some(p) => p
  }

  /** Every percent is given, they sum to 100, the flag is live, and every variant is a live
      one of the flag under its current key. */
  predicate AcceptsDistributions(db: DB, flagID: nat, ds: seq<DistributionBody>) {
    && (forall i :: 0 <= i < |ds| ==> ds[i].percent.Some?)
    && SumOfPercents(ds) == 100
    && LiveFlag(db, flagID)
    && (forall i :: 0 <= i < |ds| ==> NamesVariant(db, flagID, ds[i]))
  }

  predicate NamesVariant(db: DB, flagID: nat, d: DistributionBody) {
    var id := SafeUint(d.variantID);
    Live(db.variants, id) && Owned(db.variants, id, flagID) && db.variants[id - 1].data.key == d.variantKey
  }

  function MapDistribution(d: DistributionBody, segmentID: nat): Row<DistributionData> {
    Row(segmentID, true,
        DistributionData(Uint(d.variantID), d.variantKey, if d.percent.Some? then Uint(d.percent.value) else 0))
  }

  function MapDistributions(ds: seq<DistributionBody>, segmentID: nat): (rs: seq<Row<DistributionData>>)
    ensures |rs| == |ds|
  {
    seq(|ds|, i requires 0 <= i < |ds| => MapDistribution(ds[i], segmentID))
  }

  /** The IDs of the rows of a segment. */
  function RowsOf(t: seq<Row<DistributionData>>, segmentID: nat): set<nat> {
    set id: nat | id <= |t| && Owned(t, id, segmentID)
  }

  function EditPutDistributions(db: DB, req: Request): Edit
    requires req.PutDistributions?
  {
    if !AcceptsDistributions(db, req.flagID, req.distributions) then Refused(400, db)
    else
      Saved(db.(distributions := Kill(db.distributions, RowsOf(db.distributions, req.segmentID))
                                 + MapDistributions(req.distributions, req.segmentID)))
  }

  // ----- variants -----

  function EditCreateVariant(db: DB, req: Request): Edit
    requires req.CreateVariant?
  {
    if req.attachment.MalformedAttachment? then Refused(400, db)
    else if !IsSafeKey(req.variantKey) then Refused(400, db)
    else
      var a := if req.attachment.Attached? then req.attachment.value else map[];
      Saved(db.(variants := db.variants + [Row(req.flagID, true, VariantData(req.variantKey, a))]))
  }

  /** The key of a variant is repeated in its live distributions; renaming keeps them in step. */
  function RenameIn(t: seq<Row<DistributionData>>, variantID: nat, key: string): (t': seq<Row<DistributionData>>)
    ensures |t'| == |t|
    ensures forall i :: 0 <= i < |t| ==>
      t'[i] == if t[i].live && t[i].data.variantID == variantID
               then t[i].(data := t[i].data.(variantKey := key)) else t[i]
  {
    seq(|t|, i requires 0 <= i < |t| =>
      if t[i].live && t[i].data.variantID == variantID then t[i].(data := t[i].data.(variantKey := key)) else t[i])
  }

  function EditPutVariant(db: DB, req: Request): Edit
    requires req.PutVariant?
  {
    if !Live(db.variants, req.variantID) then Refused(404, db)
    else if req.attachment.MalformedAttachment? then Refused(400, db)
    else if !IsSafeKey(req.variantKey) then Refused(400, db)
    else
      var row := db.variants[req.variantID - 1];
      var a := if req.attachment.Attached? then req.attachment.value else row.data.attachment;
      Saved(db.(variants := db.variants[req.variantID - 1 := row.(data := VariantData(req.variantKey, a))],
                distributions := RenameIn(db.distributions, req.variantID, req.variantKey)))
  }

  /** The distributions of the variant in the order the check visits them. */
  function Visited(segments: seq<Segment>, variantID: nat): seq<Distribution> {
    if segments == [] then []
    else Visited(segments[..|segments| - 1], variantID) + OfVariant(segments[|segments| - 1].distributions, variantID)
  }

  function OfVariant(ds: seq<Distribution>, variantID: nat): seq<Distribution> {
    if ds == [] then []
    else if ds[|ds| - 1].variantID == variantID then OfVariant(ds[..|ds| - 1], variantID) + [ds[|ds| - 1]]
    else OfVariant(ds[..|ds| - 1], variantID)
  }

  /** The zero-percent rows that the check deletes before it meets another one. */
  function Doomed(ds: seq<Distribution>): set<nat> {
    if ds == [] || ds[0].percent != 0 then {} else {ds[0].id} + Doomed(ds[1..])
  }

  predicate AllZero(ds: seq<Distribution>) {
    forall i :: 0 <= i < |ds| ==> ds[i].percent == 0
  }

  /** The check deletes as it goes and refuses at the first row that still has a percentage;
      what it deleted until then stays deleted, and no snapshot is taken. */
  function EditDeleteVariant(db: DB, req: Request): Edit
    requires req.DeleteVariant?
  {
    if !LiveFlag(db, req.flagID) then Refused(404, db)
    else
      var visited := Visited(LoadSegments(db, req.flagID), req.variantID);
      var checked := db.(distributions := Kill(db.distributions, Doomed(visited)));
      if AllZero(visited) then Saved(checked.(variants := Kill(db.variants, {req.variantID})))
      else Refused(400, checked)
  }

  // ----- the step -----

  function EditOf(lib: Library, db: DB, req: Request): Edit {
    match req
    case CreateFlag(_, _, _, _, _) => EditCreateFlag(db, req)
    case PutFlag(_, _, _, _, _, _, _, _) => EditPutFlag(db, req)
    case SetFlagEnabled(_, _, _) => EditSetFlagEnabled(db, req)
    case RestoreFlag(_, _) => EditRestoreFlag(db, req)
    case DeleteFlag(_) => EditDeleteFlag(db, req)
    case CreateTag(_, _, _) => EditCreateTag(db, req)
    case DeleteTag(_, _, _) => EditDeleteTag(db, req)
    case CreateSegment(_, _, _, _) => EditCreateSegment(db, req)
    case PutSegment(_, _, _, _, _) => EditPutSegment(db, req)
    case PutSegmentsReorder(_, _, _) => EditPutSegmentsReorder(db, req)
    case DeleteSegment(_, _, _) => EditDeleteSegment(db, req)
    case CreateConstraint(_, _, _, _) => EditCreateConstraint(lib, db, req)
    case PutConstraint(_, _, _, _) => EditPutConstraint(lib, db, req)
    case DeleteConstraint(_, _, _) => EditDeleteConstraint(db, req)
    case PutDistributions(_, _, _, _) => EditPutDistributions(db, req)
    case CreateVariant(_, _, _, _) => EditCreateVariant(db, req)
    case PutVariant(_, _, _, _, _) => EditPutVariant(db, req)
    case DeleteVariant(_, _, _) => EditDeleteVariant(db, req)
  }

  /** The flag in the path of the request; for a creation, the flag that is created. */
  function FlagOf(db: DB, req: Request): nat {
    if req.CreateFlag? then |db.flags| + 1 else req.flagID
  }

  function SubjectOf(req: Request): string {
    if req.DeleteFlag? then "" else req.subject
  }

  /** Appends the flag as it is loaded now, then points the flag at the new snapshot. A flag
      that is not live gets none. */
  function SaveFlagSnapshot(db: DB, flagID: nat, subject: string): DB {
    if !LiveFlag(db, flagID) then db
    else
      var row := db.flags[flagID - 1].(updatedBy := subject, snapshotID := |db.snapshots| + 1);
      db.(snapshots := db.snapshots + [SnapshotRow(flagID, subject, Load(db, flagID))],
          flags := db.flags[flagID - 1 := row])
  }

  function Finish(edit: Edit, flagID: nat, subject: string): DB {
    match edit
    case Refused(_, db) => db
    case Unsnapshotted(db) => db
    case Saved(db) => SaveFlagSnapshot(db, flagID, subject)
  }

  /** One request, start to end. */
  function Step(lib: Library, db: DB, req: Request): DB {
    Finish(EditOf(lib, db, req), FlagOf(db, req), SubjectOf(req))
  }

  /** The tables after a sequence of requests, starting from nothing. */
  function Execute(lib: Library, reqs: seq<Request>): DB {
    if reqs == [] then EMPTY else Step(lib, Execute(lib, reqs[..|reqs| - 1]), reqs[|reqs| - 1])
  }

  // ----- which requests -----

  /** The bounds that the request schema enforces before a handler runs. */
  predicate InBounds(req: Request) {
    match req
    case CreateSegment(_, _, rolloutPercent, _) => 0 <= rolloutPercent <= 100
    case PutSegment(_, _, _, rolloutPercent, _) => 0 <= rolloutPercent <= 100
    case PutDistributions(_, _, ds, _) =>
      forall i :: 0 <= i < |ds| ==>
        1 <= ds[i].variantID < TWO_TO_63 && (ds[i].percent.Some? ==> 0 <= ds[i].percent.value <= 100)
    case _ => true
  }

  /** The segment of a constraint belongs to the flag. */
  predicate ConstraintOwned(db: DB, constraintID: nat, flagID: nat) {
    Exists(db.constraints, constraintID) ==> Owned(db.segments, db.constraints[constraintID - 1].owner, flagID)
  }

  /** The segment, variant or constraint in the path, where it exists, belongs to the flag in
      the path; the two handlers that insert under a segment need it to exist. */
  predicate WellAddressed(db: DB, req: Request) {
    match req
    case PutSegment(flagID, id, _, _, _) => Exists(db.segments, id) ==> Owned(db.segments, id, flagID)
    case PutSegmentsReorder(flagID, ids, _) =>
      forall i :: 0 <= i < |ids| && Exists(db.segments, ids[i]) ==> Owned(db.segments, ids[i], flagID)
    case DeleteSegment(flagID, id, _) => Exists(db.segments, id) ==> Owned(db.segments, id, flagID)
    case CreateConstraint(flagID, id, _, _) => Owned(db.segments, id, flagID)
    case PutConstraint(flagID, id, _, _) => ConstraintOwned(db, id, flagID)
    case DeleteConstraint(flagID, id, _) => ConstraintOwned(db, id, flagID)
    case PutDistributions(flagID, id, _, _) => Owned(db.segments, id, flagID)
    case PutVariant(flagID, id, _, _, _) => Exists(db.variants, id) ==> Owned(db.variants, id, flagID)
    case DeleteVariant(flagID, id, _) => Exists(db.variants, id) ==> Owned(db.variants, id, flagID)
    case _ => true
  }

  predicate AllInBounds(reqs: seq<Request>) {
    forall i :: 0 <= i < |reqs| ==> InBounds(reqs[i])
  }

  /** Every request is well-addressed when it arrives. */
  predicate AllWellAddressed(lib: Library, reqs: seq<Request>) {
    forall i :: 0 <= i < |reqs| ==> WellAddressed(Execute(lib, reqs[..i]), reqs[i])
  }
}
