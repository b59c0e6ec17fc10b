/** The tables behind the editing API, and loading a flag with everything that belongs to it. */
module Database {
  import opened Entities
  import opened Tables

  datatype FlagRow = FlagRow(
    key: string,
    description: string,
    createdBy: string,
    updatedBy: string,
    enabled: bool,
    snapshotID: nat,
    notes: string,
    dataRecordsEnabled: bool,
    entityType: string,
    live: bool)

  datatype SegmentData = SegmentData(description: string, rank: nat, rolloutPercent: nat)

  datatype ConstraintData = ConstraintData(property: string, operator: string, value: string)

  datatype DistributionData = DistributionData(variantID: nat, variantKey: string, percent: nat)

  datatype VariantData = VariantData(key: string, attachment: Attachment)

  datatype SnapshotRow = SnapshotRow(flagID: nat, updatedBy: string, body: Flag)

  /** Segments and variants are owned by flags, constraints and distributions by segments.
      `flagTags` holds the (flag ID, tag ID) pairs of the many-to-many relation. */
  datatype DB = DB(
    flags: seq<FlagRow>,
    segments: seq<Row<SegmentData>>,
    constraints: seq<Row<ConstraintData>>,
    distributions: seq<Row<DistributionData>>,
    variants: seq<Row<VariantData>>,
    tags: seq<string>,
    flagTags: set<(nat, nat)>,
    snapshots: seq<SnapshotRow>)

  const EMPTY: DB := DB([], [], [], [], [], [], {}, [])

  predicate LiveFlag(db: DB, flagID: nat) {
    Exists(db.flags, flagID) && db.flags[flagID - 1].live
  }

  // ----- loading -----

  function MakeSegment(id: nat, r: Row<SegmentData>): Segment {
    Segment(id, r.owner, r.data.description, r.data.rank, r.data.rolloutPercent, [], [], UNPREPARED)
  }

  function MakeConstraint(id: nat, r: Row<ConstraintData>): Constraint {
    Constraint(id, r.owner, r.data.property, r.data.operator, r.data.value)
  }

  function MakeDistribution(id: nat, r: Row<DistributionData>): Distribution {
    Distribution(id, r.owner, r.data.variantID, r.data.variantKey, r.data.percent)
  }

  function MakeVariant(id: nat, r: Row<VariantData>): Variant {
    Variant(id, r.owner, r.data.key, r.data.attachment)
  }

  function RankOf(s: Segment): nat { s.rank }

  function SegmentIDOf(s: Segment): nat { s.id }

  function VariantIDOf(d: Distribution): nat { d.variantID }

  function LoadConstraints(db: DB, segmentID: nat): seq<Constraint> {
    Children(db.constraints, segmentID, MakeConstraint)
  }

  /** The live distributions of a segment by variant ID. */
  function LoadDistributions(db: DB, segmentID: nat): seq<Distribution> {
    SortBy(Children(db.distributions, segmentID, MakeDistribution), VariantIDOf)
  }

  /** The live segments of a flag by rank, then by ID, without what belongs to them. */
  function SegmentRows(db: DB, flagID: nat): seq<Segment> {
    SortBy(Children(db.segments, flagID, MakeSegment), RankOf)
  }

  function Fill(db: DB, s: Segment): Segment {
    s.(constraints := LoadConstraints(db, s.id), distributions := LoadDistributions(db, s.id))
  }

  function LoadSegments(db: DB, flagID: nat): (ss: seq<Segment>)
    ensures |ss| == |SegmentRows(db, flagID)|
  {
    var rows := SegmentRows(db, flagID);
    seq(|rows|, i requires 0 <= i < |rows| => Fill(db, rows[i]))
  }

  function LoadVariants(db: DB, flagID: nat): seq<Variant> {
    Children(db.variants, flagID, MakeVariant)
  }

  function TagsOf(tags: seq<string>, flagTags: set<(nat, nat)>, flagID: nat): seq<Tag> {
    if tags == [] then []
    else
      TagsOf(tags[..|tags| - 1], flagTags, flagID)
      + if (flagID, |tags|) in flagTags then [Tag(|tags|, tags[|tags| - 1])] else []
  }

  /** The flag with its segments, variants and tags preloaded. */
  function Load(db: DB, flagID: nat): (f: Flag)
    requires Exists(db.flags, flagID)
    ensures f.id == flagID && f.snapshotID == db.flags[flagID - 1].snapshotID
  {
    var r := db.flags[flagID - 1];
    Flag(flagID, r.key, r.description, r.createdBy, r.updatedBy, r.enabled,
         LoadSegments(db, flagID), LoadVariants(db, flagID), TagsOf(db.tags, db.flagTags, flagID),
         r.snapshotID, r.notes, r.dataRecordsEnabled, r.entityType, map[])
  }
}
