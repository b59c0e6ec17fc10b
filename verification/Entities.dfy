/** The entities that evaluation works on, as they are loaded from the tables or
    read back from their JSON form. */
module Entities {

  datatype Option<+T> = None | Some(value: T)

  /** Dynamic configuration of a variant; the values are left uninterpreted. */
  type Attachment = map<string, string>

  datatype Constraint = Constraint(id: nat, segmentID: nat, property: string, operator: string, value: string)

  datatype Distribution = Distribution(id: nat, segmentID: nat, variantID: nat, variantKey: string, percent: nat)

  datatype Variant = Variant(id: nat, flagID: nat, key: string, attachment: Attachment)

  datatype Tag = Tag(id: nat, value: string)

  /** Variant IDs and prefix sums over the buckets, one entry per distribution. */
  datatype DistributionArray = DistributionArray(variantIDs: seq<nat>, percentsAccumulated: seq<int>)

  datatype SegmentEvaluation = SegmentEvaluation(conditionsExpr: Option<string>, distributionArray: DistributionArray)

  const UNPREPARED: SegmentEvaluation := SegmentEvaluation(None, DistributionArray([], []))

  datatype Segment = Segment(
    id: nat,
    flagID: nat,
    description: string,
    rank: nat,
    rolloutPercent: nat,
    constraints: seq<Constraint>,
    distributions: seq<Distribution>,
    evaluation: SegmentEvaluation)

  datatype Flag = Flag(
    id: nat,
    key: string,
    description: string,
    createdBy: string,
    updatedBy: string,
    enabled: bool,
    segments: seq<Segment>,
    variants: seq<Variant>,
    tags: seq<Tag>,
    snapshotID: nat,
    notes: string,
    dataRecordsEnabled: bool,
    entityType: string,
    variantsMap: map<nat, Variant>)

  /** The verdict of the conditions library on one expression and one context. */
  datatype Verdict = Match | NoMatch | Failure

  /** The two external libraries that evaluation calls. Every theorem holds for every
      checksum function, every parser and every evaluator. */
  datatype Library = Library(
    checksum: string -> nat,
    parses: string -> bool,
    evaluate: (string, map<string, string>) -> Verdict)
}
