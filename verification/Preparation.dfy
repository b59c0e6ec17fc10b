/** Preparing loaded flags for evaluation: parsing the constraints, denormalizing the
    distributions and indexing the variants. */
module Preparation {
  import opened Entities
  import opened Bucketing

  // ----- constraints -----

  function OperatorToExpr(operator: string): Option<string> {
    if operator == "EQ" then Some("==")
    else if operator == "NEQ" then Some("!=")
    else if operator == "LT" then Some("<")
    else if operator == "LTE" then Some("<=")
    else if operator == "GT" then Some(">")
    else if operator == "GTE" then Some(">=")
    else if operator == "EREG" then Some("=~")
    else if operator == "NEREG" then Some("!~")
    else if operator == "IN" then Some("IN")
    else if operator == "NOTIN" then Some("NOT IN")
    else if operator == "CONTAINS" then Some("CONTAINS")
    else if operator == "NOTCONTAINS" then Some("NOT CONTAINS")
    else None
  }

  function ExprString(property: string, operator: string, value: string): Option<string> {
    if property == "" || operator == "" || value == "" then None
    else
      match OperatorToExpr(operator)
      case None => None
      case Some(o) => Some("({" + property + "} " + o + " " + value + ")")
  }

  /** The conjunction of the constraints, in order; `None` if one of them has no expression. */
  function JoinExprs(cs: seq<Constraint>): Option<string> {
    if cs == [] then Some("")
    else
      var last := cs[|cs| - 1];
      match (JoinExprs(cs[..|cs| - 1]), ExprString(last.property, last.operator, last.value))
      case (Some(s), Some(e)) => Some(if |cs| == 1 then e else s + " AND " + e)
      case _ => None
  }

  function ToExpr(lib: Library, cs: seq<Constraint>): Option<string> {
    match JoinExprs(cs)
    case None => None
    case Some(s) => if lib.parses(s) then Some(s) else None
  }

  // ----- what preparation computes -----

  function SegmentEvaluationOf(lib: Library, s: Segment): Option<SegmentEvaluation> {
    if s.constraints == [] then Some(SegmentEvaluation(None, ArrayOf(s.distributions)))
    else
      match ToExpr(lib, s.constraints)
      case None => None
      case Some(e) => Some(SegmentEvaluation(Some(e), ArrayOf(s.distributions)))
  }

  function VariantsMap(vs: seq<Variant>): map<nat, Variant> {
    if vs == [] then map[] else VariantsMap(vs[..|vs| - 1])[vs[|vs| - 1].id := vs[|vs| - 1]]
  }

  predicate Preparable(lib: Library, f: Flag) {
    forall i :: 0 <= i < |f.segments| ==> SegmentEvaluationOf(lib, f.segments[i]).Some?
  }

  /** The flag with its evaluation fields filled in; `None` when a constraint does not parse. */
  function Prepare(lib: Library, f: Flag): Option<Flag> {
    if Preparable(lib, f) then Some(f.(segments := PreparedSegments(lib, f), variantsMap := VariantsMap(f.variants)))
    else None
  }

  function PreparedSegments(lib: Library, f: Flag): (ss: seq<Segment>)
    requires Preparable(lib, f)
    ensures |ss| == |f.segments|
  {
    seq(|f.segments|, i requires 0 <= i < |f.segments| =>
      f.segments[i].(evaluation := SegmentEvaluationOf(lib, f.segments[i]).value))
  }

  /** What the JSON form keeps of a flag: everything but the evaluation fields. */
  function Serialize(f: Flag): Flag {
    f.(segments := seq(|f.segments|, i requires 0 <= i < |f.segments| => f.segments[i].(evaluation := UNPREPARED)),
       variantsMap := map[])
  }

  /** Preparation recomputes everything that serialization drops, so a serialized flag
      prepares to the same flag as the original, or fails likewise. */
  lemma PrepareAfterSerialize(lib: Library, f: Flag)
    ensures Prepare(lib, Serialize(f)) == Prepare(lib, f)
    ensures Prepare(lib, f).Some? ==> Serialize(Prepare(lib, f).value) == Serialize(f)
  {
    var g := Serialize(f);
    forall i | 0 <= i < |f.segments|
      ensures SegmentEvaluationOf(lib, g.segments[i]) == SegmentEvaluationOf(lib, f.segments[i])
    {
    }
    if Preparable(lib, f) {
      assert Preparable(lib, g);
      assert PreparedSegments(lib, g) == PreparedSegments(lib, f);
    } else {
      var i :| 0 <= i < |f.segments| && SegmentEvaluationOf(lib, f.segments[i]) == None;
      assert SegmentEvaluationOf(lib, g.segments[i]) == None;
    }
  }

  // ----- the variant index -----

  /** Variant IDs are keys of one table, so a loaded flag lists each at most once. */
  ghost predicate DistinctIDs(vs: seq<Variant>) {
    forall i, j :: 0 <= i < j < |vs| ==> vs[i].id != vs[j].id
  }

  lemma {:induction false} VariantsMapFinds(vs: seq<Variant>, id: nat)
    ensures id in VariantsMap(vs) <==> exists i :: 0 <= i < |vs| && vs[i].id == id
    ensures id in VariantsMap(vs) ==> VariantsMap(vs)[id].id == id && VariantsMap(vs)[id] in vs
    ensures DistinctIDs(vs) ==> forall i :: 0 <= i < |vs| && vs[i].id == id ==> VariantsMap(vs)[id] == vs[i]
  {
    if vs != [] {
      var init, last := vs[..|vs| - 1], vs[|vs| - 1];
      VariantsMapFinds(init, id);
      if last.id == id {
        assert vs[|vs| - 1].id == id;
      } else if id in VariantsMap(init) {
        var i :| 0 <= i < |init| && init[i].id == id;
        assert vs[i].id == id;
      }
    }
  }

  // ----- the code -----

  /** A loaded segment with the field that preparation overwrites. */
  class SegmentRecord {
    const segment: Segment
    var evaluation: SegmentEvaluation

    constructor (s: Segment)
      ensures segment == s && evaluation == s.evaluation
    {
      segment, evaluation := s, s.evaluation;
    }

    function Value(): Segment
      reads this
    {
      segment.(evaluation := evaluation)
    }

    /** Fills the two arrays and parses the constraints; on a parse error nothing changes. */
    method PrepareEvaluation(lib: Library) returns (ok: bool)
      modifies this
      ensures ok == SegmentEvaluationOf(lib, segment).Some?
      ensures evaluation == if ok then SegmentEvaluationOf(lib, segment).value else old(evaluation)
    {
      var ds := segment.distributions;
      var variantIDs := new nat[|ds|];
      var percentsAccumulated := new int[|ds|];

      var conditionsExpr: Option<string> := None;
      if |segment.constraints| != 0 {
        conditionsExpr := ToExpr(lib, segment.constraints);
        if conditionsExpr == None {
          return false;
        }
      }

      for i := 0 to |ds|
        invariant forall k :: 0 <= k < i ==> variantIDs[k] == ds[k].variantID
        invariant forall k :: 0 <= k < i ==> percentsAccumulated[k] == Accumulate(ds, 0)[k]
      {
        variantIDs[i] := ds[i].variantID;
        AccumulateStep(ds, 0, i);
        if i == 0 {
          percentsAccumulated[i] := NextEdge(0, ds[i]);
        } else {
          percentsAccumulated[i] := NextEdge(percentsAccumulated[i - 1], ds[i]);
        }
      }

      assert variantIDs[..] == ArrayOf(ds).variantIDs;
      assert percentsAccumulated[..] == ArrayOf(ds).percentsAccumulated;
      evaluation := SegmentEvaluation(conditionsExpr, DistributionArray(variantIDs[..], percentsAccumulated[..]));
      return true;
    }
  }

  lemma {:induction false} AccumulateStep(ds: seq<Distribution>, base: int, i: nat)
    requires i < |ds|
    ensures Accumulate(ds, base)[i] == NextEdge(if i == 0 then base else Accumulate(ds, base)[i - 1], ds[i])
  {
    if i > 0 {
      AccumulateStep(ds[1..], NextEdge(base, ds[0]), i - 1);
    }
  }

  /** A loaded flag with the fields that preparation overwrites. */
  class FlagRecord {
    const flag: Flag
    const segments: seq<SegmentRecord>
    var variantsMap: map<nat, Variant>

    ghost predicate Valid()
      reads this, segments
    {
      && |segments| == |flag.segments|
      && (forall i :: 0 <= i < |segments| ==> segments[i].segment == flag.segments[i])
      && (forall i, j :: 0 <= i < j < |segments| ==> segments[i] != segments[j])
    }

    constructor (f: Flag)
      ensures Valid() && flag == f && fresh(this) && fresh(segments)
    {
      var records: seq<SegmentRecord> := [];
      for i := 0 to |f.segments|
        invariant |records| == i && fresh(records)
        invariant forall k :: 0 <= k < i ==> records[k].segment == f.segments[k]
        invariant forall j, k :: 0 <= j < k < i ==> records[j] != records[k]
      {
        var record := new SegmentRecord(f.segments[i]);
        records := records + [record];
      }
      flag, segments, variantsMap := f, records, f.variantsMap;
    }

    function Value(): Flag
      reads this, segments
    {
      flag.(segments := seq(|segments|, i requires 0 <= i < |segments| reads segments => segments[i].Value()),
            variantsMap := variantsMap)
    }

    /** Prepares the segments in order and stops at the first that fails; then indexes the variants. */
    method PrepareEvaluation(lib: Library) returns (ok: bool)
      requires Valid()
      modifies this, segments
      ensures Valid()
      ensures ok == Prepare(lib, flag).Some?
      ensures ok ==> Value() == Prepare(lib, flag).value
    {
      variantsMap := map[];
      for i := 0 to |segments|
        invariant Valid() && variantsMap == map[]
        invariant forall k :: 0 <= k < i ==>
          SegmentEvaluationOf(lib, flag.segments[k]) == Some(segments[k].evaluation)
      {
        var prepared := segments[i].PrepareEvaluation(lib);
        if !prepared {
          return false;
        }
      }
      for i := 0 to |flag.variants|
        invariant Valid()
        invariant variantsMap == VariantsMap(flag.variants[..i])
        invariant forall k :: 0 <= k < |segments| ==>
          SegmentEvaluationOf(lib, flag.segments[k]) == Some(segments[k].evaluation)
      {
        assert flag.variants[..i + 1][..i] == flag.variants[..i];
        variantsMap := variantsMap[flag.variants[i].id := flag.variants[i]];
      }
      assert flag.variants[..|flag.variants|] == flag.variants;
      assert Value().segments == PreparedSegments(lib, flag);
      return true;
    }
  }
}
