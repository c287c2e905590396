/** FootPrint.py: the same pipeline as free functions over values. `parse_log` returns the
    traces or raises, `calculate_relations` returns the relations as one record, and
    `build_footprint_matrix` fills the matrix of any record it is given. */
module FootPrint {
  import opened Basics
  import opened EventLog
  import opened LabelOrder
  import opened RelationSpec
  import opened FootprintSpec
  import opened Discovery

  /** `parse_log(log_str)`: the traces of the log, or the error `int(count)` raises; the
      traces are non-empty lists of labels without `','` or `' '`. */
  method ParseLog(log: string) returns (r: Result<seq<Trace>, ParseError>)
    ensures r == LogTraces(log)
    ensures r.Ok? ==> WellFormedTraces(r.value)
  {
    var traces, error := ParseText(log);
    ParsedTracesWellFormed(log);
    if error.Some? {
      return Err(error.value);
    }
    return Ok(traces);
  }

  /** `calculate_relations(traces)`: the relations of the log, all within
      `activities x activities`. */
  method CalculateRelations(traces: seq<Trace>) returns (r: Relations)
    ensures r == RelationsOf(traces)
    ensures !Escapes(r.activities, r.causality) && !Escapes(r.activities, r.parallel)
    ensures !Escapes(r.activities, r.decision)
  {
    var activities := SortedLabels(Labels(traces));
    var direct := CountSuccessions(traces);
    var causality, parallel, decision := ClassifyPairs(activities, direct);
    r := Relations(direct, causality, parallel, decision, activities);
    ClassifiedInside(activities, direct);
  }

  /** `build_footprint_matrix(relations)`: raises `KeyError` exactly when a relation names
      an activity outside the list, and otherwise returns a matrix over
      `activities x activities` whose cells fit the relations; for relations
      `calculate_relations` produced that is their one footprint. */
  method BuildFootprintMatrix(relations: Relations) returns (r: Result<map<Pair, string>, KeyError>)
    ensures var acts := relations.activities;
      r.Err? <==>
        Escapes(acts, relations.causality) || Escapes(acts, relations.parallel)
        || Escapes(acts, relations.decision)
    ensures r.Err? ==> r.error.key !in relations.activities
    ensures r.Ok? ==>
      Fits(relations.activities, relations.causality, relations.parallel, relations.decision, r.value)
    ensures Derived(relations) ==> r == Ok(FootprintOf(relations))
  {
    r := FillFootprint(relations.activities, relations.causality, relations.parallel, relations.decision);
    if Derived(relations) {
      ghost var ts :| relations == RelationsOf(ts);
      ClassifiedInside(relations.activities, relations.direct);
      FootprintUnique(relations.activities, relations.direct, r.value);
    }
  }
}
