/** main.py: the shorter copy of the pipeline, `parse_log` and `calculate_relations` as
    free functions. */
module MainScript {
  import opened Basics
  import opened EventLog
  import opened LabelOrder
  import opened RelationSpec
  import opened Discovery

  /** `parse_log(log_str)`: the traces of the parts in order, `max(count, 0)` copies of
      each, or the error of the first part whose count does not parse. */
  method ParseLog(log: string) returns (r: Result<seq<Trace>, ParseError>)
    ensures r == LogTraces(log)
    ensures var rs := PartResults(Parts(log));
      && (r.Ok? <==> AllOk(rs))
      && (r.Ok? ==> r.value == Concatenated(rs))
  {
    var traces, error := ParseText(log);
    ParseLogInOrder(log);
    if error.None? {
      r := Ok(traces);
    } else {
      r := Err(error.value);
    }
  }

  /** `calculate_relations(traces)`: the relations of the log; the activity list is the
      sorted list of the labels, without repetitions. */
  method CalculateRelations(traces: seq<Trace>) returns (r: Relations)
    ensures r == RelationsOf(traces)
    ensures StrictlySorted(r.activities) && Elements(r.activities) == Labels(traces)
  {
    var activities := SortedLabels(Labels(traces));
    var direct := CountSuccessions(traces);
    var causality, parallel, decision := ClassifyPairs(activities, direct);
    r := Relations(direct, causality, parallel, decision, activities);
  }
}
