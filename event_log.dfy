/** The log text format and `parse_log`, shared by alpha.py, FootPrint.py and main.py:
    the text is stripped of brackets, cut at every `", "`, and every part yields
    `count` copies of one trace, where `count` follows the last `^` (default 1). */
module EventLog {
  import opened Basics
  import opened PyStr

  type Activity = string

  type Trace = seq<Activity>

  /** The `ValueError` raised by `int(count)`, with the text it rejected. */
  datatype ParseError = InvalidCount(literal: string)

  /** Python's `[t] * count`: `count` copies of `t`, none when `count <= 0`. */
  function Repeat(t: Trace, count: int): (r: seq<Trace>)
    ensures |r| == if count <= 0 then 0 else count
  {
    if count <= 0 then [] else Repeat(t, count - 1) + [t]
  }

  /** Every copy is `t`. */
  lemma {:induction false} RepeatCopies(t: Trace, count: int)
    ensures forall i :: 0 <= i < |Repeat(t, count)| ==> Repeat(t, count)[i] == t
    decreases count
  {
    if count > 0 {
      RepeatCopies(t, count - 1);
    }
  }

  /** `trace_part.strip('<>').replace(' ', '').split(',')`. */
  function TraceOf(tracePart: string): Trace {
    Split(RemoveAll(Strip(tracePart, "<>"), ' '), ",")
  }

  /** `log_str.strip('[]').split(', ')`. */
  function Parts(log: string): seq<string> {
    Split(Strip(log, "[]"), ", ")
  }

  /** The text of a stripped part before its last `^`; the whole part when there is none. */
  function TracePart(p: string): string {
    if '^' in p then RSplitOnce(p, '^').0 else p
  }

  /** The text of a stripped part after its last `^`, if it has one. */
  function CountLiteral(p: string): Option<string> {
    if '^' in p then Some(RSplitOnce(p, '^').1) else None
  }

  /** The traces one part of the log contributes, or the error `int(count)` raises. */
  function PartTraces(part: string): Result<seq<Trace>, ParseError> {
    var p := StripSpace(part);
    match CountLiteral(p)
    case None => Ok(Repeat(TraceOf(TracePart(p)), 1))
    case Some(literal) =>
      match ParseInt(literal)
      case None => Err(InvalidCount(literal))
      case Some(n) => Ok(Repeat(TraceOf(TracePart(p)), n))
  }

  /** `PartTraces` of every part, in part order. */
  function PartResults(parts: seq<string>): (rs: seq<Result<seq<Trace>, ParseError>>)
    ensures |rs| == |parts|
    ensures forall k :: 0 <= k < |parts| ==> rs[k] == PartTraces(parts[k])
  {
    seq(|parts|, k requires 0 <= k < |parts| => PartTraces(parts[k]))
  }

  /** Where the parsing loop stands: the traces collected so far and, once `int()` has
      raised, the error that stopped it. */
  datatype Outcome = Outcome(traces: seq<Trace>, error: Option<ParseError>)

  /** The parsing loop run over the part results in order, stopping at the first error. */
  function Collect(rs: seq<Result<seq<Trace>, ParseError>>): Outcome {
    if rs == [] then Outcome([], None)
    else
      var before := Collect(rs[..|rs| - 1]);
      if before.error.Some? then before
      else
        match rs[|rs| - 1]
        case Err(e) => Outcome(before.traces, Some(e))
        case Ok(ts) => Outcome(before.traces + ts, None)
  }

  function ParseOutcome(log: string): Outcome {
    Collect(PartResults(Parts(log)))
  }

  /** `parse_log` as a value: the event log, or the error it raises. */
  function LogTraces(log: string): Result<seq<Trace>, ParseError> {
    var o := ParseOutcome(log);
    if o.error.None? then Ok(o.traces) else Err(o.error.value)
  }

  /** The branches of `parse_log`'s loop body, step by step. */
  lemma PartWithoutCount(part: string)
    requires '^' !in StripSpace(part)
    ensures PartTraces(part) == Ok(Repeat(TraceOf(StripSpace(part)), 1))
  {
  }

  lemma PartWithCount(part: string, cut: (string, string))
    requires '^' in StripSpace(part) && cut == RSplitOnce(StripSpace(part), '^')
    ensures ParseInt(cut.1).None? ==> PartTraces(part) == Err(InvalidCount(cut.1))
    ensures ParseInt(cut.1).Some? ==> PartTraces(part) == Ok(Repeat(TraceOf(cut.0), ParseInt(cut.1).value))
  {
  }

  /** One more part: its traces are appended, or its error ends the parse. */
  lemma CollectNext(rs: seq<Result<seq<Trace>, ParseError>>, k: nat, ts: seq<Trace>)
    requires k < |rs| && Collect(rs[..k]) == Outcome(ts, None)
    ensures rs[k].Ok? ==> Collect(rs[..k + 1]) == Outcome(ts + rs[k].value, None)
    ensures rs[k].Err? ==> Collect(rs[..k + 1]) == Outcome(ts, Some(rs[k].error))
  {
    assert rs[..k + 1][..k] == rs[..k];
  }

  /** Once a part has failed, the later parts change nothing. */
  lemma {:induction false} CollectStops(rs: seq<Result<seq<Trace>, ParseError>>, k: nat)
    requires k <= |rs| && Collect(rs[..k]).error.Some?
    ensures Collect(rs) == Collect(rs[..k])
    decreases |rs| - k
  {
    if k < |rs| {
      var init := rs[..|rs| - 1];
      assert init[..k] == rs[..k];
      CollectStops(init, k);
    } else {
      assert rs[..k] == rs;
    }
  }

  // ---------------------------------------------------------------- parts in order

  /** No part failed. */
  predicate AllOk(rs: seq<Result<seq<Trace>, ParseError>>) {
    forall k :: 0 <= k < |rs| ==> rs[k].Ok?
  }

  /** The traces of parts that all parse, concatenated front to back. */
  function Concatenated(rs: seq<Result<seq<Trace>, ParseError>>): seq<Trace>
    requires AllOk(rs)
  {
    if rs == [] then [] else rs[0].value + Concatenated(rs[1..])
  }

  lemma {:induction false} ConcatenatedSnoc(rs: seq<Result<seq<Trace>, ParseError>>)
    requires rs != [] && AllOk(rs)
    ensures Concatenated(rs) == Concatenated(rs[..|rs| - 1]) + rs[|rs| - 1].value
    decreases |rs|
  {
    if |rs| > 1 {
      assert rs[1..][..|rs| - 2] == rs[..|rs| - 1][1..];
      ConcatenatedSnoc(rs[1..]);
    }
  }

  /** The parsing loop keeps part order: without an error the log is the traces of every
      part in turn; with one, it is the error of the first failing part, and the traces
      collected are those of the parts before it. */
  lemma {:induction false} CollectInOrder(rs: seq<Result<seq<Trace>, ParseError>>)
    ensures Collect(rs).error.None? <==> AllOk(rs)
    ensures AllOk(rs) ==> Collect(rs).traces == Concatenated(rs)
    ensures Collect(rs).error.Some? ==>
      exists k :: 0 <= k < |rs|
        && rs[k] == Err(Collect(rs).error.value)
        && AllOk(rs[..k])
        && Collect(rs).traces == Concatenated(rs[..k])
    decreases |rs|
  {
    if rs != [] {
      var init := rs[..|rs| - 1];
      CollectInOrder(init);
      if AllOk(rs) {
        assert AllOk(init);
        ConcatenatedSnoc(rs);
      } else if Collect(init).error.Some? {
        var k :| 0 <= k < |init|
          && init[k] == Err(Collect(init).error.value)
          && AllOk(init[..k])
          && Collect(init).traces == Concatenated(init[..k]);
        assert rs[k] == init[k] && rs[..k] == init[..k];
      } else {
        assert rs[..|rs| - 1] == init;
      }
    }
  }

  /** `parse_log` succeeds exactly when every part's count parses, and then yields the
      traces of the parts in order; otherwise it raises the first part's error. */
  lemma ParseLogInOrder(log: string)
    ensures var rs := PartResults(Parts(log));
      && (LogTraces(log).Ok? <==> AllOk(rs))
      && (AllOk(rs) ==> LogTraces(log).value == Concatenated(rs))
      && (LogTraces(log).Err? ==> exists k :: 0 <= k < |rs| && rs[k] == Err(LogTraces(log).error) && AllOk(rs[..k]))
  {
    CollectInOrder(PartResults(Parts(log)));
  }

  // ---------------------------------------------------------------- copies per part

  /** The count of a part is what `int()` makes of the text after its last `^`; a part
      without `^` counts once. */
  function CountOf(part: string): Option<int> {
    match CountLiteral(StripSpace(part))
    case None => Some(1)
    case Some(literal) => ParseInt(literal)
  }

  /** Each part adds `max(count, 0)` copies of one trace, exactly when its count parses,
      and fails otherwise. */
  lemma PartCopies(part: string)
    ensures PartTraces(part).Ok? <==> CountOf(part).Some?
    ensures PartTraces(part).Ok? ==>
      |PartTraces(part).value| == if CountOf(part).value <= 0 then 0 else CountOf(part).value
    ensures PartTraces(part).Ok? ==>
      forall i :: 0 <= i < |PartTraces(part).value| ==>
        PartTraces(part).value[i] == TraceOf(TracePart(StripSpace(part)))
  {
    var p := StripSpace(part);
    match CountOf(part)
    case None =>
    case Some(n) => RepeatCopies(TraceOf(TracePart(p)), n);
  }

  // ---------------------------------------------------------------- trace shape

  /** Every character of a piece occurs in the joined string. */
  lemma {:induction false} JoinedPieceChars(parts: seq<string>, sep: string, k: int, c: char)
    requires 0 <= k < |parts| && c in parts[k]
    ensures c in Join(parts, sep)
    decreases |parts|
  {
    if |parts| > 1 {
      assert Join(parts, sep) == parts[0] + sep + Join(parts[1..], sep);
      if k > 0 {
        JoinedPieceChars(parts[1..], sep, k - 1, c);
      }
    }
  }

  /** An activity label produced by the parser contains no `','` and no `' '`. */
  predicate CleanLabel(a: Activity) {
    ',' !in a && ' ' !in a
  }

  /** Every trace `split` makes is non-empty and its labels are clean. */
  lemma TraceOfShape(tracePart: string)
    ensures WellFormedTrace(TraceOf(tracePart))
  {
    var s := RemoveAll(Strip(tracePart, "<>"), ' ');
    var t := TraceOf(tracePart);
    SplitPiecesFree(s, ",");
    forall i | 0 <= i < |t| ensures CleanLabel(t[i]) {
      ContainsChar(t[i], ',');
      if ' ' in t[i] {
        JoinedPieceChars(t, ",", i, ' ');
      }
    }
  }

  /** A trace as the parser makes them: at least one label, every label clean. */
  predicate WellFormedTrace(t: Trace) {
    |t| >= 1 && forall j :: 0 <= j < |t| ==> CleanLabel(t[j])
  }

  predicate WellFormedTraces(ts: seq<Trace>) {
    forall i :: 0 <= i < |ts| ==> WellFormedTrace(ts[i])
  }

  /** The traces of one part are well formed. */
  lemma PartWellFormed(part: string)
    ensures PartTraces(part).Ok? ==> WellFormedTraces(PartTraces(part).value)
  {
    if PartTraces(part).Ok? {
      var ts := PartTraces(part).value;
      var t := TraceOf(TracePart(StripSpace(part)));
      PartCopies(part);
      TraceOfShape(TracePart(StripSpace(part)));
      forall i | 0 <= i < |ts| ensures WellFormedTrace(ts[i]) {
        assert ts[i] == t;
      }
    }
  }

  lemma {:induction false} CollectWellFormed(rs: seq<Result<seq<Trace>, ParseError>>)
    requires forall k :: 0 <= k < |rs| && rs[k].Ok? ==> WellFormedTraces(rs[k].value)
    ensures WellFormedTraces(Collect(rs).traces)
    decreases |rs|
  {
    if rs != [] {
      CollectWellFormed(rs[..|rs| - 1]);
    }
  }

  /** Every trace the parser collects, whether or not it later fails, is non-empty and
      has clean labels. */
  lemma ParsedTracesWellFormed(log: string)
    ensures WellFormedTraces(ParseOutcome(log).traces)
  {
    var parts := Parts(log);
    forall k | 0 <= k < |parts| {
      PartWellFormed(parts[k]);
    }
    CollectWellFormed(PartResults(parts));
  }
}
