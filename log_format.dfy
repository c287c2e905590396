/** Writing an event log in the text format `parse_log` reads, `[<a,b>^2, <c>]`, and the
    proof that parsing what was written gives the log back. */
module LogFormat {
  import opened Basics
  import opened PyStr
  import opened EventLog

  /** One part of a log text: a trace and, when the text carries `^n`, its count. */
  datatype Entry = Entry(trace: Trace, count: Option<int>)

  /** A label that survives the round trip: none of the characters the parser cuts at,
      strips or removes. */
  predicate Writable(a: Activity) {
    forall i :: 0 <= i < |a| ==> a[i] !in ",<>^[] "
  }

  predicate WritableEntry(e: Entry) {
    |e.trace| >= 1 && forall j :: 0 <= j < |e.trace| ==> Writable(e.trace[j])
  }

  function ShowTrace(t: Trace): string {
    "<" + Join(t, ",") + ">"
  }

  function ShowEntry(e: Entry): string {
    match e.count
    case None => ShowTrace(e.trace)
    case Some(n) => ShowTrace(e.trace) + "^" + ShowInt(n)
  }

  function ShowEntries(es: seq<Entry>): (r: seq<string>)
    ensures |r| == |es|
    ensures forall k :: 0 <= k < |es| ==> r[k] == ShowEntry(es[k])
  {
    seq(|es|, k requires 0 <= k < |es| => ShowEntry(es[k]))
  }

  /** The log text, parts separated by `", "`. */
  function ShowLog(es: seq<Entry>): string {
    "[" + Join(ShowEntries(es), ", ") + "]"
  }

  /** The count a written entry stands for. */
  function Copies(e: Entry): int {
    match e.count case None => 1 case Some(n) => n
  }

  /** The event log the entries denote: each trace `count` times (once without `^n`,
      never when `count <= 0`), entries in order. */
  function Denoted(es: seq<Entry>): seq<Trace> {
    if es == [] then []
    else
      Repeat(es[0].trace, Copies(es[0])) + Denoted(es[1..])
  }

  // ---------------------------------------------------------------- helpers

  lemma JoinAvoids(parts: seq<string>, sep: string, c: char)
    requires c !in sep
    requires forall k :: 0 <= k < |parts| ==> c !in parts[k]
    ensures c !in Join(parts, sep)
  {
    if c in Join(parts, sep) {
      JoinChars(parts, sep, c);
    }
  }

  /** No label of a writable trace holds a character the format reserves. */
  lemma LabelsAvoid(t: Trace, c: char)
    requires forall j :: 0 <= j < |t| ==> Writable(t[j])
    requires c in ",<>^[] "
    ensures forall j :: 0 <= j < |t| ==> c !in t[j]
  {
    forall j | 0 <= j < |t| ensures c !in t[j] {
      assert Writable(t[j]);
    }
  }

  /** The labels of a written trace, joined by `','`, hold no `'<'`, `'>'` or `' '`. */
  lemma BodyAvoids(t: Trace, c: char)
    requires forall j :: 0 <= j < |t| ==> Writable(t[j])
    requires c in "<> []^"
    ensures c !in Join(t, ",")
  {
    LabelsAvoid(t, c);
    JoinAvoids(t, ",", c);
  }

  /** A written trace holds none of the other reserved characters. */
  lemma ShowTraceAvoids(t: Trace, c: char)
    requires forall j :: 0 <= j < |t| ==> Writable(t[j])
    requires c in " []^"
    ensures c !in ShowTrace(t)
  {
    var body := Join(t, ",");
    BodyAvoids(t, c);
    var p := ShowTrace(t);
    forall i | 0 <= i < |p| ensures p[i] != c {
      if 0 < i < |p| - 1 {
        assert p[i] == body[i - 1];
      }
    }
  }

  /** `TraceOf` reads a written trace back. */
  lemma TraceRoundTrip(t: Trace)
    requires |t| >= 1 && forall j :: 0 <= j < |t| ==> Writable(t[j])
    ensures TraceOf(ShowTrace(t)) == t
  {
    var body := Join(t, ",");
    BodyAvoids(t, '<');
    BodyAvoids(t, '>');
    BodyAvoids(t, ' ');
    forall i | 0 <= i < |body| ensures body[i] !in "<>" {
      assert body[i] in body;
    }
    StripEnclosed('<', body, '>', "<>");
    RemoveAllAbsent(body, ' ');
    LabelsAvoid(t, ',');
    SplitJoin(t, ",");
  }

  /** A written part has no surrounding whitespace. */
  lemma EntryStripped(e: Entry)
    ensures StripSpace(ShowEntry(e)) == ShowEntry(e)
  {
    var p := ShowEntry(e);
    NotWhitespace('<');
    NotWhitespace(p[|p| - 1]);
    StripUntouched(p, Whitespace);
  }

  /** A stripped part without `^` is one copy of its trace. */
  lemma PartOnce(p: string, t: Trace)
    requires StripSpace(p) == p && '^' !in p && TraceOf(p) == t
    ensures PartTraces(p) == Ok(Repeat(t, 1))
  {
  }

  /** A stripped part whose text after the last `^` is a count is that many copies of the
      trace before it. */
  lemma PartCounted(p: string, tracePart: string, literal: string, n: int, t: Trace)
    requires StripSpace(p) == p
    requires TracePart(p) == tracePart && CountLiteral(p) == Some(literal)
    requires ParseInt(literal) == Some(n) && TraceOf(tracePart) == t
    ensures PartTraces(p) == Ok(Repeat(t, n))
  {
  }

  /** What the parser needs to know of a written trace without a count. */
  lemma PlainFacts(t: Trace)
    requires |t| >= 1 && forall j :: 0 <= j < |t| ==> Writable(t[j])
    ensures var p := ShowTrace(t); StripSpace(p) == p && '^' !in p && TraceOf(p) == t
  {
    ShowTraceAvoids(t, '^');
    TraceRoundTrip(t);
    EntryStripped(Entry(t, None));
  }

  /** A written trace without a count is one copy of it. */
  lemma PlainRoundTrip(t: Trace)
    requires |t| >= 1 && forall j :: 0 <= j < |t| ==> Writable(t[j])
    ensures PartTraces(ShowTrace(t)) == Ok(Repeat(t, 1))
  {
    PlainFacts(t);
    PartOnce(ShowTrace(t), t);
  }

  /** A written trace with `^n` is `n` copies of it. */
  lemma CountedRoundTrip(t: Trace, n: int)
    requires |t| >= 1 && forall j :: 0 <= j < |t| ==> Writable(t[j])
    ensures PartTraces(ShowTrace(t) + "^" + ShowInt(n)) == Ok(Repeat(t, n))
  {
    var shown := ShowTrace(t);
    var digits := ShowInt(n);
    var p := shown + "^" + digits;
    assert StripSpace(p) == p by {
      EntryStripped(Entry(t, Some(n)));
    }
    assert TracePart(p) == shown && CountLiteral(p) == Some(digits) by {
      ShowIntAvoids(n, '^');
      RSplitOnceAt(shown, '^', digits);
    }
    assert TraceOf(shown) == t by {
      TraceRoundTrip(t);
    }
    ParseShowInt(n);
    PartCounted(p, shown, digits, n, t);
  }

  /** One written part yields exactly the copies its entry denotes. */
  lemma EntryRoundTrip(e: Entry)
    requires WritableEntry(e)
    ensures PartTraces(ShowEntry(e)) == Ok(Repeat(e.trace, Copies(e)))
  {
    match e.count
    case None => PlainRoundTrip(e.trace);
    case Some(n) => CountedRoundTrip(e.trace, n);
  }

  lemma {:induction false} DenotedConcatenated(es: seq<Entry>, rs: seq<Result<seq<Trace>, ParseError>>)
    requires |rs| == |es|
    requires forall k :: 0 <= k < |es| ==> rs[k] == Ok(Repeat(es[k].trace, Copies(es[k])))
    ensures AllOk(rs) && Concatenated(rs) == Denoted(es)
    decreases |es|
  {
    if es != [] {
      DenotedConcatenated(es[1..], rs[1..]);
    }
  }

  /** A written part holds no `' '`, `'['` or `']'`. */
  lemma EntryAvoids(e: Entry, c: char)
    requires WritableEntry(e) && c in " []"
    ensures c !in ShowEntry(e)
  {
    ShowTraceAvoids(e.trace, c);
    match e.count
    case None =>
    case Some(n) =>
      var digits := ShowInt(n);
      ShowIntAvoids(n, c);
      assert ShowEntry(e) == ShowTrace(e.trace) + "^" + digits;
  }

  /** The written parts of a log hold no `' '`, `'['` or `']'`. */
  lemma EntriesAvoid(es: seq<Entry>, c: char)
    requires forall k :: 0 <= k < |es| ==> WritableEntry(es[k])
    requires c in " []"
    ensures forall k :: 0 <= k < |es| ==> c !in ShowEntries(es)[k]
  {
    forall k | 0 <= k < |es| ensures c !in ShowEntries(es)[k] {
      EntryAvoids(es[k], c);
    }
  }

  /** `strip('[]')` takes off exactly the brackets the writer put around a log. */
  lemma LogStripped(es: seq<Entry>)
    requires forall k :: 0 <= k < |es| ==> WritableEntry(es[k])
    ensures Strip(ShowLog(es), "[]") == Join(ShowEntries(es), ", ")
  {
    var parts := ShowEntries(es);
    var body := Join(parts, ", ");
    EntriesAvoid(es, '[');
    EntriesAvoid(es, ']');
    JoinAvoids(parts, ", ", '[');
    JoinAvoids(parts, ", ", ']');
    forall i | 0 <= i < |body| ensures body[i] !in "[]" {
      assert body[i] in body;
    }
    StripEnclosed('[', body, ']', "[]");
  }

  /** Cutting a written log at `", "` gives back its written parts. */
  lemma LogParts(es: seq<Entry>)
    requires |es| >= 1
    requires forall k :: 0 <= k < |es| ==> WritableEntry(es[k])
    ensures Parts(ShowLog(es)) == ShowEntries(es)
  {
    LogStripped(es);
    EntriesAvoid(es, ' ');
    SplitJoin(ShowEntries(es), ", ");
  }

  /** Parsing a written log gives back the traces it denotes, in order: the round trip of
      `parse_log` for every non-empty list of entries with writable labels. */
  lemma ParseShowLog(es: seq<Entry>)
    requires |es| >= 1
    requires forall k :: 0 <= k < |es| ==> WritableEntry(es[k])
    ensures LogTraces(ShowLog(es)) == Ok(Denoted(es))
  {
    LogParts(es);
    var rs := PartResults(ShowEntries(es));
    assert AllOk(rs) && Concatenated(rs) == Denoted(es) by {
      forall k | 0 <= k < |es| ensures rs[k] == Ok(Repeat(es[k].trace, Copies(es[k]))) {
        EntryRoundTrip(es[k]);
      }
      DenotedConcatenated(es, rs);
    }
    CollectInOrder(rs);
  }

  /** The entries of the log `[<a,b>^2, <c>]`. */
  function TwoTraces(): seq<Entry> {
    [Entry(["a", "b"], Some(2)), Entry(["c"], None)]
  }

  lemma TwoTracesShown()
    ensures ShowLog(TwoTraces()) == "[<a,b>^2, <c>]"
  {
    var es := TwoTraces();
    var parts := ShowEntries(es);
    assert ShowInt(2) == "2";
    assert Join(["a", "b"], ",") == "a,b";
    assert Join(["c"], ",") == "c";
    assert parts[0] == ShowEntry(es[0]) == "<a,b>^2";
    assert parts[1] == ShowEntry(es[1]) == "<c>";
    assert parts == ["<a,b>^2", "<c>"];
    assert Join(parts, ", ") == "<a,b>^2, <c>";
  }

  lemma TwoTracesDenoted()
    ensures Denoted(TwoTraces()) == [["a", "b"], ["a", "b"], ["c"]]
  {
    assert Repeat(["a", "b"], 2) == [["a", "b"], ["a", "b"]];
  }

  lemma TwoTracesWritable()
    ensures forall k :: 0 <= k < |TwoTraces()| ==> WritableEntry(TwoTraces()[k])
  {
    assert Writable("a") && Writable("b") && Writable("c");
  }

  /** The log `[<a,b>^2, <c>]` parses to `[[a,b], [a,b], [c]]`. */
  lemma ParseTwoTraces()
    ensures LogTraces("[<a,b>^2, <c>]") == Ok([["a", "b"], ["a", "b"], ["c"]])
  {
    TwoTracesShown();
    TwoTracesDenoted();
    TwoTracesWritable();
    ParseShowLog(TwoTraces());
  }

  /** A count that is not an integer makes `parse_log` raise: `[<a>^x]` fails on `int('x')`. */
  lemma ParseBadCount()
    ensures LogTraces("[<a>^x]") == Err(InvalidCount("x"))
  {
    BracketedPart("<a>^x");
    assert "[<a>^x]" == "[" + "<a>^x" + "]";
    BadCountPart();
    var rs := PartResults(["<a>^x"]);
    assert rs[..0] == [];
  }

  /** A log of one part without brackets or spaces is cut into that part alone. */
  lemma BracketedPart(part: string)
    requires forall i :: 0 <= i < |part| ==> part[i] != '[' && part[i] != ']' && part[i] != ' '
    ensures Parts("[" + part + "]") == [part]
  {
    StripEnclosed('[', part, ']', "[]");
    SplitJoin([part], ", ");
  }

  lemma BadCountPart()
    ensures PartTraces("<a>^x") == Err(InvalidCount("x"))
  {
    var part := "<a>^x";
    StripUntouched(part, Whitespace);
    assert part == "<a>" + ['^'] + "x";
    RSplitOnceAt("<a>", '^', "x");
    assert ParseInt("x") == None by {
      StripUntouched("x", IntSpace);
      assert !DigitGroups("x");
    }
    PartWithCount(part, ("<a>", "x"));
  }

  /** `[<a>^\x1c2]` makes `parse_log` raise: `part.strip()` keeps the separator inside the
      part, and `int('\x1c2')` rejects it. */
  lemma ParseSeparatorCount()
    ensures LogTraces("[<a>^\U{1C}2]") == Err(InvalidCount("\U{1C}2"))
  {
    BracketedPart("<a>^\U{1C}2");
    assert "[<a>^\U{1C}2]" == "[" + "<a>^\U{1C}2" + "]";
    SeparatorPart();
    var rs := PartResults(["<a>^\U{1C}2"]);
    assert rs[..0] == [];
  }

  lemma SeparatorPart()
    ensures PartTraces("<a>^\U{1C}2") == Err(InvalidCount("\U{1C}2"))
  {
    var part := "<a>^\U{1C}2";
    StripUntouched(part, Whitespace);
    assert part == "<a>" + ['^'] + "\U{1C}2";
    RSplitOnceAt("<a>", '^', "\U{1C}2");
    ParseIntSeparator();
    PartWithCount(part, ("<a>", "\U{1C}2"));
  }

  /** The empty print `[]` is not the empty log: `''.split(', ')` is `['']`, and so is
      `''.split(',')`, so `parse_log("[]")` yields one trace with one empty label. */
  lemma ParseEmptyLog()
    ensures LogTraces("[]") == Ok([[""]])
  {
    assert Parts("[]") == [""] by {
      assert SkipLeft("[]", "[]", 0) == 2;
      assert FindFrom("", ", ", 0) == None;
    }
    assert StripSpace("") == "" && Strip("", "<>") == "";
    assert TraceOf("") == [""] by {
      assert RemoveAll("", ' ') == "";
      assert FindFrom("", ",", 0) == None;
    }
    PartWithoutCount("");
    assert Repeat([""], 1) == [[""]];
    var rs := PartResults([""]);
    assert rs[..0] == [] && rs[..1] == rs;
  }
}
