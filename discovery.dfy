/** The loops alpha.py, FootPrint.py and main.py share, each proved against the function
    that specifies it: the parsing loop of `parse_log`, the counting and classifying loops
    of `calculate_relations`, and the filling loops of `build_footprint_matrix`. */
module Discovery {
  import opened Basics
  import opened PyStr
  import opened EventLog
  import opened RelationSpec
  import opened FootprintSpec

  /** One part of the log: stripped, cut at its last `^` if it has one, and turned into
      `count` copies of its trace; `int(count)` may raise. */
  method ParsePart(raw: string) returns (r: Result<seq<Trace>, ParseError>)
    ensures r == PartTraces(raw)
  {
    var part := StripSpace(raw);
    var tracePart: string;
    var count: int;
    if '^' in part {
      var cut := RSplitOnce(part, '^');
      tracePart := cut.0;
      var parsed := ParseInt(cut.1);
      if parsed.None? {
        PartWithCount(raw, cut);
        return Err(InvalidCount(cut.1));
      }
      count := parsed.value;
      PartWithCount(raw, cut);
    } else {
      tracePart := part;
      count := 1;
      PartWithoutCount(raw);
    }
    var trace := TraceOf(tracePart);
    return Ok(Repeat(trace, count));
  }

  /** The loop of `parse_log` over the parts of the log: the traces collected and, if
      `int(count)` raised, the error. On an error the traces are those of the parts
      before the failing one. */
  method ParseParts(parts: seq<string>) returns (traces: seq<Trace>, error: Option<ParseError>)
    ensures Outcome(traces, error) == Collect(PartResults(parts))
  {
    ghost var rs := PartResults(parts);
    traces := [];
    var k := 0;
    while k < |parts|
      invariant 0 <= k <= |parts|
      invariant Collect(rs[..k]) == Outcome(traces, None)
    {
      var r := ParsePart(parts[k]);
      assert r == rs[k];
      CollectNext(rs, k, traces);
      if r.Err? {
        error := Some(r.error);
        CollectStops(rs, k + 1);
        return;
      }
      traces := traces + r.value;
      k := k + 1;
    }
    error := None;
    assert rs[..|parts|] == rs;
  }

  /** `parse_log`: `log_str.strip('[]').split(', ')`, then the loop over the parts. */
  method ParseText(log: string) returns (traces: seq<Trace>, error: Option<ParseError>)
    ensures Outcome(traces, error) == ParseOutcome(log)
  {
    var parts := Parts(log);
    traces, error := ParseParts(parts);
  }

  /** The direct-succession loop: `direct[(t[i], t[i + 1])] += 1` over every trace and
      every adjacent position, front to back. */
  method CountSuccessions(traces: seq<Trace>) returns (direct: map<Pair, nat>)
    ensures direct == DirectOf(traces)
  {
    direct := map[];
    for k := 0 to |traces|
      invariant direct == DirectOf(traces[..k])
    {
      var trace := traces[k];
      ghost var before := direct;
      var i := 0;
      while i + 1 < |trace|
        invariant 0 <= i <= StepCount(trace)
        invariant direct == TallySteps(before, trace, i)
      {
        var pair := (trace[i], trace[i + 1]);
        direct := direct[pair := Get(direct, pair) + 1];
        i := i + 1;
      }
      assert traces[..k + 1][..k] == traces[..k];
    }
    assert traces[..|traces|] == traces;
  }

  /** The comparison loop: every ordered pair of listed activities goes into the relation
      its classification names (a pair `x -> y` seen from `y` goes nowhere). */
  method ClassifyPairs(acts: seq<Activity>, direct: map<Pair, nat>)
    returns (causality: set<Pair>, parallel: set<Pair>, decision: set<Pair>)
    ensures causality == Among(acts, acts, direct, Causes)
    ensures parallel == Among(acts, acts, direct, Parallel)
    ensures decision == Among(acts, acts, direct, Choice)
  {
    causality, parallel, decision := {}, {}, {};
    for i := 0 to |acts|
      invariant causality == Among(acts[..i], acts, direct, Causes)
      invariant parallel == Among(acts[..i], acts, direct, Parallel)
      invariant decision == Among(acts[..i], acts, direct, Choice)
    {
      var x := acts[i];
      causality, parallel, decision := ClassifyRow(acts[..i], acts, x, direct, causality, parallel, decision);
      assert acts[..i + 1] == acts[..i] + [x];
      AmongNextX(acts[..i], x, acts, direct, Causes);
      AmongNextX(acts[..i], x, acts, direct, Parallel);
      AmongNextX(acts[..i], x, acts, direct, Choice);
    }
    assert acts[..|acts|] == acts;
  }

  /** The inner comparison loop for one `x`: each `y` of the list in turn. */
  method ClassifyRow(xs: seq<Activity>, acts: seq<Activity>, x: Activity, direct: map<Pair, nat>,
                     c0: set<Pair>, p0: set<Pair>, e0: set<Pair>)
    returns (causality: set<Pair>, parallel: set<Pair>, decision: set<Pair>)
    requires c0 == Among(xs, acts, direct, Causes)
    requires p0 == Among(xs, acts, direct, Parallel)
    requires e0 == Among(xs, acts, direct, Choice)
    ensures causality == Among(xs, acts, direct, Causes) + Among([x], acts, direct, Causes)
    ensures parallel == Among(xs, acts, direct, Parallel) + Among([x], acts, direct, Parallel)
    ensures decision == Among(xs, acts, direct, Choice) + Among([x], acts, direct, Choice)
  {
    causality, parallel, decision := c0, p0, e0;
    for j := 0 to |acts|
      invariant causality == Among(xs, acts, direct, Causes) + Among([x], acts[..j], direct, Causes)
      invariant parallel == Among(xs, acts, direct, Parallel) + Among([x], acts[..j], direct, Parallel)
      invariant decision == Among(xs, acts, direct, Choice) + Among([x], acts[..j], direct, Choice)
    {
      var y := acts[j];
      ClassifyNext(xs, acts, x, acts[..j], y, direct, causality, parallel, decision);
      if x == y {
        decision := decision + {(x, y)};
      } else {
        var xy := Get(direct, (x, y));
        var yx := Get(direct, (y, x));
        if xy > 0 && yx == 0 {
          causality := causality + {(x, y)};
        } else if xy > 0 && yx > 0 {
          parallel := parallel + {(x, y)};
        } else if xy == 0 && yx == 0 {
          decision := decision + {(x, y)};
        }
      }
      assert acts[..j + 1] == acts[..j] + [y];
    }
    assert acts[..|acts|] == acts;
  }

  /** Writing a listed pair keeps the cells exactly the grid. */
  lemma GridWrite(acts: seq<Activity>, m: map<Pair, string>, x: Activity, y: Activity, v: string, w: string)
    requires m.Keys == Grid(acts) && x in acts && y in acts
    ensures m[(x, y) := v][(y, x) := w].Keys == Grid(acts)
  {
  }

  /** Writing `'->'` at `(x, y)` and `'<-'` at `(y, x)` keeps the matrix fitting the
      causality pairs written so far. */
  lemma CausalityStep(acts: seq<Activity>, m: map<Pair, string>, done: set<Pair>, x: Activity, y: Activity)
    requires Fits(acts, done, {}, {}, m) && x in acts && y in acts
    ensures Fits(acts, done + {(x, y)}, {}, {}, m[(x, y) := "->"][(y, x) := "<-"])
  {
    var m2 := m[(x, y) := "->"][(y, x) := "<-"];
    GridWrite(acts, m, x, y, "->", "<-");
    forall q | q in m2 ensures CellFits(done + {(x, y)}, {}, {}, q.0, q.1, m2[q]) {
      if q != (x, y) && q != (y, x) {
        assert m2[q] == m[q];
      }
    }
  }

  /** Writing `'||'` at `(x, y)` and `(y, x)` keeps the matrix fitting. */
  lemma ParallelStep(acts: seq<Activity>, m: map<Pair, string>, c: set<Pair>, done: set<Pair>, x: Activity, y: Activity)
    requires Fits(acts, c, done, {}, m) && x in acts && y in acts
    ensures Fits(acts, c, done + {(x, y)}, {}, m[(x, y) := "||"][(y, x) := "||"])
  {
    var m2 := m[(x, y) := "||"][(y, x) := "||"];
    GridWrite(acts, m, x, y, "||", "||");
    forall q | q in m2 ensures CellFits(c, done + {(x, y)}, {}, q.0, q.1, m2[q]) {
      if q != (x, y) && q != (y, x) {
        assert m2[q] == m[q];
      }
    }
  }

  /** Writing `'#'` at `(x, y)` and `(y, x)` keeps the matrix fitting. */
  lemma ChoiceStep(acts: seq<Activity>, m: map<Pair, string>, c: set<Pair>, p: set<Pair>, done: set<Pair>,
                   x: Activity, y: Activity)
    requires Fits(acts, c, p, done, m) && x in acts && y in acts
    ensures Fits(acts, c, p, done + {(x, y)}, m[(x, y) := "#"][(y, x) := "#"])
  {
    var m2 := m[(x, y) := "#"][(y, x) := "#"];
    GridWrite(acts, m, x, y, "#", "#");
    forall q | q in m2 ensures CellFits(c, p, done + {(x, y)}, q.0, q.1, m2[q]) {
      if q != (x, y) && q != (y, x) {
        assert m2[q] == m[q];
      }
    }
  }

  /** A pair with both activities listed does not escape. */
  lemma StaysInside(acts: seq<Activity>, done: set<Pair>, x: Activity, y: Activity)
    requires !Escapes(acts, done) && x in acts && y in acts
    ensures !Escapes(acts, done + {(x, y)})
  {
  }

  /** The empty matrix: every listed pair holds `''`, which fits no relation at all. */
  method EmptyMatrix(acts: seq<Activity>) returns (matrix: map<Pair, string>)
    ensures matrix.Keys == Grid(acts)
    ensures forall q :: q in matrix ==> matrix[q] == ""
    ensures Fits(acts, {}, {}, {}, matrix)
  {
    matrix := map[];
    for i := 0 to |acts|
      invariant matrix.Keys == set x, y | x in acts[..i] && y in acts :: (x, y)
      invariant forall q :: q in matrix ==> matrix[q] == ""
    {
      var x := acts[i];
      matrix := matrix + map y | y in acts :: (x, y) := "";
      assert acts[..i + 1] == acts[..i] + [x];
    }
    assert acts[..|acts|] == acts;
  }

  /** The causality loop of `build_footprint_matrix`, visiting the set in any order. */
  method WriteCausality(acts: seq<Activity>, causality: set<Pair>, matrix0: map<Pair, string>)
    returns (r: Result<map<Pair, string>, KeyError>)
    requires Fits(acts, {}, {}, {}, matrix0)
    ensures r.Err? <==> Escapes(acts, causality)
    ensures r.Err? ==> r.error.key !in acts
    ensures r.Ok? ==> Fits(acts, causality, {}, {}, r.value)
  {
    var matrix := matrix0;
    var todo, done := causality, {};
    while todo != {}
      invariant todo <= causality && done == causality - todo
      invariant !Escapes(acts, done)
      invariant Fits(acts, done, {}, {}, matrix)
      decreases |todo|
    {
      var pair :| pair in todo;
      var (x, y) := pair;
      if x !in acts {
        assert pair in causality;
        return Err(KeyError(x));
      }
      ghost var before := matrix;
      matrix := matrix[(x, y) := "->"];
      if y !in acts {
        assert pair in causality;
        return Err(KeyError(y));
      }
      matrix := matrix[(y, x) := "<-"];
      CausalityStep(acts, before, done, x, y);
      StaysInside(acts, done, x, y);
      todo, done := todo - {pair}, done + {pair};
    }
    assert done == causality;
    return Ok(matrix);
  }

  /** The parallel loop of `build_footprint_matrix`. */
  method WriteParallel(acts: seq<Activity>, causality: set<Pair>, parallel: set<Pair>, matrix0: map<Pair, string>)
    returns (r: Result<map<Pair, string>, KeyError>)
    requires Fits(acts, causality, {}, {}, matrix0)
    ensures r.Err? <==> Escapes(acts, parallel)
    ensures r.Err? ==> r.error.key !in acts
    ensures r.Ok? ==> Fits(acts, causality, parallel, {}, r.value)
  {
    var matrix := matrix0;
    var todo, done := parallel, {};
    while todo != {}
      invariant todo <= parallel && done == parallel - todo
      invariant !Escapes(acts, done)
      invariant Fits(acts, causality, done, {}, matrix)
      decreases |todo|
    {
      var pair :| pair in todo;
      var (x, y) := pair;
      if x !in acts {
        assert pair in parallel;
        return Err(KeyError(x));
      }
      ghost var before := matrix;
      matrix := matrix[(x, y) := "||"];
      if y !in acts {
        assert pair in parallel;
        return Err(KeyError(y));
      }
      matrix := matrix[(y, x) := "||"];
      ParallelStep(acts, before, causality, done, x, y);
      StaysInside(acts, done, x, y);
      todo, done := todo - {pair}, done + {pair};
    }
    assert done == parallel;
    return Ok(matrix);
  }

  /** The choice loop of `build_footprint_matrix`; a diagonal pair is written once. */
  method WriteChoice(acts: seq<Activity>, causality: set<Pair>, parallel: set<Pair>, decision: set<Pair>,
                     matrix0: map<Pair, string>)
    returns (r: Result<map<Pair, string>, KeyError>)
    requires Fits(acts, causality, parallel, {}, matrix0)
    ensures r.Err? <==> Escapes(acts, decision)
    ensures r.Err? ==> r.error.key !in acts
    ensures r.Ok? ==> Fits(acts, causality, parallel, decision, r.value)
  {
    var matrix := matrix0;
    var todo, done := decision, {};
    while todo != {}
      invariant todo <= decision && done == decision - todo
      invariant !Escapes(acts, done)
      invariant Fits(acts, causality, parallel, done, matrix)
      decreases |todo|
    {
      var pair :| pair in todo;
      var (x, y) := pair;
      if x !in acts {
        assert pair in decision;
        return Err(KeyError(x));
      }
      ghost var before := matrix;
      if x == y {
        matrix := matrix[(x, y) := "#"];
        assert matrix == before[(x, y) := "#"][(y, x) := "#"];
      } else {
        matrix := matrix[(x, y) := "#"];
        if y !in acts {
          assert pair in decision;
          return Err(KeyError(y));
        }
        matrix := matrix[(y, x) := "#"];
      }
      ChoiceStep(acts, before, causality, parallel, done, x, y);
      StaysInside(acts, done, x, y);
      todo, done := todo - {pair}, done + {pair};
    }
    assert done == decision;
    return Ok(matrix);
  }

  /** `build_footprint_matrix`: every listed pair starts as `''`, then causality, parallel
      and choice pairs are written, visiting each set in any order. `matrix[x]` for an
      unlisted `x` raises a `KeyError`, so the matrix comes out exactly when every pair of
      the relations is a pair of listed activities, and then every cell holds a value it
      may hold. */
  method FillFootprint(acts: seq<Activity>, causality: set<Pair>, parallel: set<Pair>, decision: set<Pair>)
    returns (r: Result<map<Pair, string>, KeyError>)
    ensures r.Err? <==> Escapes(acts, causality) || Escapes(acts, parallel) || Escapes(acts, decision)
    ensures r.Err? ==> r.error.key !in acts
    ensures r.Ok? ==> Fits(acts, causality, parallel, decision, r.value)
  {
    var matrix := EmptyMatrix(acts);
    r := WriteCausality(acts, causality, matrix);
    if r.Err? {
      return;
    }
    r := WriteParallel(acts, causality, parallel, r.value);
    if r.Err? {
      return;
    }
    r := WriteChoice(acts, causality, parallel, decision, r.value);
  }
}
