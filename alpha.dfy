/** alpha.py: the miner as an object. `parse_log` and `calculate_relations` overwrite its
    fields, `build_footprint_matrix` and `maximize_pairs` read them, and `compute_places`
    stores the places of the alpha algorithm. */
module AlphaMiner {
  import opened Basics
  import opened EventLog
  import opened LabelOrder
  import opened RelationSpec
  import opened FootprintSpec
  import opened PlaceSpec
  import opened Discovery

  class Alpha {
    var traces: seq<Trace>
    var direct: map<Pair, nat>
    var causality: set<Pair>
    var parallel: set<Pair>
    var decision: set<Pair>
    var activities: seq<Activity>
    var places: seq<Place>
    /** The traces the relations were last calculated from. */
    ghost var analysed: seq<Trace>

    /** The relations held are those `calculate_relations` gives for `analysed`. */
    ghost predicate Valid()
      reads this
    {
      Relations(direct, causality, parallel, decision, activities) == RelationsOf(analysed)
    }

    /** A fresh miner: no traces, no relations (the relations of the empty log). */
    constructor()
      ensures Valid()
      ensures traces == [] && analysed == [] && places == []
    {
      traces := [];
      direct := map[];
      causality := {};
      parallel := {};
      decision := {};
      activities := [];
      places := [];
      analysed := [];
      new;
      EmptyLogRelations();
    }

    /** `parse_log(log_str)`: replaces the traces by those of the log. When `int(count)`
        raises, the traces of the parts before the failing one stay in place. */
    method ParseLog(log: string) returns (error: Option<ParseError>)
      modifies this
      ensures Outcome(traces, error) == ParseOutcome(log)
      ensures direct == old(direct) && causality == old(causality) && parallel == old(parallel)
      ensures decision == old(decision) && activities == old(activities) && places == old(places)
      ensures analysed == old(analysed)
    {
      traces := [];
      var parsed: seq<Trace>;
      parsed, error := ParseText(log);
      assert traces + parsed == parsed;
      traces := traces + parsed;
    }

    /** `calculate_relations()`: the activity list, the succession counts and the three
        relations of the current traces. */
    method CalculateRelations()
      modifies this
      ensures Valid() && analysed == traces
      ensures traces == old(traces) && places == old(places)
    {
      activities := SortedLabels(Labels(traces));
      direct := CountSuccessions(traces);
      causality, parallel, decision := ClassifyPairs(activities, direct);
      analysed := traces;
    }

    /** `process_log(log_str)`: parses, then calculates the relations unless parsing raised. */
    method ProcessLog(log: string) returns (error: Option<ParseError>)
      requires Valid()
      modifies this
      ensures Outcome(traces, error) == ParseOutcome(log)
      ensures Valid() && places == old(places)
      ensures error.None? ==> analysed == traces
      ensures error.Some? ==> analysed == old(analysed)
    {
      error := ParseLog(log);
      if error.None? {
        CalculateRelations();
      }
    }

    /** `get_relations()`: the fields as one record, which for a valid miner is
        `calculate_relations` of the traces it analysed. */
    function GetRelations(): (r: Relations)
      reads this
      ensures r.activities == activities && r.direct == direct
      ensures Valid() ==> r == RelationsOf(analysed)
    {
      Relations(direct, causality, parallel, decision, activities)
    }

    /** `build_footprint_matrix()`: the relations never name an activity outside the list,
        so no `KeyError` arises, and the matrix is the one footprint of the relations,
        whatever order the sets were visited in. */
    method BuildFootprintMatrix() returns (matrix: map<Pair, string>)
      requires Valid()
      ensures Fits(activities, causality, parallel, decision, matrix)
      ensures matrix == FootprintOf(RelationsOf(analysed))
    {
      ghost var acts := SortedLabels(Labels(analysed));
      ClassifiedInside(acts, DirectOf(analysed));
      var r := FillFootprint(activities, causality, parallel, decision);
      matrix := r.value;
      FootprintUnique(acts, DirectOf(analysed), matrix);
    }

    /** `maximize_pairs(Xl, Tl)`: the pairs `({A}, {B})` for `A`, then `B`, ranging over
        `Tl` that pass the causality and choice checks. */
    method MaximizePairs(xl: set<Pair>, tl: seq<Activity>) returns (yl: seq<Place>)
      ensures yl == MaximizedPairs(xl, tl, decision)
    {
      yl := [];
      var i := 0;
      while i < |tl|
        invariant 0 <= i <= |tl|
        invariant yl == SingletonRows(tl[..i], tl, xl, decision)
      {
        var a := tl[i];
        var j := 0;
        while j < |tl|
          invariant 0 <= j <= |tl|
          invariant yl == SingletonRows(tl[..i], tl, xl, decision) + SingletonRow(a, tl[..j], xl, decision)
        {
          var b := tl[j];
          if a != b {
            var aSet: Group := {a};
            var bSet: Group := {b};
            if CausalGroups(aSet, bSet, xl) && DecisionGroup(aSet, decision) && DecisionGroup(bSet, decision) {
              yl := yl + [(aSet, bSet)];
            }
          }
          assert tl[..j + 1][..j] == tl[..j];
          j := j + 1;
        }
        assert tl[..|tl|] == tl;
        assert tl[..i + 1][..i] == tl[..i];
        i := i + 1;
      }
      assert tl[..|tl|] == tl;
    }

    /** `compute_places()`: stores the maximal valid pairs of candidate groups. */
    method ComputePlaces()
      modifies this
      ensures places == Places(activities, decision, causality)
      ensures traces == old(traces) && direct == old(direct) && causality == old(causality)
      ensures parallel == old(parallel) && decision == old(decision) && activities == old(activities)
      ensures analysed == old(analysed)
    {
      var candidateA := CandidateGroups(activities, decision);
      var candidateB := CandidateGroups(activities, decision);
      var validPairs := CausalPairs(candidateA, candidateB, causality);
      places := KeepMaximal(validPairs);
    }
  }

  /** The empty log has no activities, no successions and empty relations. */
  lemma EmptyLogRelations()
    ensures RelationsOf([]) == Relations(map[], {}, {}, {}, [])
  {
    assert Labels([]) == {};
    assert SortedLabels({}) == [];
  }

  /** The `valid` flag of the candidate loops: distinct members of `g` are pairwise in
      choice. The loops stop at the first pair that is not. */
  method ChoiceCheck(g: Group, decision: set<Pair>) returns (valid: bool)
    ensures valid == DecisionGroup(g, decision)
  {
    valid := true;
    var outer := g;
    while outer != {} && valid
      invariant outer <= g
      invariant valid ==> forall a1, a2 :: a1 in g - outer && a2 in g && a1 != a2 ==> (a1, a2) in decision
      invariant !valid ==> !DecisionGroup(g, decision)
      decreases |outer|
    {
      var a1 :| a1 in outer;
      var inner := g;
      while inner != {}
        invariant inner <= g
        invariant valid
        invariant forall a2 :: a2 in g - inner && a1 != a2 ==> (a1, a2) in decision
        decreases |inner|
      {
        var a2 :| a2 in inner;
        if a1 != a2 && (a1, a2) !in decision {
          valid := false;
          break;
        }
        inner := inner - {a2};
      }
      outer := outer - {a1};
    }
  }

  /** The `causal_valid` flag: every member of `a` causes every member of `b`. The loops
      stop at the first pair that does not. */
  method CausalCheck(a: Group, b: Group, causality: set<Pair>) returns (valid: bool)
    ensures valid == CausalGroups(a, b, causality)
  {
    valid := true;
    var outer := a;
    while outer != {} && valid
      invariant outer <= a
      invariant valid ==> forall x, y :: x in a - outer && y in b ==> (x, y) in causality
      invariant !valid ==> !CausalGroups(a, b, causality)
      decreases |outer|
    {
      var x :| x in outer;
      var inner := b;
      while inner != {}
        invariant inner <= b
        invariant valid
        invariant forall y :: y in b - inner ==> (x, y) in causality
        decreases |inner|
      {
        var y :| y in inner;
        if (x, y) !in causality {
          valid := false;
          break;
        }
        inner := inner - {y};
      }
      outer := outer - {x};
    }
  }

  /** `candidate_A` (and `candidate_B`): for each size `r` from 1 to the number of
      activities, the sets of the combinations of that size that pass the choice check. */
  method CandidateGroups(acts: seq<Activity>, decision: set<Pair>) returns (cands: seq<Group>)
    ensures cands == Candidates(acts, decision)
  {
    cands := [];
    var r := 0;
    while r < |acts|
      invariant r <= |acts|
      invariant cands == GroupsUpTo(acts, decision, r)
    {
      r := r + 1;
      var kept := ChoiceGroups(Combinations(acts, r), decision);
      cands := cands + kept;
    }
  }

  /** One size of the candidate loop: the sets of the combinations `subsets`, in order,
      that pass the choice check. */
  method ChoiceGroups(subsets: seq<seq<Activity>>, decision: set<Pair>) returns (kept: seq<Group>)
    ensures kept == Keep(subsets, decision)
  {
    kept := [];
    var i := 0;
    while i < |subsets|
      invariant 0 <= i <= |subsets|
      invariant kept == Keep(subsets[..i], decision)
    {
      var subsetSet := Elements(subsets[i]);
      var valid := ChoiceCheck(subsetSet, decision);
      assert subsets[..i + 1][..i] == subsets[..i];
      if valid {
        kept := kept + [subsetSet];
      }
      i := i + 1;
    }
    assert subsets[..|subsets|] == subsets;
  }

  /** `valid_pairs`: `A` ranging over `ins` and `B` over `bs`, the pairs passing the
      causality check. */
  method CausalPairs(ins: seq<Group>, bs: seq<Group>, causality: set<Pair>) returns (pairs: seq<Place>)
    ensures pairs == ValidPairs(ins, bs, causality)
  {
    pairs := [];
    var i := 0;
    while i < |ins|
      invariant 0 <= i <= |ins|
      invariant pairs == ValidPairs(ins[..i], bs, causality)
    {
      var a := ins[i];
      var j := 0;
      while j < |bs|
        invariant 0 <= j <= |bs|
        invariant pairs == ValidPairs(ins[..i], bs, causality) + PairsWith(a, bs[..j], causality)
      {
        var b := bs[j];
        var valid := CausalCheck(a, b, causality);
        assert bs[..j + 1][..j] == bs[..j];
        if valid {
          pairs := pairs + [(a, b)];
        }
        j := j + 1;
      }
      assert bs[..|bs|] == bs;
      assert ins[..i + 1][..i] == ins[..i];
      i := i + 1;
    }
    assert ins[..|ins|] == ins;
  }

  /** `maximal_pairs`: the pairs no other pair of the list contains componentwise; the
      inner loop skips the pair itself and stops at the first pair containing it. */
  method KeepMaximal(pairs: seq<Place>) returns (maximal: seq<Place>)
    ensures maximal == MaximalPairs(pairs)
  {
    maximal := [];
    var i := 0;
    while i < |pairs|
      invariant 0 <= i <= |pairs|
      invariant maximal == Undominated(pairs[..i], pairs)
    {
      var pair := pairs[i];
      var isMaximal := true;
      var j := 0;
      while j < |pairs| && isMaximal
        invariant 0 <= j <= |pairs|
        invariant isMaximal ==> forall k :: 0 <= k < j ==> !(pairs[k] != pair && pair.0 <= pairs[k].0 && pair.1 <= pairs[k].1)
        invariant !isMaximal ==> Dominated(pair, pairs)
      {
        var other := pairs[j];
        if pair != other && pair.0 <= other.0 && pair.1 <= other.1 {
          isMaximal := false;
        }
        j := j + 1;
      }
      assert pairs[..i + 1][..i] == pairs[..i];
      if isMaximal {
        maximal := maximal + [pair];
      }
      i := i + 1;
    }
    assert pairs[..|pairs|] == pairs;
  }
}
