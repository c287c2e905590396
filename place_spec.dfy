/** The places of the alpha algorithm as `compute_places` finds them: every non-empty
    group of activities whose members are pairwise in choice is a candidate, a pair of
    candidates `(A, B)` is valid when every `a` in `A` causes every `b` in `B`, and the
    places are the valid pairs that no other valid pair contains componentwise. */
module PlaceSpec {
  import opened EventLog
  import opened LabelOrder
  import opened RelationSpec

  type Group = set<Activity>

  type Place = (Group, Group)

  // ---------------------------------------------------------------- combinations

  function Prepend(h: Activity, cs: seq<seq<Activity>>): (r: seq<seq<Activity>>)
    ensures |r| == |cs|
    ensures forall i :: 0 <= i < |cs| ==> r[i] == [h] + cs[i]
  {
    seq(|cs|, i requires 0 <= i < |cs| => [h] + cs[i])
  }

  /** The binomial coefficient `n` choose `k`, by Pascal's rule. */
  function Choose(n: nat, k: nat): nat {
    if k == 0 then 1 else if n == 0 then 0 else Choose(n - 1, k - 1) + Choose(n - 1, k)
  }

  /** `itertools.combinations(s, k)`: the length-`k` subsequences of `s`, in the order of
      their positions, those starting with `s[0]` first. */
  function Combinations(s: seq<Activity>, k: nat): seq<seq<Activity>>
    decreases |s|
  {
    if k == 0 then [[]]
    else if s == [] then []
    else Prepend(s[0], Combinations(s[1..], k - 1)) + Combinations(s[1..], k)
  }

  /** `combinations` yields `n! / (k! (n - k)!)` tuples for a list of length `n`. */
  lemma {:induction false} CombinationsCount(s: seq<Activity>, k: nat)
    ensures |Combinations(s, k)| == Choose(|s|, k)
    decreases |s|
  {
    if k > 0 && s != [] {
      CombinationsSplit(s, k);
      CombinationsCount(s[1..], k - 1);
      CombinationsCount(s[1..], k);
    }
  }

  /** The combinations of `s` are those with `s[0]` and those without it. */
  lemma CombinationsSplit(s: seq<Activity>, k: nat)
    requires k > 0 && s != []
    ensures |Combinations(s, k)| == |Combinations(s[1..], k - 1)| + |Combinations(s[1..], k)|
    ensures Choose(|s|, k) == Choose(|s[1..]|, k - 1) + Choose(|s[1..]|, k)
  {
  }

  /** There are no combinations longer than the list. */
  lemma {:induction false} ChooseBeyond(n: nat, k: nat)
    requires k > n
    ensures Choose(n, k) == 0
  {
    if n > 0 {
      ChooseBeyond(n - 1, k - 1);
      ChooseBeyond(n - 1, k);
    }
  }

  /** Each combination has `k` elements, all taken from `s`. */
  lemma {:induction false} CombinationShape(s: seq<Activity>, k: nat, c: seq<Activity>)
    requires c in Combinations(s, k)
    ensures |c| == k && Elements(c) <= Elements(s)
    decreases |s|
  {
    if k > 0 && s != [] {
      var head := Prepend(s[0], Combinations(s[1..], k - 1));
      if c in head {
        var i :| 0 <= i < |head| && head[i] == c;
        CombinationShape(s[1..], k - 1, Combinations(s[1..], k - 1)[i]);
        assert Elements(s) == {s[0]} + Elements(s[1..]);
      } else {
        CombinationShape(s[1..], k, c);
        assert Elements(s[1..]) <= Elements(s);
      }
    }
  }

  /** Where the combinations of `s[1..]` reappear among those of `s`. */
  lemma CombinationsOfTail(s: seq<Activity>, k: nat, c: seq<Activity>)
    requires s != [] && k > 0
    ensures c in Combinations(s[1..], k - 1) ==> [s[0]] + c in Combinations(s, k)
    ensures c in Combinations(s[1..], k) ==> c in Combinations(s, k)
  {
    var cs := Combinations(s[1..], k - 1);
    if c in cs {
      var i :| 0 <= i < |cs| && cs[i] == c;
      assert Prepend(s[0], cs)[i] == [s[0]] + c;
    }
  }

  /** A list with no label twice. */
  predicate Distinct(s: seq<Activity>)
    decreases |s|
  {
    s != [] ==> s[0] !in s[1..] && Distinct(s[1..])
  }

  /** A strictly sorted list has no label twice. */
  lemma {:induction false} SortedIsDistinct(s: seq<Activity>)
    requires StrictlySorted(s)
    ensures Distinct(s)
    decreases |s|
  {
    if s != [] {
      forall k | 0 <= k < |s| - 1 ensures s[1..][k] != s[0] {
        SortedDistinct(s);
        assert s[1..][k] == s[k + 1];
      }
      assert StrictlySorted(s[1..]) by {
        forall i, j | 0 <= i < j < |s| - 1 ensures Below(s[1..][i], s[1..][j]) {
          assert s[1..][i] == s[i + 1] && s[1..][j] == s[j + 1];
        }
      }
      SortedIsDistinct(s[1..]);
    }
  }

  /** The members of `g` in the order `s` lists them. */
  function Listed(s: seq<Activity>, g: Group): seq<Activity>
    decreases |s|
  {
    if s == [] then [] else (if s[0] in g then [s[0]] else []) + Listed(s[1..], g)
  }

  /** Over a list without repetitions every subset of its elements is the set of a
      combination of that size: its members in list order. */
  lemma CombinationsCover(s: seq<Activity>, g: Group)
    requires Distinct(s) && g <= Elements(s)
    ensures Listed(s, g) in Combinations(s, |g|) && Elements(Listed(s, g)) == g
  {
    var c := Listed(s, g);
    assert Elements(c) == g by {
      ListedMembers(s, g);
    }
    assert |c| == |g| by {
      ListedDistinct(s, g);
      DistinctCard(c);
    }
    ListedCombination(s, g);
  }

  /** The members of `g` in list order form a combination of the list. */
  lemma {:induction false} ListedCombination(s: seq<Activity>, g: Group)
    ensures Listed(s, g) in Combinations(s, |Listed(s, g)|)
    decreases |s|
  {
    if s != [] {
      var c := Listed(s[1..], g);
      ListedCombination(s[1..], g);
      if s[0] in g {
        assert Listed(s, g) == [s[0]] + c;
        CombinationsOfTail(s, |c| + 1, c);
      } else {
        assert Listed(s, g) == c;
        if c != [] {
          CombinationsOfTail(s, |c|, c);
        }
      }
    }
  }

  /** `Listed(s, g)` holds exactly the labels of `s` that are in `g`. */
  lemma {:induction false} ListedMembers(s: seq<Activity>, g: Group)
    ensures forall a :: a in Listed(s, g) <==> a in s && a in g
    decreases |s|
  {
    if s != [] {
      ListedMembers(s[1..], g);
      assert s == [s[0]] + s[1..];
    }
  }

  /** Picking from a list without repetitions gives a list without repetitions. */
  lemma {:induction false} ListedDistinct(s: seq<Activity>, g: Group)
    requires Distinct(s)
    ensures Distinct(Listed(s, g))
    decreases |s|
  {
    if s != [] {
      var c := Listed(s[1..], g);
      ListedDistinct(s[1..], g);
      if s[0] in g {
        ListedMembers(s[1..], g);
        var l := [s[0]] + c;
        assert Listed(s, g) == l;
        assert l[0] == s[0] && l[1..] == c;
      } else {
        assert Listed(s, g) == c;
      }
    }
  }

  // ---------------------------------------------------------------- candidates

  /** Distinct members of the group are pairwise in the choice relation. */
  predicate DecisionGroup(g: Group, decision: set<Pair>) {
    forall a1, a2 :: a1 in g && a2 in g && a1 != a2 ==> (a1, a2) in decision
  }

  /** The sets of the combinations in `cs` that pass the choice check, in order. */
  function Keep(cs: seq<seq<Activity>>, decision: set<Pair>): seq<Group> {
    if cs == [] then []
    else
      var g := Elements(cs[|cs| - 1]);
      Keep(cs[..|cs| - 1], decision) + (if DecisionGroup(g, decision) then [g] else [])
  }

  /** The candidates of sizes `1` to `n`, smaller sizes first. */
  function GroupsUpTo(acts: seq<Activity>, decision: set<Pair>, n: nat): seq<Group> {
    if n == 0 then [] else GroupsUpTo(acts, decision, n - 1) + Keep(Combinations(acts, n), decision)
  }

  /** `candidate_A` (and `candidate_B`, computed the same way). */
  function Candidates(acts: seq<Activity>, decision: set<Pair>): seq<Group> {
    GroupsUpTo(acts, decision, |acts|)
  }

  lemma {:induction false} KeepMembers(cs: seq<seq<Activity>>, decision: set<Pair>, g: Group)
    ensures g in Keep(cs, decision) <==>
      DecisionGroup(g, decision) && exists c :: c in cs && Elements(c) == g
    decreases |cs|
  {
    if cs != [] {
      var init := cs[..|cs| - 1];
      KeepMembers(init, decision, g);
      if exists c :: c in cs && Elements(c) == g {
        var c :| c in cs && Elements(c) == g;
        if c != cs[|cs| - 1] {
          assert c in init;
        }
      }
      if exists c :: c in init && Elements(c) == g {
        var c :| c in init && Elements(c) == g;
        assert c in cs;
      }
    }
  }

  /** `g` is the set of some combination of size `k`. */
  ghost predicate CombinationSet(acts: seq<Activity>, k: nat, g: Group) {
    exists c :: c in Combinations(acts, k) && Elements(c) == g
  }

  /** `g` is the set of some combination of a size from 1 to `n`. */
  ghost predicate SizedSet(acts: seq<Activity>, n: nat, g: Group) {
    exists k :: 1 <= k <= n && CombinationSet(acts, k, g)
  }

  lemma SizedSetStep(acts: seq<Activity>, n: nat, g: Group)
    requires n > 0
    ensures SizedSet(acts, n, g) <==> SizedSet(acts, n - 1, g) || CombinationSet(acts, n, g)
  {
    if SizedSet(acts, n, g) {
      var k :| 1 <= k <= n && CombinationSet(acts, k, g);
      if k < n {
        assert 1 <= k <= n - 1 && CombinationSet(acts, k, g);
      }
    }
    if SizedSet(acts, n - 1, g) {
      var k :| 1 <= k <= n - 1 && CombinationSet(acts, k, g);
      assert 1 <= k <= n && CombinationSet(acts, k, g);
    }
    if CombinationSet(acts, n, g) {
      assert 1 <= n <= n && CombinationSet(acts, n, g);
    }
  }

  /** The groups gathered up to size `n` are the sets of combinations of sizes 1 to `n`
      that pass the choice check. */
  lemma {:induction false} GroupsUpToMembers(acts: seq<Activity>, decision: set<Pair>, n: nat, g: Group)
    ensures g in GroupsUpTo(acts, decision, n) <==> DecisionGroup(g, decision) && SizedSet(acts, n, g)
    decreases n
  {
    if n > 0 {
      var before := GroupsUpTo(acts, decision, n - 1);
      var kept := Keep(Combinations(acts, n), decision);
      assert GroupsUpTo(acts, decision, n) == before + kept;
      GroupsUpToMembers(acts, decision, n - 1, g);
      KeepMembers(Combinations(acts, n), decision, g);
      SizedSetStep(acts, n, g);
    }
  }

  /** The candidates over a list without repetitions are exactly its non-empty groups
      whose members are pairwise in choice. */
  lemma CandidateMembers(acts: seq<Activity>, decision: set<Pair>, g: Group)
    requires Distinct(acts)
    ensures g in Candidates(acts, decision) <==>
      g != {} && g <= Elements(acts) && DecisionGroup(g, decision)
  {
    GroupsUpToMembers(acts, decision, |acts|, g);
    if g in Candidates(acts, decision) {
      assert SizedSet(acts, |acts|, g);
      var k :| 1 <= k <= |acts| && CombinationSet(acts, k, g);
      var c :| c in Combinations(acts, k) && Elements(c) == g;
      CombinationShape(acts, k, c);
      assert c[0] in g;
    }
    if g != {} && g <= Elements(acts) && DecisionGroup(g, decision) {
      CombinationsCover(acts, g);
      var c := Listed(acts, g);
      CombinationShape(acts, |g|, c);
      assert CombinationSet(acts, |g|, g);
      assert |g| <= |acts| by {
        DistinctCard(acts);
        assert |g| <= |Elements(acts)| by {
          SubsetCard(g, Elements(acts));
        }
      }
      assert 1 <= |g| <= |acts| && CombinationSet(acts, |g|, g);
    }
  }

  lemma SubsetCard(a: Group, b: Group)
    requires a <= b
    ensures |a| <= |b|
    ensures a != b ==> |a| < |b|
  {
    assert b == a + (b - a);
    if a != b {
      var x :| x in b && x !in a;
      assert x in b - a;
    }
  }

  lemma {:induction false} DistinctCard(s: seq<Activity>)
    requires Distinct(s)
    ensures |Elements(s)| == |s|
    decreases |s|
  {
    if s != [] {
      assert Distinct(s[1..]);
      DistinctCard(s[1..]);
      assert Elements(s) == {s[0]} + Elements(s[1..]);
      assert s[0] !in Elements(s[1..]);
    }
  }

  // ---------------------------------------------------------------- valid and maximal pairs

  /** Every member of `A` causes every member of `B`. */
  predicate CausalGroups(a: Group, b: Group, causality: set<Pair>) {
    forall x, y :: x in a && y in b ==> (x, y) in causality
  }

  /** The valid pairs `(A, B)` for one `A`, in the order of `bs`. */
  function PairsWith(a: Group, bs: seq<Group>, causality: set<Pair>): seq<Place> {
    if bs == [] then []
    else
      var b := bs[|bs| - 1];
      PairsWith(a, bs[..|bs| - 1], causality) + (if CausalGroups(a, b, causality) then [(a, b)] else [])
  }

  /** `valid_pairs`: `A` ranging over `ins`, then `B` over `bs`. */
  function ValidPairs(ins: seq<Group>, bs: seq<Group>, causality: set<Pair>): seq<Place> {
    if ins == [] then []
    else ValidPairs(ins[..|ins| - 1], bs, causality) + PairsWith(ins[|ins| - 1], bs, causality)
  }

  /** Some other pair of `ps` contains `p` componentwise. */
  predicate Dominated(p: Place, ps: seq<Place>) {
    exists j :: 0 <= j < |ps| && ps[j] != p && p.0 <= ps[j].0 && p.1 <= ps[j].1
  }

  /** The pairs of `qs` no pair of `ps` dominates, in order. */
  function Undominated(qs: seq<Place>, ps: seq<Place>): seq<Place> {
    if qs == [] then []
    else
      var q := qs[|qs| - 1];
      Undominated(qs[..|qs| - 1], ps) + (if Dominated(q, ps) then [] else [q])
  }

  /** `maximal_pairs`, which `compute_places` stores as the places. */
  function MaximalPairs(ps: seq<Place>): seq<Place> {
    Undominated(ps, ps)
  }

  /** The places of a choice and a causality relation over an activity list. */
  function Places(acts: seq<Activity>, decision: set<Pair>, causality: set<Pair>): seq<Place> {
    var cands := Candidates(acts, decision);
    MaximalPairs(ValidPairs(cands, cands, causality))
  }

  lemma {:induction false} PairsWithMembers(a: Group, bs: seq<Group>, causality: set<Pair>, p: Place)
    ensures p in PairsWith(a, bs, causality) <==> p.0 == a && p.1 in bs && CausalGroups(a, p.1, causality)
    decreases |bs|
  {
    if bs != [] {
      var init := bs[..|bs| - 1];
      PairsWithMembers(a, init, causality, p);
      if p.1 in bs && p.1 != bs[|bs| - 1] {
        assert p.1 in init;
      }
    }
  }

  lemma {:induction false} ValidPairsMembers(ins: seq<Group>, bs: seq<Group>, causality: set<Pair>, p: Place)
    ensures p in ValidPairs(ins, bs, causality) <==> p.0 in ins && p.1 in bs && CausalGroups(p.0, p.1, causality)
    decreases |ins|
  {
    if ins != [] {
      var init := ins[..|ins| - 1];
      ValidPairsMembers(init, bs, causality, p);
      PairsWithMembers(ins[|ins| - 1], bs, causality, p);
      if p.0 in ins && p.0 != ins[|ins| - 1] {
        assert p.0 in init;
      }
    }
  }

  lemma {:induction false} UndominatedMembers(qs: seq<Place>, ps: seq<Place>, p: Place)
    ensures p in Undominated(qs, ps) <==> p in qs && !Dominated(p, ps)
    decreases |qs|
  {
    if qs != [] {
      var init := qs[..|qs| - 1];
      UndominatedMembers(init, ps, p);
      if p in qs && p != qs[|qs| - 1] {
        assert p in init;
      }
    }
  }

  // ---------------------------------------------------------------- what a place is

  /** `(A, B)` could be a place: both non-empty groups of listed activities, members of
      each pairwise in choice, and `A x B` within causality. */
  predicate ValidPlace(acts: seq<Activity>, decision: set<Pair>, causality: set<Pair>, a: Group, b: Group) {
    && a != {} && a <= Elements(acts) && DecisionGroup(a, decision)
    && b != {} && b <= Elements(acts) && DecisionGroup(b, decision)
    && CausalGroups(a, b, causality)
  }

  /** Some other valid pair contains `(A, B)` componentwise. */
  ghost predicate Extendable(acts: seq<Activity>, decision: set<Pair>, causality: set<Pair>, a: Group, b: Group) {
    exists a2: Group, b2: Group :: ValidPlace(acts, decision, causality, a2, b2)
      && (a2, b2) != (a, b) && a <= a2 && b <= b2
  }

  lemma ValidPairsOfCandidates(acts: seq<Activity>, decision: set<Pair>, causality: set<Pair>, p: Place)
    requires Distinct(acts)
    ensures var cands := Candidates(acts, decision);
      p in ValidPairs(cands, cands, causality) <==> ValidPlace(acts, decision, causality, p.0, p.1)
  {
    var cands := Candidates(acts, decision);
    ValidPairsMembers(cands, cands, causality, p);
    CandidateMembers(acts, decision, p.0);
    CandidateMembers(acts, decision, p.1);
  }

  /** The places of a list without repetitions are exactly the valid pairs that no other
      valid pair contains componentwise. */
  lemma PlaceMembers(acts: seq<Activity>, decision: set<Pair>, causality: set<Pair>, a: Group, b: Group)
    requires Distinct(acts)
    ensures (a, b) in Places(acts, decision, causality) <==>
      ValidPlace(acts, decision, causality, a, b) && !Extendable(acts, decision, causality, a, b)
  {
    var cands := Candidates(acts, decision);
    var vs := ValidPairs(cands, cands, causality);
    UndominatedMembers(vs, vs, (a, b));
    ValidPairsOfCandidates(acts, decision, causality, (a, b));
    if Dominated((a, b), vs) {
      var j :| 0 <= j < |vs| && vs[j] != (a, b) && a <= vs[j].0 && b <= vs[j].1;
      ValidPairsOfCandidates(acts, decision, causality, vs[j]);
      assert Extendable(acts, decision, causality, a, b);
    }
    if Extendable(acts, decision, causality, a, b) {
      var a2: Group, b2: Group :| ValidPlace(acts, decision, causality, a2, b2)
        && (a2, b2) != (a, b) && a <= a2 && b <= b2;
      ValidPairsOfCandidates(acts, decision, causality, (a2, b2));
      var j :| 0 <= j < |vs| && vs[j] == (a2, b2);
      assert Dominated((a, b), vs);
    }
  }

  /** Every place is a valid pair: non-empty groups of listed activities, pairwise in
      choice, every member of `A` causing every member of `B`; and no other valid pair
      contains it. */
  lemma PlacesValid(acts: seq<Activity>, decision: set<Pair>, causality: set<Pair>, p: Place)
    requires Distinct(acts) && p in Places(acts, decision, causality)
    ensures ValidPlace(acts, decision, causality, p.0, p.1)
    ensures !Extendable(acts, decision, causality, p.0, p.1)
  {
    PlaceMembers(acts, decision, causality, p.0, p.1);
  }

  /** Every valid pair lies inside some place. */
  lemma {:induction false} InsidePlace(acts: seq<Activity>, decision: set<Pair>, causality: set<Pair>, a: Group, b: Group)
    requires Distinct(acts) && ValidPlace(acts, decision, causality, a, b)
    ensures exists p :: p in Places(acts, decision, causality) && a <= p.0 && b <= p.1
    decreases 2 * |Elements(acts)| - |a| - |b|
  {
    SubsetCard(a, Elements(acts));
    SubsetCard(b, Elements(acts));
    PlaceMembers(acts, decision, causality, a, b);
    if Extendable(acts, decision, causality, a, b) {
      var a2: Group, b2: Group :| ValidPlace(acts, decision, causality, a2, b2)
        && (a2, b2) != (a, b) && a <= a2 && b <= b2;
      SubsetCard(a2, Elements(acts));
      SubsetCard(b2, Elements(acts));
      SubsetCard(a, a2);
      SubsetCard(b, b2);
      assert a2 != a || b2 != b;
      InsidePlace(acts, decision, causality, a2, b2);
    } else {
      assert (a, b) in Places(acts, decision, causality);
    }
  }

  /** Every causal pair of listed activities lies inside some place: singletons always
      pass the choice check. */
  lemma CausalPairCovered(acts: seq<Activity>, decision: set<Pair>, causality: set<Pair>, x: Activity, y: Activity)
    requires Distinct(acts) && x in acts && y in acts && (x, y) in causality
    ensures exists p :: p in Places(acts, decision, causality) && x in p.0 && y in p.1
  {
    assert ValidPlace(acts, decision, causality, {x}, {y});
    InsidePlace(acts, decision, causality, {x}, {y});
  }

  /** A choice between two successors joins them into one place: if `x -> y`, `x -> z`
      and `y # z` then `({x}, {y})` is not a place, and some place holds `x` on its
      input side and both `y` and `z` on its output side. */
  lemma ChoiceMerges(acts: seq<Activity>, decision: set<Pair>, causality: set<Pair>, x: Activity, y: Activity, z: Activity)
    requires Distinct(acts) && x in acts && y in acts && z in acts && y != z
    requires (x, y) in causality && (x, z) in causality
    requires (y, z) in decision && (z, y) in decision
    ensures ({x}, {y}) !in Places(acts, decision, causality)
    ensures exists p :: p in Places(acts, decision, causality) && x in p.0 && y in p.1 && z in p.1
  {
    assert ValidPlace(acts, decision, causality, {x}, {y, z});
    assert ({x}, {y, z}) != ({x}, {y});
    assert Extendable(acts, decision, causality, {x}, {y});
    PlaceMembers(acts, decision, causality, {x}, {y});
    InsidePlace(acts, decision, causality, {x}, {y, z});
  }

  /** The activity list of a log holds no label twice, so its places are exactly the
      valid pairs of its relations that no other valid pair contains. */
  lemma LogPlaces(ts: seq<Trace>, a: Group, b: Group)
    ensures var r := RelationsOf(ts);
      (a, b) in Places(r.activities, r.decision, r.causality) <==>
        ValidPlace(r.activities, r.decision, r.causality, a, b)
        && !Extendable(r.activities, r.decision, r.causality, a, b)
  {
    var r := RelationsOf(ts);
    ActivitiesOfLog(ts);
    SortedIsDistinct(r.activities);
    PlaceMembers(r.activities, r.decision, r.causality, a, b);
  }

  /** In a log, every causal pair lies inside some place. */
  lemma LogCausalityCovered(ts: seq<Trace>, x: Activity, y: Activity)
    requires (x, y) in RelationsOf(ts).causality
    ensures var r := RelationsOf(ts);
      exists p :: p in Places(r.activities, r.decision, r.causality) && x in p.0 && y in p.1
  {
    var r := RelationsOf(ts);
    ActivitiesOfLog(ts);
    SortedIsDistinct(r.activities);
    RelationLaws(r.activities, r.direct);
    CausalPairCovered(r.activities, r.decision, r.causality, x, y);
  }

  // ---------------------------------------------------------------- maximize_pairs

  /** A singleton passes the choice check whatever the relation: it has no two distinct
      members. */
  lemma SingletonDecision(a: Activity, decision: set<Pair>)
    ensures DecisionGroup({a}, decision)
  {
  }

  /** The test `maximize_pairs` applies to `({a}, {b})`. */
  predicate SingletonPasses(a: Activity, b: Activity, xl: set<Pair>, decision: set<Pair>) {
    a != b && CausalGroups({a}, {b}, xl) && DecisionGroup({a}, decision) && DecisionGroup({b}, decision)
  }

  /** The pairs kept for one `A` while `B` ranges over `bs`. */
  function SingletonRow(a: Activity, bs: seq<Activity>, xl: set<Pair>, decision: set<Pair>): seq<Place> {
    if bs == [] then []
    else
      var b := bs[|bs| - 1];
      SingletonRow(a, bs[..|bs| - 1], xl, decision)
        + (if SingletonPasses(a, b, xl, decision) then [({a}, {b})] else [])
  }

  /** The pairs kept while `A` ranges over `ins`, each against all of `tl`. */
  function SingletonRows(ins: seq<Activity>, tl: seq<Activity>, xl: set<Pair>, decision: set<Pair>): seq<Place> {
    if ins == [] then []
    else SingletonRows(ins[..|ins| - 1], tl, xl, decision) + SingletonRow(ins[|ins| - 1], tl, xl, decision)
  }

  /** `maximize_pairs(Xl, Tl)`, in the order of its nested loops. */
  function MaximizedPairs(xl: set<Pair>, tl: seq<Activity>, decision: set<Pair>): seq<Place> {
    SingletonRows(tl, tl, xl, decision)
  }

  lemma {:induction false} SingletonRowMembers(a: Activity, bs: seq<Activity>, xl: set<Pair>, decision: set<Pair>, p: Place)
    ensures p in SingletonRow(a, bs, xl, decision) <==>
      exists b :: b in bs && p == ({a}, {b}) && a != b && (a, b) in xl
    decreases |bs|
  {
    if bs != [] {
      var init := bs[..|bs| - 1];
      var last := bs[|bs| - 1];
      SingletonRowMembers(a, init, xl, decision, p);
      SingletonDecision(a, decision);
      SingletonDecision(last, decision);
      if exists b :: b in bs && p == ({a}, {b}) && a != b && (a, b) in xl {
        var b :| b in bs && p == ({a}, {b}) && a != b && (a, b) in xl;
        if b != last {
          assert b in init;
        }
      }
      if exists b :: b in init && p == ({a}, {b}) && a != b && (a, b) in xl {
        var b :| b in init && p == ({a}, {b}) && a != b && (a, b) in xl;
        assert b in bs;
      }
    }
  }

  lemma {:induction false} SingletonRowsMembers(ins: seq<Activity>, tl: seq<Activity>, xl: set<Pair>, decision: set<Pair>, p: Place)
    ensures p in SingletonRows(ins, tl, xl, decision) <==>
      exists a, b :: a in ins && b in tl && p == ({a}, {b}) && a != b && (a, b) in xl
    decreases |ins|
  {
    if ins != [] {
      var init := ins[..|ins| - 1];
      var last := ins[|ins| - 1];
      SingletonRowsMembers(init, tl, xl, decision, p);
      SingletonRowMembers(last, tl, xl, decision, p);
      if exists a, b :: a in ins && b in tl && p == ({a}, {b}) && a != b && (a, b) in xl {
        var a, b :| a in ins && b in tl && p == ({a}, {b}) && a != b && (a, b) in xl;
        if a != last {
          assert a in init;
        }
      }
      if exists a, b :: a in init && b in tl && p == ({a}, {b}) && a != b && (a, b) in xl {
        var a, b :| a in init && b in tl && p == ({a}, {b}) && a != b && (a, b) in xl;
        assert a in ins;
      }
    }
  }

  /** `maximize_pairs` keeps exactly the pairs `({A}, {B})` with `A` and `B` in `Tl`,
      `A != B` and `(A, B)` in `Xl`: the two choice checks never reject a singleton. */
  lemma MaximizedMembers(xl: set<Pair>, tl: seq<Activity>, decision: set<Pair>, p: Place)
    ensures p in MaximizedPairs(xl, tl, decision) <==>
      exists a, b :: a in tl && b in tl && p == ({a}, {b}) && a != b && (a, b) in xl
  {
    SingletonRowsMembers(tl, tl, xl, decision, p);
  }

  /** The choice relation plays no part in `maximize_pairs`. */
  lemma {:induction false} MaximizedIgnoresDecision(xl: set<Pair>, ins: seq<Activity>, tl: seq<Activity>, d1: set<Pair>, d2: set<Pair>)
    ensures SingletonRows(ins, tl, xl, d1) == SingletonRows(ins, tl, xl, d2)
    decreases |ins|
  {
    if ins != [] {
      MaximizedIgnoresDecision(xl, ins[..|ins| - 1], tl, d1, d2);
      RowIgnoresDecision(ins[|ins| - 1], tl, xl, d1, d2);
    }
  }

  lemma {:induction false} RowIgnoresDecision(a: Activity, bs: seq<Activity>, xl: set<Pair>, d1: set<Pair>, d2: set<Pair>)
    ensures SingletonRow(a, bs, xl, d1) == SingletonRow(a, bs, xl, d2)
    decreases |bs|
  {
    if bs != [] {
      RowIgnoresDecision(a, bs[..|bs| - 1], xl, d1, d2);
      SingletonDecision(a, d1);
      SingletonDecision(a, d2);
      SingletonDecision(bs[|bs| - 1], d1);
      SingletonDecision(bs[|bs| - 1], d2);
    }
  }
}
