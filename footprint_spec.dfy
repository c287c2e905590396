/** The footprint matrix: one cell per ordered pair of activities, `'->'`, `'<-'`, `'||'`
    or `'#'`, written from the three relations in the order `build_footprint_matrix`
    writes them (causality, then parallel, then choice, each overwriting the last). */
module FootprintSpec {
  import opened EventLog
  import opened LabelOrder
  import opened RelationSpec

  /** The `KeyError` raised by `matrix[x]` for an activity `x` outside the activity list. */
  datatype KeyError = KeyError(key: Activity)

  /** The cells the matrix starts with: every ordered pair of listed activities. */
  function Grid(acts: seq<Activity>): set<Pair> {
    set x, y | x in acts && y in acts :: (x, y)
  }

  /** Some pair of `rel` names an activity missing from the list. */
  predicate Escapes(acts: seq<Activity>, rel: set<Pair>) {
    exists p :: p in rel && !(p.0 in acts && p.1 in acts)
  }

  /** The value cell `(x, y)` may hold once the loops are done, whatever order the sets are
      visited in. A choice pair in either direction writes `'#'` last; otherwise a parallel
      pair in either direction writes `'||'`; otherwise causality writes `'->'` for `x -> y`
      and `'<-'` for `y -> x`, and when both hold the later write wins, which on the
      diagonal is always the mirror write `'<-'`. A cell nothing is written to stays `''`. */
  predicate CellFits(c: set<Pair>, p: set<Pair>, d: set<Pair>, x: Activity, y: Activity, v: string) {
    if (x, y) in d || (y, x) in d then v == "#"
    else if (x, y) in p || (y, x) in p then v == "||"
    else if (x, y) in c && (y, x) in c then (if x == y then v == "<-" else v == "->" || v == "<-")
    else if (x, y) in c then v == "->"
    else if (y, x) in c then v == "<-"
    else v == ""
  }

  /** A complete matrix: cells exactly the grid, each holding a value it may hold. */
  predicate Fits(acts: seq<Activity>, c: set<Pair>, p: set<Pair>, d: set<Pair>, m: map<Pair, string>) {
    && m.Keys == Grid(acts)
    && forall q :: q in m ==> CellFits(c, p, d, q.0, q.1, m[q])
  }

  // ---------------------------------------------------------------- derived relations

  /** The cell of `(x, y)` for relations `calculate_relations` produced. */
  function CellOf(r: Relations, x: Activity, y: Activity): string {
    if (x, y) in r.decision then "#"
    else if (x, y) in r.parallel then "||"
    else if (x, y) in r.causality then "->"
    else if (y, x) in r.causality then "<-"
    else ""
  }

  /** The matrix of relations `calculate_relations` produced. */
  function FootprintOf(r: Relations): (m: map<Pair, string>)
    ensures m.Keys == Grid(r.activities)
  {
    map q | q in Grid(r.activities) :: CellOf(r, q.0, q.1)
  }

  /** Derived relations name listed activities only, so filling the matrix never raises. */
  lemma ClassifiedInside(acts: seq<Activity>, d: map<Pair, nat>)
    ensures var r := Classified(acts, d);
      !Escapes(acts, r.causality) && !Escapes(acts, r.parallel) && !Escapes(acts, r.decision)
  {
    RelationLaws(acts, d);
  }

  /** For derived relations the order the sets are visited in does not matter: a cell may
      hold exactly one value, `CellOf`. */
  lemma CellUnique(acts: seq<Activity>, d: map<Pair, nat>, x: Activity, y: Activity, v: string)
    requires x in acts && y in acts
    ensures var r := Classified(acts, d);
      CellFits(r.causality, r.parallel, r.decision, x, y, v) <==> v == CellOf(r, x, y)
  {
    ClassifiedMembers(acts, d, x, y);
    ClassifiedMembers(acts, d, y, x);
  }

  /** So derived relations have one matrix, `FootprintOf`. */
  lemma FootprintUnique(acts: seq<Activity>, d: map<Pair, nat>, m: map<Pair, string>)
    ensures var r := Classified(acts, d);
      Fits(acts, r.causality, r.parallel, r.decision, m) <==> m == FootprintOf(r)
  {
    var r := Classified(acts, d);
    if Fits(acts, r.causality, r.parallel, r.decision, m) {
      forall q | q in m ensures m[q] == CellOf(r, q.0, q.1) {
        CellUnique(acts, d, q.0, q.1, m[q]);
      }
    }
    if m == FootprintOf(r) {
      forall q | q in m ensures CellFits(r.causality, r.parallel, r.decision, q.0, q.1, m[q]) {
        CellUnique(acts, d, q.0, q.1, m[q]);
      }
    }
  }

  /** Every cell of the matrix names the relation of its pair: `'->'` exactly for
      `x -> y`, `'<-'` exactly for `y -> x`, `'||'` for `x || y`, `'#'` for `x # y`
      (so the diagonal is `'#'`), and no cell stays `''`. */
  lemma CellMeaning(acts: seq<Activity>, d: map<Pair, nat>, x: Activity, y: Activity)
    requires x in acts && y in acts
    ensures var r := Classified(acts, d); var v := FootprintOf(r)[(x, y)];
      && (v == "->" <==> (x, y) in r.causality)
      && (v == "<-" <==> (y, x) in r.causality)
      && (v == "||" <==> (x, y) in r.parallel)
      && (v == "#" <==> (x, y) in r.decision)
      && v != ""
  {
    ClassifiedMembers(acts, d, x, y);
  }

  /** The mirrored writes: `'->'` at `(x, y)` exactly when `'<-'` at `(y, x)`, and `'||'`
      and `'#'` sit symmetrically. */
  lemma CellMirror(acts: seq<Activity>, d: map<Pair, nat>, x: Activity, y: Activity)
    requires x in acts && y in acts
    ensures var m := FootprintOf(Classified(acts, d));
      && (m[(x, y)] == "->" <==> m[(y, x)] == "<-")
      && (m[(x, y)] == "||" <==> m[(y, x)] == "||")
      && (m[(x, y)] == "#" <==> m[(y, x)] == "#")
  {
    ClassifiedMembers(acts, d, x, y);
    ClassifiedMembers(acts, d, y, x);
  }
}
