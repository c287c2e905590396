# Alpha miner: a verified model

This project models the first stages of the alpha algorithm for process mining, as three
Python files implement them:

- `alpha.py` holds the class `Alpha`, which parses an event log, discovers the ordering
  relations, builds the footprint matrix and computes the places of the alpha algorithm;
- `FootPrint.py` runs the same pipeline as free functions, up to the footprint matrix;
- `main.py` is a shorter copy of the parser and the relation discovery.

An event log is a text such as `[<a,b>^2, <c>]`. The text is stripped of brackets and cut
at every `", "`. Each part turns into `count` copies of one trace, where `count` follows the
last `^` (default 1) and is read with `int()`. The trace is the part stripped of `<>`, with
its spaces removed, cut at `,`.

`calculate_relations` then builds three things:

- the sorted list of activities;
- the direct-succession counts `x > y`;
- the three relations. A pair is causality `x -> y` when only `x > y` was seen, parallel
  `x || y` when both directions were seen, and choice `x # y` when neither was seen (or
  `x == y`).

`build_footprint_matrix` writes one cell per ordered pair of activities.

`compute_places` enumerates every non-empty group of activities that is pairwise in choice.
It keeps the pairs of groups `(A, B)` with `A x B` inside causality, then the pairs no other
such pair contains componentwise. `maximize_pairs` is the singleton-only version of that
filter.

## Structure

The three copies share one specification, written as functions:

- `PyStr`: Python's `strip`, `split`, `rsplit`, `replace` and `int()`.
- `EventLog`: what `parse_log` yields.
- `LabelOrder`: Python's string order and `sorted()`.
- `RelationSpec`: the counts and the relations.
- `FootprintSpec`: the matrix (`'->'`, `'<-'`, `'||'` for parallel, `'#'`), characterised cell by cell and independently of set order.
- `PlaceSpec`: candidates, valid pairs, maximal pairs and `maximize_pairs`.

`LogFormat` writes logs in the text format and proves that parsing them gives them back.

Each source file keeps its own form:

- `AlphaMiner.Alpha` is a class with the same fields. Its methods reassign those fields
  with the same loops, flags and early exits as the original.
- `FootPrint` and `MainScript` are methods over values.
- `Discovery` holds the loops the three files share. Each loop is proved against the
  function that specifies it.

Python sets are visited in an order the model leaves open: a loop over a set picks any
remaining element.

## Model

| member | source | states |
|---|---|---|
| AlphaMiner.Alpha.constructor | alpha.py:4-10 | a new miner has no traces and holds the relations of the empty log (no activities, no counts, empty relations) |
| AlphaMiner.Alpha.ParseLog | alpha.py:12-27 | `traces` becomes the traces of the log whatever it held before, so parsing twice is not cumulative; if `int(count)` raises, `traces` keeps the parts before the failing one; no other field changes |
| AlphaMiner.Alpha.CalculateRelations | alpha.py:29-62 | the activities, counts and three relations become those of the current traces, which stay unchanged, and so do the places |
| AlphaMiner.Alpha.ProcessLog | alpha.py:64-66 | parses, then recalculates the relations only if parsing raised nothing; the miner keeps holding the relations of some log |
| AlphaMiner.Alpha.GetRelations | alpha.py:154-162 | returns the five fields as one record, which for a consistent miner is `calculate_relations` of the traces it analysed |
| AlphaMiner.Alpha.BuildFootprintMatrix | alpha.py:98-122 | no `KeyError` arises for relations the miner computed; the matrix fits the relations and is the one footprint of them, whatever order the sets are visited in |
| AlphaMiner.Alpha.MaximizePairs | alpha.py:140-152 | returns the singleton pairs that pass the causality and both choice checks, in nested-loop order over `Tl` |
| AlphaMiner.Alpha.ComputePlaces | alpha.py:164-234 | `places` becomes the maximal valid pairs of candidate groups, in the order the loops find them; no other field changes |
| AlphaMiner.EmptyLogRelations | alpha.py:4-10 | the relations of the empty log are empty and its activity list is `[]` |
| AlphaMiner.ChoiceCheck | alpha.py:174-181 | the `valid` flag is true exactly when distinct members of the group are pairwise in choice |
| AlphaMiner.CausalCheck | alpha.py:206-213 | the `causal_valid` flag is true exactly when every member of `A` causes every member of `B` |
| AlphaMiner.CandidateGroups | alpha.py:169-183 | `candidate_A` (and `candidate_B`, lines 186-199): the candidate groups of sizes 1 to `len(activities)`, in loop order |
| AlphaMiner.ChoiceGroups | alpha.py:171-183 | for one size, the sets of the combinations that pass the choice check, in `combinations` order |
| AlphaMiner.CausalPairs | alpha.py:202-215 | `valid_pairs`: the pairs of candidates passing the causality check, in nested-loop order |
| AlphaMiner.KeepMaximal | alpha.py:218-230 | `maximal_pairs`: the valid pairs no other pair contains componentwise, in order |
| FootPrint.ParseLog | FootPrint.py:1-27 | returns the traces of the log or the error `int(count)` raises; every trace returned is non-empty and its labels hold no `,` or space |
| FootPrint.CalculateRelations | FootPrint.py:30-81 | returns the relations of the traces; no relation names an activity outside the list |
| FootPrint.BuildFootprintMatrix | FootPrint.py:113-152 | raises `KeyError` exactly when some relation pair names an unlisted activity, and the key is unlisted; otherwise the matrix fits the relations; for relations `calculate_relations` produced, the matrix is the footprint |
| MainScript.ParseLog | main.py:1-15 | returns the traces or the error; it succeeds exactly when every part parses, and then returns the parts' traces concatenated in part order |
| MainScript.CalculateRelations | main.py:18-57 | returns the relations of the traces; the activity list is strictly sorted and holds exactly the labels of the traces |
| Discovery.ParsePart | alpha.py:16-25 | one part: stripped, cut at its last `^` when it has one, and turned into `count` copies of its trace, or the error `int(count)` raises |
| Discovery.ParseParts | alpha.py:15-25 | the loop over the parts collects their traces in order and stops at the first part whose count does not parse, keeping the traces before it |
| Discovery.ParseText | FootPrint.py:15-26 | `parse_log` on the whole text: the traces collected and the error, if any |
| Discovery.CountSuccessions | main.py:24-27 | the direct-succession loop yields the table of adjacent-pair counts |
| Discovery.ClassifyPairs | FootPrint.py:58-73 | after the nested loops, each relation holds exactly the listed pairs of its kind |
| Discovery.ClassifyRow | main.py:36-49 | the inner loop for one `x` adds exactly the pairs `(x, y)` of each kind |
| Discovery.EmptyMatrix | FootPrint.py:133-134 | every listed pair starts as `''` |
| Discovery.WriteCausality | FootPrint.py:137-139 | the causality loop raises exactly when a pair escapes the list; otherwise the matrix fits the causality pairs |
| Discovery.WriteParallel | FootPrint.py:141-143 | the parallel loop raises exactly when a pair escapes; otherwise the matrix fits causality and parallel |
| Discovery.WriteChoice | FootPrint.py:145-150 | the choice loop raises exactly when a pair escapes; otherwise the matrix fits all three relations |
| Discovery.FillFootprint | alpha.py:100-122 | the three filling loops together: an error exactly when some pair escapes, with an unlisted key; otherwise a matrix that fits |
| Discovery.CausalityStep | FootPrint.py:138-139 | writing `'->'` and its mirror `'<-'` keeps the matrix fitting the causality pairs written so far |
| Discovery.ParallelStep | FootPrint.py:142-143 | writing the parallel mark at both cells keeps the matrix fitting |
| Discovery.ChoiceStep | FootPrint.py:146-150 | writing `'#'` at both cells (once on the diagonal) keeps the matrix fitting |
| EventLog.PartCopies | alpha.py:17-25 | a part parses exactly when its count does, and then adds `max(count, 0)` copies of one trace |
| EventLog.CollectInOrder | alpha.py:15-25 | no error exactly when every part parses, and then the traces are the parts' traces in order; on an error, it is the first failing part's, with the earlier parts' traces kept |
| EventLog.ParseLogInOrder | main.py:4-14 | `parse_log` succeeds exactly when every part parses, returns the parts' traces in part order, and otherwise fails at the first failing part |
| EventLog.CollectStops | alpha.py:19 | once a part has failed, the later parts change nothing |
| EventLog.RepeatCopies | alpha.py:25 | `[trace] * count` is `count` copies of the trace |
| EventLog.TraceOfShape | FootPrint.py:25 | every trace `split` makes is non-empty and its labels hold no `,` or space |
| EventLog.ParsedTracesWellFormed | main.py:13 | every trace parsing produces, even before an error, is non-empty with clean labels |
| LogFormat.ParseShowLog | FootPrint.py:16-26 | parsing a log written in the text format gives back the traces it denotes: `max(count, 0)` copies of each entry's trace, in order |
| LogFormat.EntryRoundTrip | FootPrint.py:17-26 | one written entry parses back into its copies |
| LogFormat.TraceRoundTrip | FootPrint.py:25 | the trace text `<a,b>` parses back into the trace |
| LogFormat.CountedRoundTrip | FootPrint.py:18-20 | a part `<...>^n` gives `n` copies of the trace, so a count of 0 or less gives none |
| LogFormat.ParseTwoTraces | FootPrint.py:16-26 | `parse_log("[<a,b>^2, <c>]")` is `[[a,b],[a,b],[c]]` |
| LogFormat.ParseBadCount | FootPrint.py:20 | `parse_log("[<a>^x]")` raises the `int()` error for `x` |
| LogFormat.ParseSeparatorCount | alpha.py:16-19 | `parse_log("[<a>^\x1c2]")` raises the `int()` error for `'\x1c2'`: `part.strip()` removes no inner separator and `int()` never skips it |
| LogFormat.ParseEmptyLog | alpha.py:14-25 | `parse_log("[]")` is not the empty log but one trace with one empty label, `[['']]`, since splitting `''` gives `['']` |
| LogFormat.BracketedPart | alpha.py:15 | `strip('[]').split(', ')` turns `[part]` into the one part when it holds no bracket and no space |
| LabelOrder.SortedLabels | alpha.py:31 | `sorted()` of the label set is strictly increasing and holds exactly those labels |
| LabelOrder.Below | alpha.py:31 | Python's `<` on strings, the order behind `sorted()`: a proper prefix is below the longer string; otherwise the first differing character decides, by code |
| LabelOrder.BelowIrreflexive | alpha.py:31 | no string is below itself |
| LabelOrder.SortedUnique | main.py:20 | a strictly sorted list is determined by its elements |
| LabelOrder.SortedDistinct | FootPrint.py:44 | a strictly sorted list has no label twice |
| LabelOrder.BelowTransitive | alpha.py:31 | Python's string order is transitive |
| LabelOrder.BelowTotal | alpha.py:31 | any two different strings are ordered one way |
| RelationSpec.ActivitiesOfLog | alpha.py:31-38 | the activity list is strictly sorted and is exactly the set of labels, and every counted pair is made of labels |
| RelationSpec.DirectCounts | alpha.py:35-38 | `direct[(x, y)]` equals the number of adjacent `(x, y)` positions across all traces; the keys are exactly the pairs seen; each count is at least 1 |
| RelationSpec.DirectTotal | alpha.py:35-38 | the counts sum to the total of `max(len(t) - 1, 0)` over the traces |
| RelationSpec.ShortTraceCountsNothing | FootPrint.py:48-51 | an empty or one-label trace adds no count |
| RelationSpec.LabelsOccur | main.py:20 | a label is an activity exactly when some trace holds it |
| RelationSpec.ClassifiedMembers | alpha.py:46-60 | each relation holds a listed pair exactly when the pair's counts classify it so |
| RelationSpec.ExactlyOne | FootPrint.py:59-73 | for `x != y`, exactly one holds: `x -> y`, `y -> x`, `x` parallel to `y`, or `x # y` |
| RelationSpec.RelationLaws | alpha.py:48-60 | choice holds every `(x, x)` and is symmetric; parallel is irreflexive and symmetric; causality is irreflexive and antisymmetric; all three lie within activities x activities |
| RelationSpec.OnlyPositivityCounts | FootPrint.py:65-73 | the relations depend only on which counts are positive |
| RelationSpec.SameTracesSameRelations | FootPrint.py:44-73 | logs with the same set of traces (reordered, or a trace repeated) have the same activities and relations |
| FootprintSpec.ClassifiedInside | alpha.py:103-120 | relations `calculate_relations` produced never name an unlisted activity, so filling the matrix raises nothing |
| FootprintSpec.CellUnique | alpha.py:107-120 | for derived relations, the value a cell may end with, whatever visiting order, is exactly one |
| FootprintSpec.FootprintUnique | FootPrint.py:133-150 | for derived relations, a matrix fits exactly when it is the footprint, so the result does not depend on set order |
| FootprintSpec.CellMeaning | alpha.py:107-120 | a cell is `'->'` iff `x -> y`, `'<-'` iff `y -> x`, the parallel mark iff `x` and `y` are parallel, `'#'` iff `x # y` (so the diagonal is `'#'`), and never `''` |
| FootprintSpec.CellMirror | FootPrint.py:137-150 | cell `(x, y)` is `'->'` iff cell `(y, x)` is `'<-'`; the parallel mark and `'#'` are symmetric |
| FootprintSpec.FootprintOf | alpha.py:98-122 | the footprint's cells are exactly activities x activities |
| PlaceSpec.CombinationShape | alpha.py:171 | each combination of size `k` has `k` elements taken from the list |
| PlaceSpec.Combinations | alpha.py:171 | `itertools.combinations(activities, r)`: the length-`r` subsequences in the order of their positions, those holding the first element first (the body; its properties are the lemmas beside it) |
| PlaceSpec.CombinationsCount | alpha.py:171 | there are `n` choose `r` combinations of a list of length `n` |
| PlaceSpec.ChooseBeyond | alpha.py:170-171 | a size larger than the list yields no combination, so sizes past `len(activities)` would add nothing |
| PlaceSpec.CombinationsCover | alpha.py:170-171 | over a list without repetitions, every group of its elements is the set of a combination of that size |
| PlaceSpec.CandidateMembers | alpha.py:169-183 | the candidates are exactly the non-empty groups of activities whose members are pairwise in choice |
| PlaceSpec.ValidPairsMembers | alpha.py:202-215 | a pair is valid exactly when both groups are candidates and every `a` causes every `b` |
| PlaceSpec.UndominatedMembers | alpha.py:218-230 | a pair is kept exactly when no other pair contains it componentwise |
| PlaceSpec.ValidPairsOfCandidates | alpha.py:169-215 | a valid pair is one of two non-empty choice groups of activities with `A x B` inside causality |
| PlaceSpec.PlaceMembers | alpha.py:164-234 | `(A, B)` is a place exactly when it is valid and no other valid pair contains it |
| PlaceSpec.PlacesValid | alpha.py:169-215 | every place is made of non-empty choice groups of activities, and `A x B` lies inside causality |
| PlaceSpec.InsidePlace | alpha.py:218-230 | every valid pair lies inside some place |
| PlaceSpec.CausalPairCovered | alpha.py:170-230 | every causal pair `a -> b` lies inside some place, since singletons are candidates |
| PlaceSpec.ChoiceMerges | alpha.py:170-230 | if `a -> b`, `a -> c` and `b # c`, then `({a}, {b})` is not a place, and some place holds `a` on its input side and `b` and `c` on its output side |
| PlaceSpec.LogPlaces | alpha.py:164-234 | for the relations of any log, the places are exactly the valid pairs that no other valid pair contains |
| PlaceSpec.LogCausalityCovered | alpha.py:164-234 | for the relations of any log, every causal pair lies inside some place |
| PlaceSpec.MaximizedMembers | alpha.py:142-152 | the pairs `maximize_pairs` returns are exactly `({A}, {B})` with `A`, `B` in `Tl`, `A != B` and `(A, B)` in `Xl` |
| PlaceSpec.MaximizedIgnoresDecision | alpha.py:148-150 | the two choice checks never reject a singleton pair, so the choice relation does not affect the result |
| PlaceSpec.SingletonRowsMembers | alpha.py:143-151 | the rows for the `A`s seen so far hold exactly their passing singleton pairs |
| PyStr.StripIdempotent | alpha.py:15-16 | stripping twice is stripping once |
| PyStr.StripEnclosed | alpha.py:15 | `strip` removes one enclosing bracket pair from text that has no bracket inside |
| PyStr.SplitJoin | alpha.py:15 | `split(sep)` undoes `sep.join(parts)` when the parts cannot be mistaken for the separator |
| PyStr.Split | alpha.py:24 | `split` yields at least one piece, and joining the pieces with the separator gives the text back |
| PyStr.SplitPiecesFree | alpha.py:24 | no piece of `split(sep)` contains `sep` |
| PyStr.RSplitOnce | alpha.py:18 | `rsplit('^', 1)` cuts at the last `^`: the text is its head, `^` and its tail, and the tail holds no `^` |
| PyStr.RemoveAll | alpha.py:24 | `replace(' ', '')` removes every space and keeps every other character |
| PyStr.RemoveAllConcat | alpha.py:24 | `replace(c, '')` keeps the order of what stays: on `a + b` it is the result on `a` followed by the result on `b` |
| PyStr.RemoveAllSingle | alpha.py:24 | a single character stays exactly when it is not the one removed; with `RemoveAllConcat` this fixes the result character by character |
| PyStr.ParseShowInt | alpha.py:19 | `int()` reads back every integer written in decimal |
| PyStr.ParseInt | alpha.py:19 | `int(count)` in base 10: the text with the whitespace `int()` skips removed from both ends, then an optional sign and digit groups with single underscores between digits; anything else is the `ValueError`, `None`. The skipped set is `str.isspace()` without `'\x1c'` to `'\x1f'` (the body) |
| PyStr.IntSpaceIsWhitespace | alpha.py:19 | a character is skipped by `int()` exactly when `str.isspace()` accepts it and it is not one of the separators `'\x1c'` to `'\x1f'` |
| PyStr.ParseIntSeparator | alpha.py:19 | `int('\x1c2')` is a `ValueError`: the file separator is not skipped |
| PyStr.ParseIntSpaceSeparator | alpha.py:19 | `int('\xa0\x1c2')` is a `ValueError` too: the no-break space is skipped, the separator after it is not |
| PyStr.ParseIntNoBreakSpace | alpha.py:19 | `int('\xa02')` is `2`: a non-ASCII space is skipped |
| PyStr.Strip | alpha.py:15 | `strip(chars)`: the result is no longer than the text and, when non-empty, starts and ends with characters outside `chars` |
| PyStr.StripSpace | alpha.py:16 | `strip()`: when non-empty, the result starts and ends with a character `str.isspace()` rejects; the whitespace set is that of `str.isspace()`, `'\x1c'` to `'\x1f'` and the Unicode spaces included |

## Left out

- Printing: `print_results`, `print_footprint_matrix` and `print_places` only format console output, so they are not modelled.
- Interactive input: the `main()` loops with `input()` and the catch-all `except` are input and output. A failing `int()` is returned as an error value instead.
- Method chaining: `return self` in the `Alpha` methods is not modelled; the methods return nothing, or the parse error.
- `places` before `compute_places`: the original creates the `places` attribute only in `compute_places`, and `print_places` tests for it with `hasattr`. The class here always has the field and starts it as `[]`.
- Set and dict iteration order: Python's order is not modelled. A loop over a set may visit its elements in any order, and every contract holds for all orders.
- The footprint matrix's shape: it is a map keyed by ordered pairs, not a dict of dicts.
- `KeyError` detail: on a `KeyError`, the original may already have added an unlisted key to an inner row dict. The matrix is not returned then, so the model returns only the error.
- `int()` on non-ASCII digits: Python also accepts Unicode decimal digits, and the model accepts ASCII digits only. It follows Python on sign, on single underscores between digits and on whitespace: `int()` skips the `str.isspace()` characters except `'\x1c'` to `'\x1f'`, which `str.strip()` does remove.
- PyStr.ParseInt: does not model CPython 3.11's limit of 4300 digits, beyond which `int()` raises `ValueError`; the model reads any number of digits. The same holds for PyStr.ParseShowInt, which is stated for every integer.
- EventLog.Repeat: `[trace] * count` raises `OverflowError` when `count` exceeds `sys.maxsize` and `MemoryError` when the list does not fit in memory; the model builds the copies for any count.
- AlphaMiner.Alpha.GetRelations: returns the relations as values. The original returns its live dict and sets, so a caller that changes them changes the miner. Aliasing is not modelled either for `[trace] * count`, whose copies are one shared list in Python.
- Performance: the `2^n` subset enumeration of `compute_places` is not a concern of the model.
- Net assembly: none of the three files builds the Petri net (start and end places, flow arcs), so none is modelled.
- FootPrint.py's doc example: the example at FootPrint.py:11-12 writes its traces with spaces (`<a, b, c>`), and the code cuts such a text at every `", "`. What the code computes for it is not the documented value, and the model follows the code: `LogFormat.ParseTwoTraces` states the value for a log written as the code expects.
- Strings: labels are sequences of Unicode scalar values, which is what a Dafny `char` holds. A Python `str` may also hold lone surrogates (`'\ud800'`), which the model cannot represent. Python's string order compares code by code, like `LabelOrder.Below`.
