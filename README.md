# The α-algorithm of `codigoalpha.py`, modelled and proved in Dafny

`codigoalpha.py` reads an event log typed as `<a,b,c>,<a,c,b>`. It mines a
Petri net from the log with the α-algorithm:

- TL is the sorted activities.
- TI and TO are the first and last activities of the traces.
- XL holds the candidate pairs `(A, B)`.
- YL holds the maximal pairs.
- PL holds the places.
- FL holds the arcs.

Before mining, the program also builds a relation table for display. It comes
from a second classification of the log: direct-succession triples,
causalities, parallelisms and `#` decisions.

The model covers the computational core: parsing the typed log, the relation
matrix (`generate_relation_matrix`), XL, YL, PL and FL, the displayed
classification and table (`classify_relations`, `generate_table`), and the
sequence of `procesar_input` that ties them together.

One module per component:

| file | module | what it holds |
|---|---|---|
| `strings.dfy` | `Strings` | Python's string order, `sorted`, `str.join`, `str.split` and `str.strip` |
| `eventlog.dfy` | `EventLog` | the log, its parsing, TL, TI, TO and the direct successions |
| `footprint.dfy` | `Footprint` | `generate_relation_matrix` |
| `candidates.dfy` | `Candidates` | `compute_XL_corrected` and its bitmask enumeration |
| `maximal.dfy` | `Maximal` | `compute_YL` |
| `petrinet.dfy` | `PetriNet` | `compute_PL` and `compute_FL` |
| `classify.dfy` | `Classify` | `classify_relations` |
| `table.dfy` | `RelationTable` | `generate_table` and the table of `mostrar_tabla_relaciones` |
| `alpha.dfy` | `Alpha` | the core sequence of `procesar_input` |

Each loop of the source that builds a result is a `method` with a `while`
loop, proved against a specification function of its inputs. For example,
`GenerateRelationMatrix` returns `RelationMatrix(log)`, and `ComputeXL` returns
exactly the pairs satisfying `IsCandidate`. The lemmas then state what those
functions mean in terms of the log. The nested loops of
`check_internal_relations` and `check_set_relations` (lines 43-57) only
compute a yes-or-no answer, so they became the predicates
`CheckInternalRelations` and `CheckSetRelations`. `compute_XL_corrected`
builds the relation matrix afresh on each call; the model proves that matrix
is `RelationMatrix(log)`, and `ComputeXL` reads that function.

Python iterates sets in an unspecified order. The methods visit sets with
`:|`, so every proof holds for any visiting order.

The nested dictionary `matrix[a][b]` is a `map` keyed by the pair `(a, b)`.
The table is a `seq<seq<string>>`, updated by whole-value replacement of one
cell (`Put`).

Where the code departs from the α-algorithm as usually stated, the model follows the code:

- Place names can collide. The name `p_<A>_<B>` joins the sorted labels with
  `,` and `_`, so two different pairs can share a place when a label contains `_`.
  `PlaceNameCollision` exhibits one such case. `PlaceNameInjective` proves that
  names are distinct when no label holds `_` or `,`.
- The number of activities is not bounded before the subset search, and
  nothing fails for a large log.
- Parsing never fails. An empty trace `<>` becomes the one-activity trace `[""]`.
- The displayed table's header is not the sorted activities. See Findings.

## Model

| member | source | states |
|---|---|---|
| `Strings.NotAfterReflexive` | codigoalpha.py:12 | Python's string order puts every string not after itself |
| `Strings.NotAfterTotal` | codigoalpha.py:12 | any two strings are comparable in that order |
| `Strings.NotAfterAntisymmetric` | codigoalpha.py:12 | two strings that are each not after the other are equal |
| `Strings.NotAfterTransitive` | codigoalpha.py:12 | the order is transitive |
| `Strings.LeastExists` | codigoalpha.py:12 | every non-empty set of strings has a least element |
| `Strings.Least` | codigoalpha.py:12 | the chosen element is in the set and not after any member |
| `Strings.Sorted` | codigoalpha.py:12 | `sorted(set)` is strictly increasing and holds exactly the set's elements, once each |
| `Strings.SortedUnique` | codigoalpha.py:12 | any strictly increasing sequence with the set's elements is `sorted(set)`, so the sorted list is unique |
| `Strings.Split` | codigoalpha.py:299-300 | `str.split` always yields at least one piece |
| `Strings.SplitAfterPiece` | codigoalpha.py:299 | splitting `a + sep + b` when `a` holds no separator start gives `a` and then the pieces of `b` |
| `Strings.SplitWhole` | codigoalpha.py:299 | a string in which the separator's first character never appears where a separator could begin splits into itself alone |
| `Strings.SplitJoin` | codigoalpha.py:299-300 | splitting what `join` produced gives the parts back when no part holds the separator's first character |
| `Strings.Join` | codigoalpha.py:113 | `','.join` of one part is that part; what a join of several parts means is stated by `Strings.SplitJoin` and `EventLog.FormatLogShape` |
| `Strings.StripLeft` | codigoalpha.py:300 | the result is a suffix whose first character is not stripped, and every removed character is in the set |
| `Strings.StripRight` | codigoalpha.py:300 | the result is a prefix whose last character is not stripped, and every removed character is in the set |
| `Strings.StripAround` | codigoalpha.py:300 | stripping a core with no set characters, surrounded only by set characters, gives the core |
| `Strings.Strip` | codigoalpha.py:300 | `.strip('<>')` is `StripLeft` then `StripRight`; it has no ensures of its own, and `Strings.StripAround` and `Strings.StripClean` state what it returns |
| `Strings.StripClean` | codigoalpha.py:300 | a string holding none of the stripped characters comes back unchanged |
| `EventLog.ParseLog` | codigoalpha.py:299-300 | the parsed log has at least one trace, and every trace at least one activity, so TI and TO are defined |
| `EventLog.ParseFormatRoundTrip` | codigoalpha.py:299-300 | parsing the typed form of a log gives the log back, for traces with no `,`, `<` or `>` in a label |
| `EventLog.FormatLogShape` | codigoalpha.py:299 | the typed form is `<`, the traces' insides joined by `>,<`, then `>` |
| `EventLog.Transitions` | codigoalpha.py:306 | TL is strictly increasing and holds exactly the log's activities |
| `EventLog.InitialTransitions` | codigoalpha.py:307 | TI holds exactly the first activities of the traces |
| `EventLog.FinalTransitions` | codigoalpha.py:308 | TO holds exactly the last activities of the traces |
| `EventLog.DirectSuccessionsWitnessed` | codigoalpha.py:18-21 | `(x, y)` is a direct succession exactly when some trace has `y` right after `x` |
| `EventLog.DirectSuccessionsWithin` | codigoalpha.py:18-21 | both ends of a direct succession are activities of the log |
| `Footprint.Symbol` | codigoalpha.py:29-34 | every cell text is two characters ending in `L` |
| `Footprint.SymbolInjective` | codigoalpha.py:29-34 | the four relations get four different cell texts, so a cell reads back as exactly one relation |
| `Footprint.CollectDirectSuccessions` | codigoalpha.py:18-21 | the loop collects exactly the direct successions of the log |
| `Footprint.VisitPair` | codigoalpha.py:26-34 | visiting `(a, b)` settles that pair's cells and keeps the keys, every settled cell and the write discipline |
| `Footprint.VisitRow` | codigoalpha.py:25-34 | one row's visit extends the settled rows by one and keeps the keys |
| `Footprint.VisitRows` | codigoalpha.py:24-34 | the nested loops leave every pair of activities settled over the same keys |
| `Footprint.GenerateRelationMatrix` | codigoalpha.py:9-35 | the method returns exactly `RelationMatrix(log)` |
| `Footprint.AllSettled` | codigoalpha.py:24-34 | a matrix with every row settled and only final writes is the relation of every pair |
| `Footprint.RelationMatrixExact` | codigoalpha.py:24-34 | each cell is `∥L`, `→L`, `←L` or `#L` exactly when the pair follows both ways, one way, the other way or neither |
| `Footprint.RelationMatrixMirror` | codigoalpha.py:29-34 | the cell of `(b, a)` mirrors that of `(a, b)`: `→L` against `←L`, others equal |
| `Footprint.RelationMatrixDiagonal` | codigoalpha.py:26-30 | a diagonal cell is `∥L` or `#L`, and `∥L` exactly when some trace repeats the activity back to back |
| `Footprint.RelationMatrixCoversSuccessions` | codigoalpha.py:26-34 | every direct succession's cell is `→L` or `∥L` |
| `Candidates.MaskList` | codigoalpha.py:65-68 | the loop lists the elements whose bit is set in the mask, in sorted order |
| `Candidates.Pow2` | codigoalpha.py:64 | `1 << n` is at least 1, so the mask range `1 .. (1 << n) - 1` is well formed |
| `Candidates.Bit` | codigoalpha.py:67 | `i & (1 << j) != 0` holds exactly when `i` divided by `1 << j` is odd, that is, when bit `j` of `i` is set |
| `Candidates.BitBeyond` | codigoalpha.py:64-68 | a mask below `1 << n` has no bit set at position `n` or beyond, so the `j` loop over `range(n)` misses no set bit |
| `Candidates.ChosenIncreasing` | codigoalpha.py:65-68 | a mask's list is strictly increasing and drawn from the activities |
| `Candidates.MaskOfBound` | codigoalpha.py:64 | the mask of any set is below `1 << n` |
| `Candidates.ChosenMaskOf` | codigoalpha.py:64-68 | the mask of a set lists exactly that set's activities |
| `Candidates.MaskOfChosen` | codigoalpha.py:64-68 | every mask below `1 << n` is the mask of the set it lists |
| `Candidates.ChosenNonEmpty` | codigoalpha.py:64-68 | masks from 1 list a non-empty set |
| `Candidates.MaskYieldsSubset` | codigoalpha.py:64-68 | each mask from 1 yields the sorted list of a non-empty subset of the activities |
| `Candidates.SubsetHasMask` | codigoalpha.py:64-68 | every non-empty subset of the activities is reached by some mask in `1 .. (1 << n) - 1` |
| `Candidates.MaskInjective` | codigoalpha.py:64-68 | different masks yield different subsets |
| `Candidates.RelationMatrixTabulates` | codigoalpha.py:40 | the matrix XL reads holds the relation of every pair of activities |
| `Candidates.CheckInternalRelations` | codigoalpha.py:43-49 | the two index loops ask for `#L` between every two different positions; it has no ensures of its own, and `Candidates.InternalCheckMeansIndependent` proves what it means |
| `Candidates.CheckSetRelations` | codigoalpha.py:51-57 | the two loops ask for `→L` from every member of A to every member of B; it has no ensures of its own, and `Candidates.SetCheckMeansAllCausal` proves what it means |
| `Candidates.InternalCheckMeansIndependent` | codigoalpha.py:43-49 | `check_internal_relations` passes exactly when every two different members are unrelated |
| `Candidates.SetCheckMeansAllCausal` | codigoalpha.py:51-57 | `check_set_relations` passes exactly when every member of A is causally followed by every member of B |
| `Candidates.FoundAllIsCandidates` | codigoalpha.py:64-87 | the pairs the nested mask loops keep are exactly the candidate pairs |
| `Candidates.AddPartners` | codigoalpha.py:75-87 | for one A, the B loop adds exactly the pairs it finds up to the last mask |
| `Candidates.ComputeXL` | codigoalpha.py:37-89 | `(A, B)` is in XL exactly when both sides are non-empty, each side independent, and A causally followed by B |
| `Candidates.CandidateDisjoint` | codigoalpha.py:43-57 | the two sides of a candidate pair are disjoint |
| `Candidates.CandidateInLogTerms` | codigoalpha.py:37-89 | a pair is a candidate exactly when no two members of a side follow one another and every `a` is followed by every `b` but never the reverse |
| `Maximal.CheckMaximal` | codigoalpha.py:95-103 | the flag ends true exactly when no other pair dominates `pair1` |
| `Maximal.ComputeYL` | codigoalpha.py:91-106 | YL holds exactly the members of XL that no other member dominates |
| `Maximal.DominatesIffLarger` | codigoalpha.py:101 | the subset-and-larger test is component-wise containment by a different pair |
| `Maximal.MaximalPairsMembership` | codigoalpha.py:91-106 | a pair is in YL exactly when it is in XL and no other pair contains it component-wise |
| `Maximal.MaximalPairsAntichain` | codigoalpha.py:91-106 | no member of YL contains another |
| `Maximal.MaximalPairsCover` | codigoalpha.py:91-106 | every pair of XL lies inside some pair of YL |
| `Maximal.MaximalPairsNonEmpty` | codigoalpha.py:91-106 | YL is non-empty whenever XL is |
| `PetriNet.ComputePL` | codigoalpha.py:108-119 | PL holds exactly the maximal pairs' place names plus `iL` and `oL` |
| `PetriNet.PlaceName` | codigoalpha.py:113 | the f-string name of a pair (the same one is rebuilt at line 127); it has no ensures of its own, and `PetriNet.PlaceNameFresh`, `PetriNet.PlaceNameInjective` and `PetriNet.PlaceNameCollision` state its meaning |
| `PetriNet.AddIncoming` | codigoalpha.py:128-129 | the loop adds exactly one arc from every member of A to the place |
| `PetriNet.AddOutgoing` | codigoalpha.py:130-131 | the loop adds exactly one arc from the place to every member of B |
| `PetriNet.AddPlaceArcs` | codigoalpha.py:126-131 | the loop over YL collects exactly the arcs of every maximal pair |
| `PetriNet.ComputeFL` | codigoalpha.py:121-141 | FL holds exactly the maximal pairs' arcs, `iL` to TI and TO to `oL` |
| `PetriNet.PlaceNameFresh` | codigoalpha.py:113 | a pair's place name starts with `p_`, so it is never `iL` or `oL` |
| `PetriNet.PlacesShape` | codigoalpha.py:108-119 | `iL` and `oL` are places, and any other place is the name of a maximal pair |
| `PetriNet.PlaceNameInjective` | codigoalpha.py:113 | when no label holds `_` or `,`, different pairs of non-empty sets get different place names |
| `PetriNet.PlaceNameCollision` | codigoalpha.py:113 | `({x}, {y_z})` and `({x_y}, {z})` are different pairs with the same place name |
| `PetriNet.ArcsMembership` | codigoalpha.py:121-141 | an arc is in FL exactly when it enters a pair's place from A, leaves it to B, leaves `iL` to TI or enters `oL` from TO |
| `PetriNet.PairArcsMembership` | codigoalpha.py:126-131 | an arc of one pair enters its place from A or leaves it to B, and nothing else |
| `PetriNet.PlaceHasArcs` | codigoalpha.py:126-131 | the place of a pair with non-empty sides has an arc in and an arc out |
| `PetriNet.ArcsBipartite` | codigoalpha.py:121-141 | every arc joins an activity and a place, and `iL` never ends nor `oL` starts an arc when they are not activity names |
| `Classify.SuccessionTriplesMembership` | codigoalpha.py:208-215 | a triple `(x, '>', y)` is present exactly for a direct succession, and no 2-tuple is ever present, so the guard of line 215 always holds |
| `Classify.ClassifiedKeepsInvariant` | codigoalpha.py:213-223 | after any prefix of adjacencies, both sets hold only visited successions, and no two different activities are causal both ways |
| `Classify.StepKeepsInvariant` | codigoalpha.py:215-223 | one adjacency's update keeps that invariant |
| `Classify.CausalSetsWithinSuccessions` | codigoalpha.py:213-223 | causalities and parallelisms are direct successions, and no two different activities are causal both ways |
| `Classify.ParallelExact` | codigoalpha.py:213-223 | two different activities are parallel exactly when each directly follows the other |
| `Classify.OneWayIsCausal` | codigoalpha.py:213-223 | a one-way succession ends causal and not parallel either way |
| `Classify.CausalAndParallel` | codigoalpha.py:213-223 | `<a,b>,<b,a>,<a,b>` leaves `(a, b)` both causal and parallel |
| `Classify.DecisionsExact` | codigoalpha.py:226-241 | `(x, '#', y)` is a decision exactly when `x == y` or neither directly follows the other |
| `Classify.CollectSuccessionTriples` | codigoalpha.py:208-210 | the loop collects exactly the triples of the direct successions |
| `Classify.CollectCausalSets` | codigoalpha.py:213-223 | the loop over the traces ends with the causal and parallel sets of the whole log |
| `Classify.ClassifyTrace` | codigoalpha.py:214-223 | one trace's pass continues the classification of the adjacencies before it |
| `Classify.CollectLetters` | codigoalpha.py:226-229 | the loop collects the sorted list of the log's activities |
| `Classify.CollectDecisions` | codigoalpha.py:231-237 | the nested loops add exactly the decisions between different letters with no succession either way |
| `Classify.DecisionsSoFarComplete` | codigoalpha.py:231-237 | those decisions are exactly the log's decisions between different activities |
| `Classify.AddSelfDecisions` | codigoalpha.py:240-241 | the loop adds `(x, '#', x)` for every letter and nothing else |
| `Classify.ClassifyRelations` | codigoalpha.py:197-243 | the dictionary equals `Classification(log)` |
| `RelationTable.Index` | codigoalpha.py:263 | `list.index` finds the first position holding the label, and fails exactly when the label is absent |
| `RelationTable.Put` | codigoalpha.py:262-271 | `tabla[r][c] = v` changes only cell `(r, c)`: row `r` gets `v` at column `c` and every other row is unchanged |
| `RelationTable.CollectElements` | codigoalpha.py:247-251 | the header is the sorted set of every string of every triple |
| `RelationTable.NewTable` | codigoalpha.py:254-259 | the empty grid is square with both header lines, and every inner cell is empty |
| `RelationTable.WriteCausality` | codigoalpha.py:262-264 | one causality fails exactly when a label is missing, naming the first missing one, and otherwise writes `→L` and `←L` |
| `RelationTable.WriteCausalities` | codigoalpha.py:262-264 | the loop fails exactly when some causality label is missing from the header, and otherwise every cell holds its causal options |
| `RelationTable.WriteParallel` | codigoalpha.py:266-268 | one parallelism fails exactly when a label is missing, and otherwise writes `∥L` both ways |
| `RelationTable.WriteParallelisms` | codigoalpha.py:266-268 | the loop fails exactly when some parallelism label is missing, and otherwise parallel cells read `∥L` over the causal ones |
| `RelationTable.WriteDecision` | codigoalpha.py:270-271 | one decision fails exactly when its first or third label is missing, and otherwise writes `#L` one way |
| `RelationTable.WriteDecisions` | codigoalpha.py:270-271 | the loop fails exactly when some decision label is missing, and otherwise decided cells read `#L` over everything else |
| `RelationTable.GenerateTable` | codigoalpha.py:245-273 | the table fails exactly when a looked-up label is not in the header, and otherwise each cell holds the option its sets allow |
| `RelationTable.ElementosOfLog` | codigoalpha.py:248-250 | the header's strings are the labels of the direct successions, plus `'>'` when there is any |
| `RelationTable.LookedUpIsActivities` | codigoalpha.py:262-271 | the labels the three loops look up are exactly the log's activities |
| `RelationTable.ClassifiedTableFails` | codigoalpha.py:275-284 | the displayed table of a log fails exactly when some activity is missing from its header: the activity is in no direct succession, and it is not the marker `'>'` of a log that has a succession |
| `RelationTable.ClassifiedCells` | codigoalpha.py:275-284 | between two activities, the only option is the relation matrix's symbol, or `#L` on the diagonal |
| `RelationTable.TableAgreesWithMatrix` | codigoalpha.py:275-284 | wherever the displayed table exists, each activity cell is the matrix's symbol, and `#L` on the diagonal |
| `RelationTable.HeaderShowsMarker` | codigoalpha.py:247-251 | for `<a,b>` the header reads `'>', 'a', 'b'` |
| `RelationTable.LoneActivityFails` | codigoalpha.py:247-271 | for `<a,b>,<c>`, `c` is an activity missing from the header, so the table raises `ValueError` |
| `RelationTable.CorrectedGrid` | codigoalpha.py:254-259 | the corrected table is square, headed by TL, with `#L` on the diagonal and the matrix's symbol elsewhere |
| `RelationTable.CorrectedTableCells` | codigoalpha.py:245-273 | each corrected cell reads `∥L`, `→L`, `←L` or `#L` exactly as the two activities follow one another |
| `RelationTable.CorrectedCellOf` | codigoalpha.py:245-273 | each corrected cell is the relation matrix's symbol, and `#L` on the diagonal |
| `RelationTable.CorrectedAgreesWithDisplayed` | codigoalpha.py:245-273 | wherever the displayed table exists, each of its activity cells equals the corrected table's cell for the same activities |
| `Alpha.MineNet` | codigoalpha.py:306-314 | TL, TI, TO, XL, YL, PL and FL are those the α-algorithm defines for the log |
| `Alpha.ProcessInput` | codigoalpha.py:298-314 | the run fails exactly when some activity of the parsed log is missing from the table's header (in no direct succession, and not the marker `'>'` of a log with a succession), naming one; otherwise it yields the mined net and the displayed table |
| `Alpha.ProcessInputCorrected` | codigoalpha.py:298-314 | with the corrected table, the run always yields the mined net and the corrected table |
| `Alpha.MinedNetShape` | codigoalpha.py:306-314 | TI and TO lie in TL, each maximal pair has disjoint non-empty sides and a place with arcs in and out, and every arc joins TL and PL |

## Left out

- The window, text box and buttons (lines 292-296, 342-373) are left out. The input string is a parameter of `ProcessInput`.
- The image window `mostrar_grafica_en_ventana` (lines 184-195) is left out. It is display only.
- `visualize_petri_net` (lines 143-182) is left out. It drives Graphviz and the file system.
- The report text built at lines 320-340 is left out, and so is the table's string form at lines 286-290. They only format values the model computes.
- The catch-all `except` becomes the `Failed` outcome of `ProcessInput`. The only exception the modelled core can raise is `generate_table`'s `ValueError`. The error message text is left out.
- Python's set iteration order is not modelled. Every set loop is proved for any visiting order.
- When a pair is causal both ways, the table's cell is specified as either `→L` or `←L`. The one written last depends on that order.
- Integer widths are not modelled. Python's integers are unbounded, so `1 << n` and the masks need no wrap-around.
- `Strings.Join`: only states its one-part case. Its meaning is given by `Strings.SplitJoin` and `EventLog.FormatLogShape`.

## Findings

| source | as written | input that shows it | evidently intended | confidence | as-written member | corrected member |
|---|---|---|---|---|---|---|
| codigoalpha.py:247-271 | the table's header is built from the direct-succession triples, so an activity in no direct succession (other than the marker `'>'`) is missing, `list.index` raises `ValueError`, and `procesar_input` shows an error and no net | `<a,b>,<c>` | one row and one column per activity of TL, so every log yields its net | not executed | `RelationTable.LoneActivityFails` | `RelationTable.CorrectedTableCells` |
| codigoalpha.py:248-251 | `update` adds every member of each `(x, '>', y)` triple, so the marker `'>'` is a row and column of the table | `<a,b>` gives the header `'', '>', 'a', 'b'` | the header lists the activities only | not executed | `RelationTable.HeaderShowsMarker` | `RelationTable.CorrectedGrid` |

`Alpha.ProcessInput` models the run as written: it fails exactly for logs with
an activity missing from the header. `Alpha.ProcessInputCorrected` is the same run built on
`RelationTable.CorrectedTable`, which is headed by TL. It never fails.
`RelationTable.CorrectedAgreesWithDisplayed` proves the two tables agree
wherever the displayed one exists.
