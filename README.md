# Quine-McCluskey merge phase, modelled in Dafny

This project models the core of `src/App.java`. That core is the part of a
Quine-McCluskey boolean minimiser that combines terms. The input is a sum of
product terms such as `xyz + x~yz + x~y + x~y~z`. A variable is a single
character, and a leading `~` complements it. Each piece is parsed into a map
from variable to bit. The map is then binary-inserted into a list kept in
ascending order of ones-count.

`recursiveQM` then runs passes over the list. Each pass does the following:

- It records the current expression.
- It scans every pair `i <= j` in a double loop. Each time two terms differ
  in exactly one variable, it records the merge, collects the merged term
  and marks both terms as obsolete.
- It inserts the merged terms, removes one copy of each obsolete term and
  removes duplicates.

When a pass leaves the list unchanged, the run stops. `quineMcCluskey` then
sorts the list by `rateTermOrder` and records the final expression. The rank
`rateTermOrder` gives a term is the sum of `Character.getNumericValue` over
the characters of its rendering, skipping each `~` (line 210). The sort is
stable, so terms of equal rank keep their order.

Files, in dependency order:

- `wrappers.dfy`: the `Option` and `Result` types.
- `terms.dfy`: the term as a `map<char, Bit>`, plus `numberOfOnes`,
  `compareOnes`, `canCombine` and `combine`.
- `render.dfy`: `termToString`, `expressionToString` and `rateTermOrder`.
  Keys are rendered in ascending order.
- `parse.dfy`: `stringToTermMap`. It is modelled twice: as the source's loop
  (a method) and as a fold over the occurrences in the string (the function
  that specifies it).
- `term_list.dfy`: the mutated `LinkedList` as the class `TermList`, with
  `binaryInsert`, `remove`, `removeDuplicates` and `sort`, each specified by
  a function on sequences.
- `merges.dfy`: one pass. This covers the merges the double loop finds, in
  loop order, and the list update that follows.
- `engine.dfy`: `recursiveQM` and `quineMcCluskey`. They are written as
  methods of the class `Minimizer`, which holds the list of step lines. The
  methods are proved against the functions `Settle` (how the run ends and
  which list it leaves), `Trace` (the steps recorded) and `Minimize` (the
  whole call).
- `outcomes.dfy`: what a complete run guarantees.
- `coverage.dfy`: what the reduction preserves. A term covers an assignment
  of bits to variables when each of its literals holds there. A pass, a whole
  run and `quineMcCluskey` keep exactly the assignments the input covers.
- `documented_run.dfy`: two complete runs, followed stage by stage. The first
  is the example the window shows, `xyz + x~yz + x~y + x~y~z`, which the label
  says should give `x~y + xz` (lines 35 and 42). The second is the smallest
  merge, `xy + x~y`, which leaves `x`. Its merge line reads `x~y + xy = x`,
  not the input order: `binaryInsert` puts `x~y`, which has fewer ones, in
  front.

The fixed-point test at `App.java:115` compares the old and new lists in
order, so `Settle` and `RecursiveQM` test sequence equality.

## Model

| member | source | states |
|---|---|---|
| Terms.OnesAndZeros | src/App.java:192-198 | every value counted by numberOfOnes is 1; the ones and the zeros together account for every key |
| Terms.CompareOnes | src/App.java:189-191 | the result is -1, 0 or 1, and its sign is the comparison of the two ones-counts |
| Terms.CompareOnesAntisymmetric | src/App.java:189-191 | swapping the arguments negates the comparison |
| Terms.CanCombineIff | src/App.java:157-178 | canCombine holds exactly when the key sets are equal and exactly one key holds different values; terms over different variables never combine |
| Terms.CanCombineSymmetric | src/App.java:157-178 | canCombine does not depend on argument order |
| Terms.CombineDropsOneKey | src/App.java:179-187 | combining two combinable terms removes exactly the differing key and keeps every other entry |
| Terms.CombinableOnesDiffer | src/App.java:98-99 | combinable terms always pass the ones-difference-of-one test that comes before canCombine |
| Terms.CombineOnes | src/App.java:179-187 | the merged term keeps the smaller of the two ones-counts |
| Render.SortedKeysSpec | src/App.java:218 | the key order used for rendering lists every key once, in ascending order |
| Render.SortedKeysUnique | src/App.java:218 | that order is the only ascending listing of the key set |
| Render.TermToStringIsRenderKeys | src/App.java:216-222 | termToString writes one literal per key, in key order, with "~" before exactly the keys holding 0 |
| Render.TermToStringLength | src/App.java:216-222 | the rendering is one character per key plus one "~" per key holding 0 |
| Render.RankAppend | src/App.java:207-215 | the ranking of a concatenation is the sum of the rankings |
| Render.RateDependsOnlyOnKeys | src/App.java:207-215 | rateTermOrder ignores polarity: terms over the same variables rank equally |
| Render.ExpressionToString | src/App.java:200-206 | expressionToString fails (the substring throws) exactly on an empty list |
| Render.ExpressionHasTrailingSpace | src/App.java:200-206 | for a non-empty list the result is the terms joined by " + ", followed by a single space |
| Parse.Toggle | src/App.java:235-242 | the first occurrence of a variable stores its bit; a repeat with the same bit changes nothing; a repeat with the other bit removes the key; other keys are untouched |
| Parse.StringToTermMap | src/App.java:223-246 | the source's loop, including its extra step over "~", computes the fold of Toggle over the string's occurrences, or the error for a dangling "~" |
| Parse.PresentKeyHasLastBit | src/App.java:226-243 | a key present after parsing holds the bit of its last occurrence; a variable that never occurs is unaffected |
| Parse.ConsistentPolarity | src/App.java:226-243 | a variable always written with the same bit is present with that bit |
| Parse.OppositeRepeatCancels | src/App.java:235-239 | "x~x" parses to the empty term |
| Parse.TrailingComplementFails | src/App.java:229-231 | a "~" at the end of a well-formed term reads past the end of the string |
| Parse.FailureEndsInComplement | src/App.java:226-233 | parsing fails only on strings that end in "~" |
| Parse.ParseRendered | src/App.java:216-246 | parsing the rendering of a term without a "~" variable returns that term (round trip) |
| TermLists.InsertionIndexPlaces | src/App.java:133-148 | in a list sorted by ones-count, the recursive search returns an index with no greater ones-counts before it and no smaller ones-counts from it on |
| TermLists.SortedInsertPermutes | src/App.java:125-148 | binaryInsert adds exactly the element, one copy, and nothing else |
| TermLists.SortedInsertKeepsSorted | src/App.java:125-148 | binaryInsert keeps the list sorted by ones-count |
| TermLists.RemoveFirstAt | src/App.java:112 | remove(Object) drops the first equal element |
| TermLists.RemoveFirstAbsent | src/App.java:112 | removing an element that is absent changes nothing |
| TermLists.RemoveFirstPermutes | src/App.java:112 | removal takes away exactly one copy, or nothing if there is none |
| TermLists.RemoveFirstKeepsSorted | src/App.java:112 | removal keeps the ones order |
| TermLists.Dedup | src/App.java:149-155 | the list after removeDuplicates has no repeated element and contains exactly the elements it had before |
| TermLists.DedupKeepsSorted | src/App.java:149-155 | removing later copies keeps the list in order |
| TermLists.DedupOfDistinct | src/App.java:149-155 | a list without repeats is unchanged (idempotence) |
| TermLists.SortByCorrect | src/App.java:75 | List.sort by a key gives a permutation of the list, sorted by the key |
| TermLists.SortByStable | src/App.java:75 | the sort is stable: for every key value, the terms with that key appear in the same order before and after |
| TermLists.SortByRankCorrect | src/App.java:75 | sorting with termOrder gives the same terms in ascending rateTermOrder, and terms of equal rank keep their input order |
| TermLists.TermList.BinaryInsert | src/App.java:125-148 | the list in place becomes the sorted insertion of the element |
| TermLists.TermList.Remove | src/App.java:112 | the list in place loses its first copy of the element |
| TermLists.TermList.RemoveDuplicates | src/App.java:149-155 | the list in place becomes its distinct elements |
| TermLists.TermList.Sort | src/App.java:75 | the list in place becomes its sort by rank, which SortByRankCorrect shows is a stable, ordered permutation |
| Merging.MergeableIffCanCombine | src/App.java:98-99 | the ones-difference test together with canCombine accepts exactly the combinable pairs |
| Merging.MergesSound | src/App.java:93-110 | every reported merge is of two list terms that combine, into their combination |
| Merging.MergesComplete | src/App.java:93-110 | every combinable pair i <= j of the list is reported |
| Merging.AccumulatorsAt | src/App.java:100-104 | the k-th merged term, the k-th pair of obsolete terms and the k-th step line all come from the k-th merge |
| Merging.InsertAllPermutes | src/App.java:111 | inserting the merged terms adds exactly them |
| Merging.InsertAllKeepsSorted | src/App.java:111 | inserting the merged terms keeps the ones order |
| Merging.RemoveAllPermutes | src/App.java:112 | removing the obsolete terms is multiset difference |
| Merging.RemoveAllKeepsSorted | src/App.java:112 | removing the obsolete terms keeps the ones order |
| Merging.IterateMembers | src/App.java:111-113 | a term survives a pass exactly when it has more copies in the list plus the merged terms than among the obsolete terms |
| Merging.IterateKeepsSorted | src/App.java:111-113 | a pass keeps the list sorted by ones-count, as binaryInsert requires |
| Merging.MergesSizes | src/App.java:93-110 | both terms of every merge have the same size, and the merged term has one variable fewer |
| Merging.IterateNonEmpty | src/App.java:111-113 | a pass never empties a non-empty list |
| Merging.FixedPointIff | src/App.java:111-115 | a pass leaves the list unchanged exactly when it has no duplicates and no combinable pair |
| Engine.PassSteps | src/App.java:91-104 | a pass records the expression first, then one line per merge |
| Engine.Integrate | src/App.java:111-113 | the list update inserts the merged terms, removes the obsolete ones and removes duplicates, in that order |
| Engine.BuildTerms | src/App.java:67-73 | the parsing loop succeeds exactly when every piece parses, and then holds the built list |
| Engine.BuildListErrSticks | src/App.java:70-73 | once a piece fails to parse, the whole input fails |
| Engine.Minimizer.ScanRow | src/App.java:96-109 | the inner loop records and collects the merges of term i with terms i..n-1, in order |
| Engine.Minimizer.ScanAll | src/App.java:93-110 | the double loop records every merge as a step and collects the merged and obsolete terms |
| Engine.Minimizer.Pass | src/App.java:90-113 | one pass changes the list in place to the next list, and records the expression and the merges |
| Engine.Minimizer.RecursiveQM | src/App.java:84-123 | the recursion ends with the status and list given by Settle and appends the step lines given by Trace |
| Engine.SettleOnStableList | src/App.java:115-117 | on a stable list the run stops at once and records only the expression and "No further reductions found." |
| Engine.SettleOnChangedList | src/App.java:115-121 | after a pass that changes the list, the run records the new expression and an empty line, then continues from the new list if a pass is left |
| Engine.Minimizer.QuineMcCluskey | src/App.java:63-82 | the whole call clears the steps and then yields the result and steps given by Minimize |
| Outcomes.NoMergesNoCombinable | src/App.java:93-110 | when a pass finds no merge, no two terms of the list combine, in either order |
| Outcomes.SettleEndsStable | src/App.java:115-122 | a run that reaches a fixed point leaves a list that another pass would not change |
| Outcomes.SettleEndsReduced | src/App.java:115-122 | the final list of such a run has no repeated term and no two terms that combine |
| Outcomes.SettleKeepsSorted | src/App.java:111-121 | the run keeps the list sorted by ones-count |
| Outcomes.SettleNeverEmpty | src/App.java:111-122 | a run on a non-empty list never reaches an empty list |
| Outcomes.TraceStartsWithExpression | src/App.java:91 | the recorded steps start with the expression of the input list |
| Outcomes.TraceEndsAtFixedPoint | src/App.java:115-117 | every run that reaches a fixed point, after any number of passes, ends its steps with the final list's expression and "No further reductions found." |
| Outcomes.SettleIdempotent | src/App.java:115-121 | reducing a fully reduced list again changes nothing and finds no merge |
| Outcomes.BuildListOkIff | src/App.java:67-73 | the input parses exactly when every piece does |
| Outcomes.ParsedPieces | src/App.java:68-72 | the parsed pieces in input order: one term per piece, the i-th being the i-th piece's term |
| Outcomes.BuildListShape | src/App.java:70-73 | the built list holds exactly the pieces' terms, one copy each (a permutation of ParsedPieces), sorted by ones-count |
| Outcomes.MinimizeMalformed | src/App.java:70-73 | a malformed piece makes the call fail before any step is recorded |
| Outcomes.MinimizeNoPieces | src/App.java:63-82 | with no pieces there is no expression to show |
| Outcomes.MinimizeWellFormed | src/App.java:63-82 | with well-formed pieces, the only possible failure is running out of passes |
| Outcomes.SettleThenSort | src/App.java:74-75 | sorting the list a fixed-point run leaves gives a non-empty list in rank order with no repeated term and no combinable pair |
| Outcomes.MinimizeOkIff | src/App.java:63-82 | a final expression is produced exactly when every piece parses and the reduction reaches a list no pass changes |
| Outcomes.MinimizeAtFixedPoint | src/App.java:74-78 | at a fixed point the call returns the display-sorted final list, and its steps are the run's steps followed by "Final Expression: " and that list's expression |
| Outcomes.MinimizeResult | src/App.java:74-78 | when the reduction reaches such a list, the call succeeds with exactly the final list's terms (same multiset) in rank order, with no repeat and no combinable pair, and the last step shows them after "Final Expression: " |
| Coverage.CombineCovers | src/App.java:179-187 | the merged term is true exactly where one of its two parents is (xA + ~xA = A) |
| Coverage.PassPreservesCoverage | src/App.java:90-113 | a pass keeps exactly the assignments the list covers: the new list covers an assignment if and only if the old list does |
| Coverage.SurvivorCovers | src/App.java:111-113 | a term that is merged away leaves a surviving term that covers whatever it covered |
| Coverage.NewcomerCovered | src/App.java:111-113 | every term of the new list that covers an assignment comes from a term of the old list that covers it |
| Coverage.SettlePreservesCoverage | src/App.java:84-123 | however the run ends, its final list covers exactly what its starting list covers |
| Coverage.CoversAnyPermutation | src/App.java:75 | reordering the list, as the display sort does, changes nothing it covers |
| Coverage.BuildListCoverage | src/App.java:67-73 | the built list covers exactly what the input's terms cover |
| Coverage.MinimizeCoverage | src/App.java:63-82 | the final expression is equivalent to the input: it covers an assignment exactly when one of the input's terms does |
| DocumentedRun.ExampleBuild | src/App.java:67-73 | the example's pieces build the list x~y~z, x~y, x~yz, xyz |
| DocumentedRun.ExampleCombinations | src/App.java:157-187 | x~y~z and x~yz merge into x~y; x~yz and xyz merge into xz |
| DocumentedRun.ExampleMerges | src/App.java:93-110 | the first pass over the example finds exactly those two merges, in that order |
| DocumentedRun.ExampleFirstPass | src/App.java:111-113 | the first pass turns x~y~z, x~y, x~yz, xyz into x~y, xz |
| DocumentedRun.ExampleSecondPass | src/App.java:111-115 | the second pass finds no merge and leaves the list unchanged |
| DocumentedRun.ExampleSettle | src/App.java:84-123 | with a recursive call allowed the run stops at x~y, xz; with none it runs out of passes there |
| DocumentedRun.ExampleRanks | src/App.java:207-215 | x~y ranks 67 and xz ranks 68, so the display sort keeps x~y first |
| DocumentedRun.ExampleMergeLines | src/App.java:91-104 | the first pass records the expression, then "x~y~z + x~yz = x~y" and "x~yz + xyz = xz" |
| DocumentedRun.ExampleRun | src/App.java:35-42 | quineMcCluskey on the example returns x~y, xz with all eight step lines, ending with "Final Expression: x~y + xz "; with no recursive call allowed it fails after the first five |
| DocumentedRun.PairFirstPass | src/App.java:90-113 | one pass over x~y, xy leaves x alone |
| DocumentedRun.PairRun | src/App.java:63-82 | quineMcCluskey on "xy + x~y" returns x with its exact step lines, among them "x~y + xy = x" and, last, "Final Expression: x "; with no recursive call allowed it fails after the first four |

## Left out

- The JavaFX interface (`start`, the labels, the text field, `main`) and the
  `DEBUG` console output are left out. `quineMcCluskey` is modelled up to the
  list of step lines it would display.
- Splitting the input on `+` and trimming each piece are left out. The model
  takes the trimmed pieces as its input.
- Key order: the source iterates a `HashMap`'s key set, whose order depends
  on hashing. The model renders keys in ascending character order.
- TermLists.Dedup: `removeDuplicates` refills the list in a `HashSet`'s
  iteration order, which the model does not reproduce. The model keeps the
  first copy of each term in list order. In the source the refilled list can
  leave ones-count order, and the in-order comparison at line 115 can then
  need one more pass than the model does.
- Terms.CanCombine: the `values().equals` test at line 158 compares the
  collection objects by identity. It rejects only the pairing of a term with
  itself. The difference count at line 173 (`difference == 1`) rejects that
  pairing as well, so the test is not modelled.
- Characters: Java strings are sequences of UTF-16 code units. A variable
  outside the Basic Multilingual Plane is two `char` keys in the source and
  one `char` here.
- Render.NumericValue: `Character.getNumericValue` is modelled for ASCII
  only (digits, then letters in either case). Every other character gets -1.
- Engine.Minimize: an empty list, or a trailing `~`, makes the source throw
  an exception (`substring`, `charAt`). The model returns
  `Err(EmptyExpression)` or `Err(MalformedTerm)` instead.
- Engine.Settle: the source recurses until a pass changes nothing.
  Termination is not proved. A `fuel` bound on the number of passes makes the
  model total, and `OutOfFuel` reports a run that reaches the bound.
