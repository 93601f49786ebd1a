# Leela Zero search node, training-data scanner and custom-network emitter

This project models three parts of Leela Zero, a Go engine, and proves properties of them.

- **`UCT` (uct_node.dfy)** models the node of the Monte-Carlo search tree in `src/UCTNode.cpp` as a class whose methods update its fields in place. This covers:
  - the status machine (ACTIVE, PRUNED, INVALID);
  - the visit, evaluation and virtual-loss counters;
  - child creation, which keeps the legal network moves, renormalises their priors and stores the children best first;
  - the rotation step, which averages a further network evaluation into the node and its children;
  - recursive node counting;
  - PUCT child selection;
  - the `NodeComp` order used by `sort_children` and `get_best_root_child`.

  The neural network, the legality test, the random rotation, `sqrt` and the tuning constants are parameters. Floats are exact reals.
- **`TrainingAnalysis` (training_analysis.dfy)** models `scripts/training_analysis/training_analysis.py`:
  - decoding a 19-line window of a training file into a turn;
  - the `findEmptyBoard` loop, which counts first moves, early white moves and early black passes in a `Counter`;
  - `main`, which adds the per-file counters and lists the keys with strings first and integers second.

  An exception the script can raise is an `Err` result.
- **`CustomNetwork` (custom_network.dfy)** models `scripts/custom_networks/create_custom_network.py`. `Lines` gives the 27 printed lines as a function of the filter count, the input-plane count and the head sizes. `Layout` gives the token lists a weight-file reader splits them into.

There are three supporting modules:

- `Text` (text.dfy) models Python's `str.split()`, `str.strip()`, `int()` and string repetition.
- `Sorting` (sorting.dfy) is a sort into descending order by a strict weak order. It stands for `std::stable_sort` over reversed ranges.
- `Wrappers` (wrappers.dfy) holds `Option` and `Result`.

## Model

| member | source | states |
|---|---|---|
| UCT.InvalidIsFinal | src/UCTNode.cpp:397-405 | once a node is INVALID, no sequence of `invalidate`/`set_active` calls makes it valid again |
| UCT.SetActiveOnStatus | src/UCTNode.cpp:401-405 | `set_active` leaves an INVALID node INVALID; on a valid node it gives ACTIVE for `true` and PRUNED for `false` |
| UCT.UCTNode.IsActive | src/UCTNode.cpp:407-413 | `active()` implies `valid()` |
| UCT.UCTNode.Invalidate | src/UCTNode.cpp:397-399 | afterwards the node is not valid |
| UCT.UCTNode.SetActive | src/UCTNode.cpp:401-405 | the status transition of `set_active`; INVALID stays INVALID, otherwise `active()` iff the argument |
| UCT.UCTNode.constructor | src/UCTNode.cpp:44-45 | a fresh leaf: move and prior as given, no visits, no virtual loss, ACTIVE, no children, no rotations |
| UCT.UCTNode.Update | src/UCTNode.cpp:240-243 | visits rise by exactly one, `blackevals` by `eval`, and `first_visit()` no longer holds |
| UCT.UCTNode.VirtualLoss | src/UCTNode.cpp:232-234 | the virtual loss rises by `VIRTUAL_LOSS_COUNT` |
| UCT.UCTNode.VirtualLossUndo | src/UCTNode.cpp:236-238 | the virtual loss falls by `VIRTUAL_LOSS_COUNT` |
| UCT.VirtualLossRoundTrip | src/UCTNode.cpp:232-238 | a virtual loss followed by its undo restores the virtual loss |
| UCT.EvalSymmetry | src/UCTNode.cpp:269-285 | with no virtual loss, white's evaluation is one minus black's |
| UCT.NetEvalSymmetry | src/UCTNode.cpp:287-292 | white's network evaluation is always one minus black's |
| UCT.VirtualLossLowersEval | src/UCTNode.cpp:269-285 | a further virtual loss never raises the evaluation for either colour |
| UCT.VirtualLossLowersNodeEval | src/UCTNode.cpp:232-285 | `virtual_loss` on a node whose black results lie between 0 and its visits never raises `get_eval` for either colour |
| UCT.UCTNode.CreateChildren | src/UCTNode.cpp:55-122 | no expansion when the node has children, the game has two passes or an expansion is running; otherwise the node expands, with one rotation, the side-corrected network evaluation, and the legal entries of the network's list, renormalised and best first, as fresh unvisited ACTIVE children |
| UCT.UCTNode.Expand | src/UCTNode.cpp:79-121 | the expansion after the guards: rotation bookkeeping, the evaluation from black's view and the children from the network's legal moves |
| UCT.UCTNode.BeginExpansion | src/UCTNode.cpp:77-94 | marks the expansion running, records the rotation, sets one rotation and the side-corrected evaluation |
| UCT.UCTNode.LinkExpansion | src/UCTNode.cpp:96-121 | the children created are exactly the legal, renormalised entries, best first, and `nodecount` grows by their number |
| UCT.FilterLegal | src/UCTNode.cpp:96-105 | the loop keeps exactly the legal entries in order and sums their priors |
| UCT.LegalMovesCount | src/UCTNode.cpp:98-105 | each legal entry is kept as often as it occurs and each illegal one is dropped |
| UCT.Renormalise | src/UCTNode.cpp:107-118 | divides each prior by the legal sum when the sum exceeds the smallest normal float, and otherwise gives every entry `1 / size` |
| UCT.ComputeLegalPriors | src/UCTNode.cpp:96-118 | filtering then renormalising gives the legal priors |
| UCT.RenormalisedSumsToOne | src/UCTNode.cpp:107-118 | over exact reals, renormalised priors of a non-empty list sum to one in both branches |
| UCT.ScaledSum | src/UCTNode.cpp:107-111 | dividing every prior by the sum divides their total by it |
| UCT.SumUniform | src/UCTNode.cpp:112-117 | `n` priors equal to `u` sum to `n * u` |
| UCT.ExpandedListIsLegalEntries | src/UCTNode.cpp:96-121 | the children's moves are exactly the legal moves of the network's list, one child per legal entry |
| UCT.ExpandedListBestFirst | src/UCTNode.cpp:207-208 | the expanded list is best first: no later entry has a larger (score, vertex) pair than an earlier one |
| UCT.ExpandedVertex | src/UCTNode.cpp:96-121 | a move becomes a child iff it is legal and the network lists it |
| UCT.ExpandedEntryIsLegal | src/UCTNode.cpp:98-105 | every child's move is legal and comes from the network's list |
| UCT.LegalEntryIsExpanded | src/UCTNode.cpp:98-105 | every legal listed move becomes a child |
| UCT.UCTNode.LinkNodelist | src/UCTNode.cpp:201-221 | an empty list changes nothing; otherwise the children appended are fresh leaves whose entries are the list sorted best first by (score, vertex), `has_children` becomes true and `nodecount` grows by the children's number |
| UCT.UCTNode.AppendLeaves | src/UCTNode.cpp:212-220 | appending fresh leaves keeps the tree invariant and adds exactly them to the tree |
| UCT.UCTNode.NewLeaves | src/UCTNode.cpp:212-217 | one fresh, distinct leaf per entry, with that entry's move and prior |
| UCT.ScoredLessIsStrictWeakOrder | src/UCTNode.cpp:207-208 | the order on (score, vertex) pairs is a strict weak order, so the sort is well defined |
| UCT.UCTNode.DoNextRotation | src/UCTNode.cpp:124-199 | the rotation advances modulo 8; the evaluation becomes the running mean `(n * old + new) / (n + 1)`; each child matched by a legal renormalised entry gets the running mean of its prior; the rotation count rises by one |
| UCT.UCTNode.RecordRotation | src/UCTNode.cpp:131-148 | records the rotation and averages in the new evaluation with the old rotation count; the count then rises by one, as `m_num_rotations++` does after the nested loop at :195 |
| UCT.UCTNode.AverageScores | src/UCTNode.cpp:176-194 | the nested loop leaves the children and their moves unchanged and sets their priors to the averaged priors |
| UCT.UCTNode.AverageEntry | src/UCTNode.cpp:179-193 | one entry averages into the first child with its move and nowhere else |
| UCT.UCTNode.SetChildScore | src/UCTNode.cpp:182-185 | child `j`'s prior becomes the given value (the running mean the loop computes at :183-185); every other child's prior and every child's move are unchanged |
| UCT.AverageInDistinct | src/UCTNode.cpp:176-194 | with distinct moves, a child named by an entry gets the running mean of its prior and that entry's prior, and any other child keeps its prior |
| UCT.AverageInStep | src/UCTNode.cpp:176-194 | one more entry of the list is one more averaging step |
| UCT.FirstIndex | src/UCTNode.cpp:180-190 | the first child with the given move, or none |
| UCT.UCTNode.CountNodes | src/UCTNode.cpp:386-395 | the count is the number of strict descendants of the node |
| UCT.UCTNode.CountBelow | src/UCTNode.cpp:388-393 | the loop counts the children and everything below them |
| UCT.UCTNode.SizeOfRepr | src/UCTNode.cpp:386-395 | a node's subtree is the node plus the subtrees of its children |
| UCT.UCTNode.VisitTotals | src/UCTNode.cpp:309-318 | the first loop sums the visits of the valid children, and the priors of those that are also visited |
| UCT.UCTNode.UCTSelectChild | src/UCTNode.cpp:302-348 | returns an ACTIVE child whose `winrate + puct` is maximal among the ACTIVE children and strictly above every earlier ACTIVE child's |
| UCT.UCTNode.FirstBest | src/UCTNode.cpp:325-347 | the selection loop returns the first ACTIVE child of maximal value |
| UCT.NodeKeyLessIsStrictWeakOrder | src/UCTNode.cpp:350-371 | `NodeComp` (visits, then prior when unvisited, then evaluation) is a strict weak order |
| UCT.UCTNode.SortChildren | src/UCTNode.cpp:373-376 | the children become a permutation of themselves in which no child ranks below a later one |
| UCT.UCTNode.SortedByNodeComp | src/UCTNode.cpp:373-376 | sorting by a snapshot of the `NodeComp` keys gives a `NodeComp`-descending permutation |
| UCT.UCTNode.Reorder | src/UCTNode.cpp:373-376 | a permutation of the children keeps the tree invariant |
| UCT.UCTNode.GetBestRootChild | src/UCTNode.cpp:378-384 | returns what `max_element` does: a child that no child ranks above, ranked above every earlier child |
| Sorting.SortDescPermutation | src/UCTNode.cpp:207-208 | sorting returns a permutation of its input |
| Sorting.SortDescSorted | src/UCTNode.cpp:207-208 | under a strict weak order the result is descending |
| TrainingAnalysis.CeilDiv | scripts/training_analysis/training_analysis.py:36 | `math.ceil(a / b)`: the least `q` with `q * b >= a` |
| TrainingAnalysis.ZeroLineShape | scripts/training_analysis/training_analysis.py:36 | `ZERO_LINE` is 91 zeros and a newline |
| TrainingAnalysis.ZeroLineIff | scripts/training_analysis/training_analysis.py:36 | a line is all 91 zeros and a newline iff it equals `ZERO_LINE` |
| TrainingAnalysis.NewTurn | scripts/training_analysis/training_analysis.py:38-47 | a parsed window is valid iff it has 19 lines, and any other length gives an invalid turn. A valid window has the board in lines 0-15, the side to move as the integer on line 16, the split policy line 17, and the winner as the integer on line 18. `empty_board` holds iff all board lines are zero lines, and `early_board` iff the last one is. A ValueError is raised iff either `int()` fails |
| TrainingAnalysis.EmptyIsEarly | scripts/training_analysis/training_analysis.py:46-47 | `empty_board` implies `early_board` |
| TrainingAnalysis.DecodeTurnLines | scripts/training_analysis/training_analysis.py:38-47 | the window written from a board, a side, policy words and a winner decodes to exactly those fields |
| TrainingAnalysis.Tally | scripts/training_analysis/training_analysis.py:58-70 | the corrected loop body: `first_move` rises by one iff the board is empty and black is to move; `white_early` rises by one iff the last board line is the zero line and white is to move; `black_pass` rises by one iff black passed (a previous turn, an early board equal to the previous one, white to move); the integer key of the number of `"0"` policy weights rises by one iff black passed, and no other integer key changes; every other key is unchanged; the counter gains exactly the keys it raises and no others; `black_pass` keeps pace with the sum of the integer keys |
| TrainingAnalysis.TallyFirstOrEarly | scripts/training_analysis/training_analysis.py:58-61 | no turn raises both `first_move` and `white_early` |
| TrainingAnalysis.Step | scripts/training_analysis/training_analysis.py:58-70 | a turn fails with IndexError exactly when a black pass meets an empty policy line, and otherwise tallies |
| TrainingAnalysis.StepAsWritten | scripts/training_analysis/training_analysis.py:58-70 | as written, a turn also fails with TypeError exactly when a black pass meets a non-empty board; otherwise it agrees with `Step` |
| TrainingAnalysis.WindowEnd | scripts/training_analysis/training_analysis.py:56 | `islice` takes 19 lines, or all that remain when fewer do |
| TrainingAnalysis.FindEmptyBoard | scripts/training_analysis/training_analysis.py:51-75 | the corrected loop (see ## Findings) returns the scan of the file from no previous turn and an empty counter, and a counter it returns has as many black passes as integer-keyed events |
| TrainingAnalysis.ScanKeepsBalance | scripts/training_analysis/training_analysis.py:62-70 | the scan keeps `black_pass` equal to the sum of the integer keys |
| TrainingAnalysis.TallyKeepsBalance | scripts/training_analysis/training_analysis.py:62-70 | one turn keeps `black_pass` equal to the sum of the integer keys |
| TrainingAnalysis.ShortWindowStops | scripts/training_analysis/training_analysis.py:56-57 | fewer than 19 lines stop the scan with no counts added |
| TrainingAnalysis.ScanIgnoresTail | scripts/training_analysis/training_analysis.py:55-57 | an incomplete last window changes nothing |
| TrainingAnalysis.ScanStep | scripts/training_analysis/training_analysis.py:55-74 | a valid first window is tallied and the scan goes on with it as the previous turn |
| TrainingAnalysis.ScanStepWith | scripts/training_analysis/training_analysis.py:55-74 | `ScanStep` for a known decoded turn |
| TrainingAnalysis.ScanAsWrittenStep | scripts/training_analysis/training_analysis.py:55-74 | the same step for the script as written, when the turn does not fail |
| TrainingAnalysis.AsWrittenAgreesOrCrashes | scripts/training_analysis/training_analysis.py:62-70 | the script as written returns the corrected result or raises TypeError |
| TrainingAnalysis.FirstTally | scripts/training_analysis/training_analysis.py:58-61 | an early white turn with no previous turn only counts `white_early` |
| TrainingAnalysis.SecondTally | scripts/training_analysis/training_analysis.py:58-70 | the same turn again counts a black pass and its zero-weight key |
| TrainingAnalysis.FirstWindowCounted | scripts/training_analysis/training_analysis.py:55-74 | scanning a repeated window first counts `white_early` once |
| TrainingAnalysis.SecondWindowCounted | scripts/training_analysis/training_analysis.py:55-74 | the repeated window then counts `white_early`, `black_pass` and the zero-weight key |
| TrainingAnalysis.RepeatedWindowCounted | scripts/training_analysis/training_analysis.py:55-74 | corrected, a repeated early white window whose board is not empty counts two `white_early`, one `black_pass` and one zero-weight key |
| TrainingAnalysis.RepeatedWindowCrashes | scripts/training_analysis/training_analysis.py:66-68 | as written, every such file raises TypeError |
| TrainingAnalysis.PassedWindowDecodes | scripts/training_analysis/training_analysis.py:38-47 | a concrete window of 19 lines decodes to an early white turn |
| TrainingAnalysis.PassedTurn | scripts/training_analysis/training_analysis.py:38-47 | that turn repeats a non-empty early board with white to move |
| TrainingAnalysis.BlackPassCrashes | scripts/training_analysis/training_analysis.py:66-68 | as written, the concrete two-window file raises TypeError |
| TrainingAnalysis.BlackPassCounted | scripts/training_analysis/training_analysis.py:58-70 | corrected, the same file counts `white_early` twice, `black_pass` once and the key 0 once |
| TrainingAnalysis.Inc | scripts/training_analysis/training_analysis.py:59 | `count[k] += 1` raises that key by one and no other |
| TrainingAnalysis.IncIf | scripts/training_analysis/training_analysis.py:58-59 | a guarded `count[k] += 1`: the key is added and raised by one iff the guard holds, every other count is kept, and the integer total rises by the key's weight |
| TrainingAnalysis.StepsKeys | scripts/training_analysis/training_analysis.py:58-70 | the loop body's four guarded increments add exactly the keys whose guards hold |
| TrainingAnalysis.StepsStringCounts | scripts/training_analysis/training_analysis.py:58-69 | each of `first_move`, `white_early`, `black_pass` rises by one iff its guard holds, and no other string key changes |
| TrainingAnalysis.StepsIntCounts | scripts/training_analysis/training_analysis.py:70 | only the integer key of the zero-weight count rises, and only on a black pass |
| TrainingAnalysis.StepsIntTotal | scripts/training_analysis/training_analysis.py:69-70 | the integer total rises by one exactly on a black pass |
| TrainingAnalysis.Occurrences | scripts/training_analysis/training_analysis.py:70 | `list.count` is the number of times the word occurs in the list (its multiplicity), so it is zero iff the word is absent and never exceeds the length |
| TrainingAnalysis.IntTotalUpdate | scripts/training_analysis/training_analysis.py:70 | setting one key changes the sum of the integer keys by that key's change |
| TrainingAnalysis.Merge | scripts/training_analysis/training_analysis.py:89 | `Counter.update` adds counts key by key |
| TrainingAnalysis.MergeCommutes | scripts/training_analysis/training_analysis.py:89 | merging counters commutes |
| TrainingAnalysis.MergeAssociates | scripts/training_analysis/training_analysis.py:89 | merging counters associates |
| TrainingAnalysis.IntTotalMerge | scripts/training_analysis/training_analysis.py:89 | the integer keys of a merge sum to the two counters' sums |
| TrainingAnalysis.MergeKeepsBalance | scripts/training_analysis/training_analysis.py:89 | merging balanced counters gives a balanced counter |
| TrainingAnalysis.MergeAllPermutation | scripts/training_analysis/training_analysis.py:86-89 | merging the per-file counters in any order gives the same total |
| TrainingAnalysis.TotalsMergeAll | scripts/training_analysis/training_analysis.py:86-89 | with the corrected `main` (see ## Findings), when every file scans, the total is the merge of the file counters |
| TrainingAnalysis.TotalsAnyOrder | scripts/training_analysis/training_analysis.py:86-89 | with the corrected `main` (see ## Findings), files with the same multiset of counters give the same totals in any order |
| TrainingAnalysis.TotalsBalanced | scripts/training_analysis/training_analysis.py:84-89 | with the corrected `main` (see ## Findings), the total keeps as many black passes as integer-keyed events |
| TrainingAnalysis.TotalsPrefixErr | scripts/training_analysis/training_analysis.py:86-88 | with the corrected `main` (see ## Findings), a file that raises stops `main` with that exception |
| TrainingAnalysis.KeyOrder | scripts/training_analysis/training_analysis.py:90 | the sort key `(type(k)==int, k)` is a strict total order, with strings before integers |
| TrainingAnalysis.StrLessTransitive | scripts/training_analysis/training_analysis.py:90 | Python's string order is transitive |
| TrainingAnalysis.StrLessTotal | scripts/training_analysis/training_analysis.py:90 | Python's string order is total on distinct strings |
| TrainingAnalysis.SortedKeys | scripts/training_analysis/training_analysis.py:90 | the keys, each once, ascending in that order |
| TrainingAnalysis.SortedKeysUnique | scripts/training_analysis/training_analysis.py:90 | only one ascending sequence holds exactly those keys |
| TrainingAnalysis.Report | scripts/training_analysis/training_analysis.py:90-91 | line `i` holds the `i`-th key in sorted order with its total: each line's key is in the totals with that count, and the keys strictly increase (string keys first, then integers) |
| TrainingAnalysis.ReportListsEveryKey | scripts/training_analysis/training_analysis.py:90-91 | every key of the totals is printed with its count, and no key is printed twice |
| TrainingAnalysis.ListTotals | scripts/training_analysis/training_analysis.py:90-91 | the printing loop produces the report |
| TrainingAnalysis.AnalyseFiles | scripts/training_analysis/training_analysis.py:77-91 | the corrected `main` (see ## Findings) reports the totals of all files in key order, or fails with the first file's exception |
| Text.Split | scripts/training_analysis/training_analysis.py:44 | `str.split()` yields only non-empty words without whitespace |
| Text.SplitSpaced | scripts/training_analysis/training_analysis.py:44 | splitting words joined and terminated by blanks gives the words back |
| Text.SplitWord | scripts/training_analysis/training_analysis.py:44 | a string with no whitespace that is not empty splits to itself alone |
| Text.SplitAllSpace | scripts/training_analysis/training_analysis.py:44 | a string of whitespace only splits to no words |
| Text.SplitAtSpace | scripts/training_analysis/training_analysis.py:44 | a whitespace character separates: the words of `a + c + b` are those of `a` followed by those of `b` |
| Text.SplitBeforeSpace | scripts/training_analysis/training_analysis.py:44 | the words of `a + u`, where `u` starts with whitespace, are those of `a` followed by those of `u` |
| Text.StripSlice | scripts/training_analysis/training_analysis.py:43 | `int()` ignores exactly the leading and trailing whitespace of its argument: the slice keeps the text between them |
| Text.ParseIntShow | scripts/training_analysis/training_analysis.py:43-45 | `int()` reads back any integer written in decimal, with or without the newline |
| CustomNetwork.Lines | scripts/custom_networks/create_custom_network.py:35-69 | the script prints exactly 27 lines |
| CustomNetwork.ReadVersion | scripts/custom_networks/create_custom_network.py:35 | the first line reads back as the version `1` |
| CustomNetwork.ReadKernels | scripts/custom_networks/create_custom_network.py:31 | `(IDENTITY + " ") * n` reads back as `n` identity kernels |
| CustomNetwork.KernelTokens | scripts/custom_networks/create_custom_network.py:31 | every 9-token kernel of a weights line is `0.1` four times, `0.9`, then `0.1` four times |
| CustomNetwork.Fill | scripts/custom_networks/create_custom_network.py:39-41 | `n` tokens, each the given weight |
| CustomNetwork.ReadFilled | scripts/custom_networks/create_custom_network.py:39-41 | `"0.1 " * n` reads back as `n` tokens `0.1` |
| CustomNetwork.ReadConvolution | scripts/custom_networks/create_custom_network.py:38-41 | a convolution's four lines read back as its kernels and three arrays of `RESIDUAL_FILTERS` tokens `0.1` |
| CustomNetwork.ReadInput | scripts/custom_networks/create_custom_network.py:38-41 | the input convolution reads back as `INPUT_PLANES * RESIDUAL_FILTERS` identity kernels and three arrays of `0.1` |
| CustomNetwork.ReadResidual | scripts/custom_networks/create_custom_network.py:44-51 | the residual section reads back as exactly two `RESIDUAL_FILTERS`-squared-kernel convolutions, a one-block tower whatever `RESIDUAL_BLOCKS` says |
| CustomNetwork.ReadPolicy | scripts/custom_networks/create_custom_network.py:54-59 | the policy head reads back as arrays of `2F`, 2, 2, 2, `points * moves * 2` and `moves` tokens (361, 362 in the script), each the printed weight |
| CustomNetwork.ReadPolicyLayer | scripts/custom_networks/create_custom_network.py:58-59 | the fully connected policy layer reads back as `points * moves * 2` weights and `moves` biases |
| CustomNetwork.ReadValue | scripts/custom_networks/create_custom_network.py:62-69 | the value head reads back as arrays of `F`, 1, 1, 1, `points * hidden`, `hidden`, `hidden` and 1 tokens (361, 256 in the script), each the printed weight |
| CustomNetwork.ReadValueHidden | scripts/custom_networks/create_custom_network.py:66-67 | the hidden value layer reads back as `points * hidden` weights and `hidden` biases |
| CustomNetwork.ReadValueOutput | scripts/custom_networks/create_custom_network.py:68-69 | the value output reads back as `hidden` weights and one bias |
| CustomNetwork.ReadLines | scripts/custom_networks/create_custom_network.py:35-69 | the whole printed file reads back as the layout of a one-block network |
| CustomNetwork.Layout | scripts/custom_networks/create_custom_network.py:35-69 | a network with `b` blocks has `19 + 8b` arrays |
| CustomNetwork.Tower | scripts/custom_networks/create_custom_network.py:44-51 | each block has two convolutions of four arrays |
| CustomNetwork.TowerBlock | scripts/custom_networks/create_custom_network.py:44-51 | block `i` of the tower is two filter-to-filter convolutions, each an identity kernel per filter pair and three bias and batch-norm arrays |
| CustomNetwork.LayoutSections | scripts/custom_networks/create_custom_network.py:35-69 | the weights file is the version, the input convolution, block `i` of the tower at arrays `5 + 8i` to `12 + 8i`, then the policy and value heads |
| CustomNetwork.LayoutSizes | scripts/custom_networks/create_custom_network.py:35-69 | every array has the size the network needs: 1, `9PF`, F, F, F, then twice `9F²`, F, F, F, then `2F`, 2, 2, 2, `2 * points * moves`, `moves`, then F, 1, 1, 1, `points * hidden`, `hidden`, `hidden`, 1 |
| CustomNetwork.ScriptSizes | scripts/custom_networks/create_custom_network.py:27-69 | at the script's constants the sizes are 1, 324, 2, 2, 2, 36, 2, 2, 2, 36, 2, 2, 2, 4, 2, 2, 2, 261364, 362, 2, 1, 1, 1, 92416, 256, 256, 1 |

## Left out

- Locking and atomics in src/UCTNode.cpp (`LOCK`, `get_mutex`, the atomic `nodecount` and `atomic_add`, the double check of `has_children` under the lock): the node is modelled sequentially, so the second `has_children` test at :69-71 is the same as the first.
- The network, the random rotation, the move-legality test, the pass count and the side to move of `GameState` are parameters, and `move_to_text` and the `myprintf` debug output are left out.
- Floats and doubles are exact reals. The model does not capture rounding, the float cast in `get_eval`, or the infinity that `1.0f / nodelist.size()` gives for an empty list, whose priors are never used. So `RenormalisedSumsToOne` holds only for reals.
- UCT.UCTNode.UCTSelectChild: `sqrt`, `cfg_puct` and `cfg_fpu_reduction` are parameters. The source's `assert(value > -1000.0)` and the requirement of an ACTIVE child become preconditions.
- UCT.UCTNode.DoNextRotation: the source's `assert(found)` is not required. A legal entry that matches no child is ignored, as the loop does with assertions disabled.
- UCTNode.h is not part of this model. The field defaults (no visits, ACTIVE, no rotations) and `VIRTUAL_LOSS_COUNT = 3` are taken as the constructor and constant state them.
- The stability of `std::stable_sort` is not modelled. Children with equal keys may come out in either order. `link_nodelist` sorts (score, vertex) pairs, where equal keys are equal entries.
- The float parts of the scanner are not modelled: `pass_weight` at scripts/training_analysis/training_analysis.py:48-49, and the `policy_sum` check with its message at :71-73, including the ValueError that `float()` raises on a bad policy token. Only the IndexError that `pass_weight` raises on an empty policy line is kept, because it comes before the TypeError at :68.
- The printed diagnostics of the scanner (:64-68, :73, :87), gzip and UTF-8 decoding, `fileinput` and `argparse` are left out. A file is its sequence of lines.
- `int()` is modelled for ASCII digits, an optional sign, single underscores between digits and surrounding whitespace. Other Unicode digits and whitespace are not modelled.
- TrainingAnalysis.CeilDiv: `math.ceil` of a float quotient is modelled as an exact integer ceiling.
- The printing in scripts/custom_networks/create_custom_network.py is modelled as the list of printed lines. The newline `print` adds is added back when a line is read.
- `SUM` (create_custom_network.py:32) is never read by the script and is not modelled. `RESIDUAL_BLOCKS` (:28) is only declared and is not modelled either: the script writes one block (:44-51) whatever its value, which the model names `PrintedBlocks`.
- CustomNetwork.ReadLines: the lemmas are proved for any filter count, plane count and head sizes. At the script's own constants the layout is stated through `ScriptSizes` rather than by expanding the 27 lines, whose longest line is over a million characters.
- scripts/custom_networks/test.py only runs an external binary through `os.system` and is not modelled.

## Findings

| source | as written | input that shows it | evidently intended | confidence | as-written member | corrected member |
|---|---|---|---|---|---|---|
| scripts/training_analysis/training_analysis.py:68 | `print(line, eol="")` passes a keyword `print` does not accept, so it raises TypeError whenever a black pass is found on a board that is not empty | two equal 19-line windows whose last board line is zero but whose board is not all zero, with white to move (`PassedGame`) | print each board line without an extra newline (`end=""`) and go on counting | not executed | TrainingAnalysis.ScanAsWritten | TrainingAnalysis.Scan |
