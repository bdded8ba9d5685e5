# Scan coordinates of the PyMoDAQ scanner

This project models how PyMoDAQ's scanner turns per-actuator 1-D position lists into an N-dimensional scan trajectory. It also proves properties of that model. It covers four pieces:

- **The trajectory.** `ScannerManager.get_positions` / `get_indexing` take the Cartesian product of the per-axis sequences, with the last axis varying fastest. Row `k` of the index grid is the mixed-radix decomposition of `k`. The total step count is the product of the per-axis counts, and an empty product is 1. `positions_at` reads one row. `set_scan` refuses a scan whose step total is strictly above the configured limit.
- **Axis ordering.** This covers three things:
  - the ordering choices, which are every permutation of the actuator titles;
  - `updateOrdering`, which reorders actuators and scanners by a chosen title list;
  - the `actuators` setter, which appends newly requested actuators and drops absent ones, with `makeScanner` / `removeScanner` doing the scanner bookkeeping.
- **Per-axis transforms.** A `SequentialScanner`'s `positions` randomizes with a permutation drawn without replacement, then applies back-and-forth (even indices in order, then odd indices reversed), then rounds. `makeSnake2D` swaps the two ends of every odd row of a flattened `L1 x L2` grid.
- **The order-driven selector.** `ScannerSelector.get_indexing` / `get_positions` build the same product over the sub-scanners an explicit `ordering` list names. `SequentialScanners.removeScanner` pops one keyed sub-scanner.

Modules:

| file | module | content |
|---|---|---|
| outcomes.dfy | `Outcomes` | `Option`, `Result`, and the Python exceptions the core raises |
| arith.dfy | `Arith` | small facts about products, division and remainder |
| seqs.dfy | `Seqs` | ranges, distinctness, index permutations, Python indexing, filters |
| product.dfy | `Product` | `itertools.product`, mixed-radix digits, lexicographic order |
| permutations.dfy | `Orderings` | `itertools.permutations` |
| transforms.dfy | `Transforms` | randomize and back-and-forth |
| snake.dfy | `Snake` | `makeSnake2D` |
| sequential_scanner.dfy | `SequentialScanner` | one actuator's sub-scanner |
| scanner_manager.dfy | `ScannerManager` | the manager's state and operations |
| scanner_selector.dfy | `ScannerSelector` | the ordering-driven selector |

Positions are values of an arbitrary type `T`.

Inputs the source draws from outside the core are parameters:
- The random draw of `rng.choice(n, size=n, replace=False)` is the parameter `numbers`, required to be a permutation of `0 .. n-1`.
- `np.round(positions, 8)` is a caller-supplied function `round`, applied last.
- The `steps_limit` read from the configuration is the parameter `limit`.
- The positions a newly made sub-scanner starts with are the parameter `initial`.

`scanner_manager.py` contains unresolved merge conflicts.
- The `HEAD` side is the behaviour modelled.
- The other side (`50c3d657`) serves as a cross-check. Its `n_steps` loop is `ScannerManager.CountSteps`, and its `updateOrdering` assigns the reordered actuator list to `_actuators` directly, bypassing the setter (it does not touch the scanners).
- Where code and intent part ways, both are modelled; see "## Findings".

## Model

| member | source | states |
|---|---|---|
| Product.StepsProduct | src/pymodaq/utils/scanner/scanner_manager.py:468-470 | the product of the step counts is 1 for no axes and 0 exactly when some axis has no step |
| Product.StepsProductPermutation | src/pymodaq/utils/scanner/scanner_manager.py:468-470 | step-count lists that are rearrangements of each other have the same product |
| Product.StepsProductRemoveAt | src/pymodaq/utils/scanner/scanner_manager.py:468-470 | the product factors as any one axis's count times the product of the others |
| ScannerManager.Steps | src/pymodaq/utils/scanner/scanner_manager.py:464-466 | `steps` holds one count per scanner, in scanner order, each that scanner's `n_steps` |
| ScannerManager.TotSteps | src/pymodaq/utils/scanner/scanner_manager.py:468-470 | `tot_steps` is 1 with no scanners, and 0 exactly when some scanner has no step |
| ScannerManager.CountSteps | src/pymodaq/utils/scanner/scanner_manager.py:474-479 | the running-product loop starting at 1 computes the same total as `tot_steps` |
| ScannerManager.UpdateSteps | src/pymodaq/utils/scanner/scanner_manager.py:460-462 | `_update_steps` leaves actuators and scanners alone and makes the `n_steps` setting agree with the total |
| ScannerManager.TotStepsReorder | src/pymodaq/utils/scanner/scanner_manager.py:311 | reordering the scanners by a permutation keeps the total step count |
| Product.Decompose | src/pymodaq/utils/scanner/scanner_manager.py:182-185 | the digits of a step index have one entry per axis, each below that axis's count |
| Product.Compose | src/pymodaq/utils/scanner/scanner_manager.py:182-185 | the step index of a digit list lies below the total step count |
| Product.ComposeDecompose | src/pymodaq/utils/scanner/scanner_manager.py:182-185 | decomposing a step index gives valid digits that compose back to the same index |
| Product.DecomposeCompose | src/pymodaq/utils/scanner/scanner_manager.py:182-185 | composing valid digits and decomposing gives the digits back |
| Product.ComposeOrder | src/pymodaq/utils/scanner/scanner_manager.py:182-185 | digit lists are lexicographically ordered exactly when their step indices are ordered |
| Product.ComposeLastDigit | src/pymodaq/utils/scanner/scanner_manager.py:182-185 | adding one to the last digit, when it stays in range, moves to the next step index |
| Product.LastAxisFastest | src/pymodaq/utils/scanner/scanner_manager.py:182-185 | from one step to the next, only the last axis moves while it has room |
| Product.ProductRows | src/pymodaq/utils/scanner/scanner_manager.py:186-189 | the Cartesian product has as many rows as the product of the axis lengths, each with one coordinate per axis |
| Product.ProductRowStep | src/pymodaq/utils/scanner/scanner_manager.py:186-189 | row `k` of the Cartesian product picks, on each axis, the entry its mixed-radix digit names |
| Product.IndexGridRows | src/pymodaq/utils/scanner/scanner_manager.py:182-185 | the product of the index ranges lists, at row `k`, the mixed-radix digits of `k` |
| Product.IndexGridOrdered | src/pymodaq/utils/scanner/scanner_manager.py:182-185 | index-grid rows come in strictly increasing lexicographic order |
| Product.IndexGridComplete | src/pymodaq/utils/scanner/scanner_manager.py:182-185 | every valid digit list appears in the index grid, at the row its digits compose to |
| Product.ProductParallel | src/pymodaq/utils/scanner/scanner_manager.py:182-189 | coordinate `j` of product row `k` is axis `j`'s entry at index-grid digit `[k][j]` |
| ScannerManager.GetIndexing | src/pymodaq/utils/scanner/scanner_manager.py:182-185 | `get_indexing` has `tot_steps` rows, row `k` being the mixed-radix digits of `k`, first scanner most significant |
| ScannerManager.AxisPositions | src/pymodaq/utils/scanner/scanner_manager.py:187 | the per-scanner position lists have the lengths `steps` lists |
| ScannerManager.GetPositions | src/pymodaq/utils/scanner/scanner_manager.py:186-189 | `get_positions` has `tot_steps` rows with one coordinate per scanner |
| ScannerManager.GetPositionsParallel | src/pymodaq/utils/scanner/scanner_manager.py:182-189 | `positions[k][j]` is scanner `j`'s position at `indexing[k][j]` |
| ScannerManager.GetIndexingOrder | src/pymodaq/utils/scanner/scanner_manager.py:182-185 | earlier steps have lexicographically smaller index rows |
| Seqs.PyIndex | src/pymodaq/utils/scanner/scanner_manager.py:503 | a Python index into a length-`n` sequence is accepted exactly when `-n <= i < n`, negative ones counting from the end |
| ScannerManager.PositionsAt | src/pymodaq/utils/scanner/scanner_manager.py:500-505 | `positions_at` succeeds exactly when the step index is in range and every scanner has an actuator, else IndexError; entry `j` carries actuator `j`'s title |
| ScannerManager.PositionsAtCoordinates | src/pymodaq/utils/scanner/scanner_manager.py:500-505 | the coordinate reported for scanner `j` is its position at the step's mixed-radix digit |
| ScannerManager.SetScan | src/pymodaq/utils/scanner/scanner_manager.py:526-539 | `set_scan` returns True, changing nothing, exactly when the total exceeds the limit; otherwise the `n_steps` setting becomes the total |
| ScannerManager.SetScanValid | src/pymodaq/utils/scanner/scanner_manager.py:526-539 | an accepted scan leaves a paired manager with distinct actuators valid, and repeating `set_scan` with the same limit gives the same answer and changes nothing more |
| Orderings.Factorial | src/pymodaq/utils/scanner/scanner_manager.py:134 | the number of arrangements is at least one |
| Orderings.Permutations | src/pymodaq/utils/scanner/scanner_manager.py:134 | every row of `permutations` rearranges the pool |
| Orderings.Choices | src/pymodaq/utils/scanner/scanner_manager.py:134 | the rows starting at or after pool entry `i` rearrange the pool and start with a pool entry from `i` on |
| Orderings.PermutationsCount | src/pymodaq/utils/scanner/scanner_manager.py:134 | there are `n!` permutations of `n` entries |
| Orderings.PermutationsDistinct | src/pymodaq/utils/scanner/scanner_manager.py:134 | permutations of distinct entries are pairwise different |
| Orderings.PermutationsComplete | src/pymodaq/utils/scanner/scanner_manager.py:134 | every rearrangement of the pool is among the permutations |
| Orderings.PermutationsRelabel | src/pymodaq/utils/scanner/scanner_manager.py:134-135 | permuting indices and then reading titles gives the permutations of the titles |
| ScannerManager.OrderingChoices | src/pymodaq/utils/scanner/scanner_manager.py:132-137 | `updateParamTree` offers `n!` orderings, each holding every actuator title as often as the actuators do |
| ScannerManager.OrderingChoicesArePermutations | src/pymodaq/utils/scanner/scanner_manager.py:132-137 | the orderings offered are the permutations of the title list |
| ScannerManager.OrderingChoicesDistinct | src/pymodaq/utils/scanner/scanner_manager.py:132-137 | with distinct titles no ordering is offered twice |
| ScannerManager.OrderingChoicesComplete | src/pymodaq/utils/scanner/scanner_manager.py:132-137 | every arrangement of the titles is offered |
| Seqs.IndexOf | src/pymodaq/utils/scanner/scanner_manager.py:304 | `list.index` finds the first position holding the item and fails exactly when it is absent |
| ScannerManager.OrderingIndices | src/pymodaq/utils/scanner/scanner_manager.py:304 | `[l2.index(item) for item in l1]` raises ValueError exactly when some item is missing; otherwise entry `i` points at `l1[i]` inside `l2` |
| ScannerManager.OrderingIsPermutation | src/pymodaq/utils/scanner/scanner_manager.py:304 | a rearrangement of distinct titles yields an index permutation |
| ScannerManager.UpdateOrdering | src/pymodaq/utils/scanner/scanner_manager.py:298-311 | an empty choice changes nothing; a missing title raises ValueError; otherwise the titles become the chosen list, every new slot holds an old actuator together with that same actuator's old scanner (positions included), so scanners move with their actuators, and `n_steps` matches the new total |
| ScannerManager.UpdateOrderingValid | src/pymodaq/utils/scanner/scanner_manager.py:298-311 | choosing an arrangement of distinct titles succeeds, keeps the manager consistent and `n_steps` unchanged, and rearranges both the actuators and the scanners without adding or losing any |
| ScannerManager.UpdateOrderingSubsetValid | src/pymodaq/utils/scanner/scanner_manager.py:298-311 | a choice of distinct titles that leaves some actuators out succeeds with exactly those titles and leaves a consistent manager, `n_steps` refreshed |
| ScannerManager.UpdateOrderingAsWrittenKeepsActuators | src/pymodaq/utils/scanner/scanner_manager.py:310-311 | as written, a rearrangement leaves the actuator list in its old order while the scanners are reordered as intended |
| ScannerManager.SetterIdleOnRearrangement | src/pymodaq/utils/scanner/scanner_manager.py:371-386 | the setter called with a rearrangement of the current actuators changes nothing |
| ScannerManager.UpdateOrderingAsWrittenUnpairs | src/pymodaq/utils/scanner/scanner_manager.py:310-311 | on two axes reordered to `["b", "a"]`, the code as written breaks the actuator/scanner pairing; the intended version keeps it |
| ScannerManager.NewScanner | src/pymodaq/utils/scanner/scanner_manager.py:313-316 | a new sub-scanner belongs to its actuator, has both actions unchecked and starts from the initial positions |
| ScannerManager.MakeScanner | src/pymodaq/utils/scanner/scanner_manager.py:313-330 | `makeScanner` appends exactly one scanner for the actuator, keeps the others, and the step setting follows the new total |
| ScannerManager.RemoveScannerNone | src/pymodaq/utils/scanner/scanner_manager.py:332-339 | `removeScanner` of an actuator with no scanner changes nothing |
| ScannerManager.RemoveScannerOne | src/pymodaq/utils/scanner/scanner_manager.py:332-339 | with one matching scanner, `removeScanner` removes exactly that one |
| ScannerManager.RemoveScannerExact | src/pymodaq/utils/scanner/scanner_manager.py:332-339 | with one scanner per actuator, `removeScanner` removes exactly the actuator's scanner, or nothing |
| ScannerManager.AppendMissingShape | src/pymodaq/utils/scanner/scanner_manager.py:377-380 | the append loop adds, in request order and without repeats, the requested actuators not yet present, each with a new scanner |
| ScannerManager.AppendNothing | src/pymodaq/utils/scanner/scanner_manager.py:377-380 | when every requested actuator is present the append loop changes nothing |
| Seqs.Dedup | src/pymodaq/utils/scanner/scanner_manager.py:377-380 | keeping first occurrences gives a repeat-free list with exactly the same members |
| Seqs.RemoveFirst | src/pymodaq/utils/scanner/scanner_manager.py:383 | `list.remove` takes out the first occurrence of the item and keeps the other entries in their order |
| ScannerManager.KeepScanners | src/pymodaq/utils/scanner/scanner_manager.py:381-385 | keeping the requested scanners keeps exactly the scanners of requested actuators, in order |
| ScannerManager.SetActuators | src/pymodaq/utils/scanner/scanner_manager.py:371-386 | the intended setter keeps the requested old actuators in their order, then appends the new ones; the result holds exactly the requested actuators |
| ScannerManager.SetActuatorsValid | src/pymodaq/utils/scanner/scanner_manager.py:371-386 | the intended setter keeps actuators distinct, paired with their scanners, and the step setting in sync |
| ScannerManager.SetActuatorsPaired | src/pymodaq/utils/scanner/scanner_manager.py:371-386 | from any paired state with distinct actuators, even one with a stale step setting, the intended setter keeps the pairing and distinctness, and either changes nothing or changes the actuator list and refreshes the step setting |
| ScannerManager.Init | src/pymodaq/utils/scanner/scanner_manager.py:95-100 | the constructor starts from empty lists and ends with the requested actuators, once each in request order, each with a new scanner |
| ScannerManager.InitAsWritten | src/pymodaq/utils/scanner/scanner_manager.py:95-100 | from the empty manager the setter as written gives the same result as the intended one, since the removal loop finds nothing to drop |
| ScannerManager.InitValid | src/pymodaq/utils/scanner/scanner_manager.py:95-100 | a constructor given at least one actuator ends in a valid state |
| ScannerManager.InitNoActuatorsStale | src/pymodaq/utils/scanner/scanner_manager.py:75-100 | a constructor given no actuators leaves the step setting at its default 0 while `tot_steps` is 1 |
| ScannerManager.DropAbsentKeeps | src/pymodaq/utils/scanner/scanner_manager.py:381-385 | whatever the removal loop skips, it removes no requested actuator |
| ScannerManager.SetActuatorsAsWrittenKeepsRequested | src/pymodaq/utils/scanner/scanner_manager.py:371-386 | as written, the setter still holds every requested actuator, in the intended order |
| ScannerManager.SetActuatorsAsWrittenSkips | src/pymodaq/utils/scanner/scanner_manager.py:381-385 | deselecting both of two actuators leaves the second one in place as written, and none as intended |
| Snake.Swap | src/pymodaq/utils/scanner/scanner_manager.py:172 | the fancy-index assignment exchanges the two entries and keeps the rest |
| Snake.MakeSnake2D | src/pymodaq/utils/scanner/scanner_manager.py:168-173 | for a positive row length, `makeSnake2D` succeeds exactly when every swapped row fits, returning a same-length rearrangement given by the row-end partner map; otherwise IndexError |
| Snake.SnakeFlatRows | src/pymodaq/utils/scanner/scanner_manager.py:168-173 | with row length 0 every round exchanges the first and last entries (indices 0 and -1): an even number of rounds changes nothing, an odd number swaps the ends, and an empty array raises IndexError |
| Snake.SnakeSwapsRowEnds | src/pymodaq/utils/scanner/scanner_manager.py:168-173 | odd row `2i+1`, for `i < L1 // 2`, has its first and last entries exchanged |
| Snake.SnakeKeepsOthers | src/pymodaq/utils/scanner/scanner_manager.py:168-173 | every entry that is not an end of such a row keeps its place |
| Snake.SnakeTwice | src/pymodaq/utils/scanner/scanner_manager.py:168-173 | snaking twice restores the grid |
| Transforms.Randomize | src/pymodaq/utils/scanner/sequential_scanner.py:200-203 | indexing by a draw without replacement keeps the length and the multiset, entry `i` being the drawn entry |
| Transforms.RandomizeShort | src/pymodaq/utils/scanner/sequential_scanner.py:200-203 | zero or one position is left as it is |
| Transforms.BackAndForth | src/pymodaq/utils/scanner/sequential_scanner.py:205-206 | back-and-forth keeps the length and the multiset, and says where each output entry comes from |
| Transforms.BackAndForthEnds | src/pymodaq/utils/scanner/sequential_scanner.py:169 | zero or one position is unchanged; otherwise the scan starts on the first position and ends on the second |
| Transforms.BackAndForthRoundTrip | src/pymodaq/utils/scanner/sequential_scanner.py:205-206 | interleaving the two halves back undoes back-and-forth |
| SequentialScanner.Reordered | src/pymodaq/utils/scanner/sequential_scanner.py:199-206 | randomize, then back-and-forth on the randomized list, keeps `n_steps` entries and their multiset |
| SequentialScanner.Positions | src/pymodaq/utils/scanner/sequential_scanner.py:195-208 | `positions` has `n_steps` entries, each the rounding of the raw entry the two transforms select |
| SequentialScanner.PositionsPermuteRaw | src/pymodaq/utils/scanner/sequential_scanner.py:195-208 | the positions are a rearrangement of the rounded raw positions |
| SequentialScanner.PositionsPlain | src/pymodaq/utils/scanner/sequential_scanner.py:195-208 | with both actions unchecked, the positions are the rounded raw positions in order |
| SequentialScanner.PositionsBackAndForthEnds | src/pymodaq/utils/scanner/sequential_scanner.py:205-207 | back-and-forth alone starts on the first raw position and ends on the second |
| SequentialScanner.TableRows | src/pymodaq/utils/scanner/sequential_scanner.py:149-154 | the table row count is `n_steps` clamped to 500, and the rows listed are that many leading positions |
| SequentialScanner.TableRowsComplete | src/pymodaq/utils/scanner/sequential_scanner.py:149-154 | the table lists all positions if and only if there are at most 500 of them; above that it shows exactly 500 rows |
| ScannerSelector.OrderedScanners | src/pymodaq/utils/scanner/scanner_selector.py:64 | looking up the ordered sub-scanners raises KeyError exactly when a key is missing |
| ScannerSelector.OrderedSteps | src/pymodaq/utils/scanner/scanner_selector.py:64 | entry `j` is the step count of the scanner `ordering[j]` names |
| ScannerSelector.GetIndexing | src/pymodaq/utils/scanner/scanner_selector.py:61-66 | the product of the ordered index ranges, one row per step, each of length `len(ordering)`, row `k` the mixed-radix digits of `k` |
| ScannerSelector.GetPositions | src/pymodaq/utils/scanner/scanner_selector.py:68-73 | as many rows as the product of the ordered step counts, each with one coordinate per ordered axis |
| ScannerSelector.GetPositionsParallel | src/pymodaq/utils/scanner/scanner_selector.py:61-73 | `positions[k][j]` is the position of scanner `ordering[j]` at `indexing[k][j]` |
| ScannerSelector.SelectorIsManagerProduct | src/pymodaq/utils/scanner/scanner_selector.py:61-73 | the selector's grids are the manager's grids over the scanners the ordering picks |
| ScannerSelector.SubPositions | src/pymodaq/utils/scanner/scanner_selector.py:75-89 | the selector's `positions` keeps `n_steps` entries and their multiset |
| ScannerSelector.SubPositionsUnrounded | src/pymodaq/utils/scanner/scanner_selector.py:75-89 | the selector's pipeline is the sequential scanner's with no rounding step |
| ScannerSelector.RemoveScanner | src/pymodaq/utils/scanner/scanner_selector.py:115-116 | `removeScanner` pops exactly the given key, raising KeyError when it is missing, and leaves every other entry untouched |
| ScannerSelector.RemoveScannerRoundTrip | src/pymodaq/utils/scanner/scanner_selector.py:115-116 | putting the popped scanner back under its key restores the mapping |

## Left out

- Qt widgets, layouts, tables, viewers and toolbars are left out, as is signal/slot wiring. This includes the widget shuffling in `updateOrdering` and the widget removal in `removeScanner`. `SignalList` and `SignalDict` are plain sequences and maps here.
- `src/pymodaq/utils/scanner/scanner2.py` is not part of this model; it holds widget plumbing only. HEAD's `makeScanner` names `scanner2.ScannerSelector`. A manager scanner is modelled as a sequential sub-scanner, which has the `positions`, `n_steps` and `actuator` attributes the manager uses.
- The `ScannerFactory` / `ScannerBase` scanners are opaque. Each sub-scanner's underlying 1-D positions are an input, after the squeeze over the actuator axis, and `n_steps` is their count.
- The manager methods that only delegate to `self._scanner` are left out: `get_scan_info`, `get_nav_axes`, `get_indexes_from_scan_index`, `distribution`, `axes_indexes`, `update_from_scan_selector`, `set_scan_type_and_subtypes` and `set_scan_from_settings`.
- The configuration lookup is left out; `steps_limit` is a parameter.
- The random number generator is left out; its draw is a parameter.
- Floating point is left out. `np.round` is an opaque function applied last, and `float(pos)` in `positions_at` is the identity.
- The `scan_dim` text `f'{n}D'` is not modelled.
- ScannerManager.TotSteps: `np.prod` over a numpy int64 array wraps around on overflow. The model uses unbounded integers, which is the evident intent for any realistic scan.
- ScannerManager.SetScan: HEAD has no `_scanner`, so the steps it evaluates are taken to be `tot_steps`. Line 537 writes `self.settings.child('n_steps')`, but the setting sits under `scan_parameters` (line 75), and it reads `self.n_steps`, which HEAD renamed to `tot_steps` (lines 464-470); the model reads line 537 as refreshing `scan_parameters/n_steps` with `tot_steps`. The `scanner_updated_signal` emission is left out.
- ScannerManager.PositionsAt: the result is a list of (title, coordinate) pairs, not a `DataToExport`. Data objects are not part of this model.
- ScannerSelector.SubPositions: `np.squeeze` without an axis turns a one-step scanner into a 0-d array. That edge case is not modelled. Neither is the missing `is_action_checked` and `_scanner` on that class, which sit outside the core.
- ScannerSelector.GetIndexing: as written, `get_indexing` and `get_positions` read `self.ordering` and `self.scanners` (`scanner_selector.py` lines 64 and 71), which the class never assigns; its constructor (lines 47-50) sets only `actuators` and `scanner_type`, so both calls raise AttributeError before `product` is reached, and `product` is not imported either. The model takes the mapping and the ordering as given state and gives `product` its `itertools.product` meaning; the same holds for `ScannerSelector.GetPositions`.
- ScannerSelector.RemoveScanner: as written, `removeScanner` calls `self.actuators.pop(act)` (line 116) on what the constructor leaves a list (default `[]`, line 47), so popping with an actuator raises TypeError. The model follows the commented-out `actuators` setter (lines 123-137), where `actuators` maps each actuator to its scanner, and gives `pop` its dict meaning. That mapping is kept without insertion order; the selector's product depends only on `ordering`, so that order never matters here.
- Snake.MakeSnake2D: for a negative row length, `start` and `end` are negative and wrap around from the end of the array; the contract then states only that a success is a same-length rearrangement. Row length 0 is covered exactly by `Snake.SnakeFlatRows`.
- Snake.MakeSnake2D: numpy mutates `arr` in place, so a swap that raises IndexError part-way leaves the earlier swaps applied. The model returns only the error.
- ScannerManager.RemoveScannerExact: the loop in `removeScanner` also removes while iterating. The model follows that loop as written, but its contract is stated only for one scanner per actuator, the case the manager keeps.
- ScannerManager.InitNoActuatorsStale: a manager built with no actuators shows `n_steps` 0 while `tot_steps` is 1, because the settings default (line 75) is never refreshed when no list is resized. This is only a displayed value, so the model keeps that state as the source has it and promises validity only once an actuator is selected (`ScannerManager.InitValid`).
- ScannerManager.UpdateOrdering: the offered choices are full rearrangements, but a choice that leaves actuators out can be set programmatically. As written, line 309 then raises IndexError whenever a chosen title's position in the title list is at least the number of chosen titles, since only that many widgets were taken out of the layout (e.g. `[a, b]` with `["b"]`: the index list is `[1]` and `child[1]` does not exist). Otherwise (e.g. `["a"]`) the setter drops the missing actuators (with the skip recorded under Findings) and the `resized` signal refreshes `n_steps`. The widget layout is not modelled, so the intended model returns `Ok` in both cases: it keeps the chosen actuators with their scanners and refreshes `n_steps` (`ScannerManager.UpdateOrderingSubsetValid`); `n_steps` is promised unchanged only for full rearrangements (`ScannerManager.UpdateOrderingValid`).
- ScannerManager.SetActuators: this is the intended setter. The code as written is `SetActuatorsAsWritten`, covered under Findings.
- `updateParamTree` itself is modelled only as the list of ordering choices it offers.

## Findings

| source | as written | input that shows it | evidently intended | confidence | as-written member | corrected member |
|---|---|---|---|---|---|---|
| src/pymodaq/utils/scanner/scanner_manager.py:310-311 | `updateOrdering` assigns the reordered actuators through the `actuators` setter. The setter only appends missing and drops absent actuators, so a rearrangement leaves the actuators in their old order while the scanners are reordered. | two actuators "a", "b", each with one scanner, ordering `["b", "a"]`: actuators stay `[a, b]`, scanners become `[b's, a's]` | actuators and scanners reordered by the same indices: line 311 already reorders the scanners by that index list, and the other side of the merge assigns the reordered actuators to `_actuators` directly, bypassing the setter | not executed | ScannerManager.UpdateOrderingAsWrittenUnpairs | ScannerManager.UpdateOrderingValid |
| src/pymodaq/utils/scanner/scanner_manager.py:381-385 | the removal loop iterates over `self.actuators` while removing from it, so the entry after each removed one is skipped | actuators `[a, b]`, request `[]`: `b` and its scanner survive | every actuator absent from the request removed, with its scanner | not executed | ScannerManager.SetActuatorsAsWrittenSkips | ScannerManager.SetActuatorsValid |
