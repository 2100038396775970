# Minesweeper deduction engine, modelled in Dafny

This project models the solver in `minesweeper.py`. The solver takes a
partly revealed Minesweeper board and the total number of mines. It works
out which hidden cells are safe and which are mines. It tries cheaper
techniques first and falls back to an exhaustive search.

The board has two grids:

- the primary grid shows what is known of each cell: unknown (`?`), marked
  mine (`x`) or revealed number;
- the *reduced* grid holds, for every revealed cell, its number less the mines
  already marked around it.

The board also keeps these counters: `mines`, `mines_found`,
`mines_remaining`, `free_cells_remaining`. It keeps two sets, `opened` and
`unexhausted`, and two flags, `updated` (progress) and `finished`.

The model is split by layer:

- `grid.dfy` (`Grid`) holds the board as a datatype. Both grids are maps from
  on-board positions to `Unknown | Mine | Num(v)`. It also holds the 3x3
  window and the tallies `count_mines` / `count_frees`, with the board
  invariants:
  - `GridsAgree`: the two grids agree on unknown and mine cells;
  - `CountersAgree`: the counters match the grid;
  - `ReducedExact`: each reduced number is its revealed number less the
    marked mines around it.
  `Explains(b, m)` says that a set `m` of unknown cells could be where the
  remaining mines are. It has `mines_remaining` cells, and each reduced
  number counts exactly its unknown neighbours in `m`.
- `primitives.dfy` (`Primitives`) models `open_cell` and `mark_cell` and
  their batch forms. `open_surroundings`, `mark_surroundings`,
  `basic_patterns` and `check_rules` apply a batch by iterating a Python
  set. `grid_finished_check` walks the grid row by row, and `solve_rules`
  walks its lists of blocks and cells. `OpenCells` / `MarkCells` take the
  cells in any order and are proved equal to the closed forms `OpenAll` /
  `MarkAll`, so each of these batches equals the closed form.
- `propagate.dfy` (`Propagate`) models `open_surroundings`,
  `mark_surroundings`, `check_neighbours` and `grid_finished_check`.
- `patterns.dfy` (`Patterns`) models `one_by_n` and `basic_patterns`, the
  1-vs-n line pattern.
- `rules.dfy` (`Rules`) models `Rule`, `equals`, `combine`, `create_rules`,
  `combine_rules` and `check_rules`.
- `blocks.dfy` (`Blocks`) models `Block`, `create_blocks`, `block_it`, the
  cartesian enumeration, `test_rules` / `test_rule` and `solve_rules`.

Every resolving stage has two kinds of results:

- an *effect* lemma: what changes and what does not;
- *soundness* and *consistency* lemmas. Under any placement the board admits,
  or any placement satisfying the rules, the stage only opens cells outside
  the placement and only marks cells inside it (`AgreesWith`). It also keeps
  the board invariants.

`open(x, y)`, the call that reveals a cell's number, is outside the model. It
is the parameter `oracle: Pos -> int`. Python's `KeyError` from
`set.remove` is modelled by `Result`.

Points where the behaviour of `minesweeper.py` is easy to misread:

- The neighbour table includes the offset `(0, 0)`. So `count_mines`,
  `count_frees` and the decrement loop of `mark_cell` scan the 3x3 window
  centre included, not just the eight neighbours.
- `open_cell` stores the number `open(x, y)` reveals. It does not compute a
  count from the board.
- `block_it` keeps the blocks whose *first* cell lies in the rule's scope. It
  does not keep every block that meets the scope. `Blocks.CreateBlocksExact`
  shows that every scope is a union of whole blocks, so the two readings
  agree.
- `check_rules` raises the progress flag for every rule with zero mines,
  including one with an empty scope that opens nothing.

## Model

| member | source | states |
|---|---|---|
| `Grid.DirectionsAreTheWindow` | minesweeper.py:9-11 | an offset is in the direction table exactly when it stays in the 3x3 window, the centre included |
| `Grid.OnBoard` | minesweeper.py:139-141 | a position is on the board exactly when 0 <= x <= len_x - 1 and 0 <= y <= len_y - 1; `WellFormed` makes these exactly the keys of both grids |
| `Grid.CountMines` | minesweeper.py:159-166 | tallies the marked cells over the offsets of the direction table; `Grid.CountMinesIsWindowMines` states what that count is |
| `Grid.CountFrees` | minesweeper.py:168-175 | tallies the unknown cells over the offsets of the direction table; `Grid.CountFreesIsUnknownWindow` states what that count is |
| `Grid.CountMinesIsWindowMines` | minesweeper.py:159-166 | `count_mines` equals the number of marked mines in the 3x3 window of the cell (centre included), at most 9 |
| `Grid.CountFreesIsUnknownWindow` | minesweeper.py:168-175 | `count_frees` equals the number of unknown cells in the 3x3 window of the cell |
| `Primitives.OpenCell` | minesweeper.py:105-111 | opening puts the revealed value in the primary grid and that value less the window's marked mines in the reduced grid; `free_cells_remaining` drops by one, the cell joins `opened`, nothing else changes |
| `Primitives.MarkWindow` | minesweeper.py:133-137 | the direction loop of `mark_cell` lowers by one every numeric reduced value in the window and nothing else |
| `Primitives.MarkCell` | minesweeper.py:126-137 | marking shows a mine in both grids, raises `mines_found`, lowers `mines_remaining` and `free_cells_remaining` by one, and lowers every numeric reduced value in the window by one |
| `Primitives.OpenCells` | minesweeper.py:101-102 | opening the cells of a set one at a time, in any order, gives the batch result `OpenAll` |
| `Primitives.MarkCells` | minesweeper.py:122-123 | marking the cells of a set one at a time, in any order, gives the batch result `MarkAll` |
| `Primitives.OpenAllKeepsMineCounts` | minesweeper.py:108-109 | opening cells that are not mines changes no window's mine tally |
| `Primitives.MarkAllMineCount` | minesweeper.py:133-137 | after marking a set, each window's mine tally grows by the marked cells in that window |
| `Primitives.OpenAllKeepsConsistent` | minesweeper.py:105-111 | opening unknown cells keeps the grids, counters and reduced values consistent; the unknown cells lose exactly the opened ones |
| `Primitives.MarkAllKeepsConsistent` | minesweeper.py:126-137 | marking unknown cells keeps the board consistent; the unknown cells lose exactly the marked ones, and the mines gain them |
| `Primitives.MarkAllKeepsReducedExact` | minesweeper.py:131-137 | after marking, every reduced number is still its revealed number less the marked mines around it |
| `Propagate.OpenSurroundings` | minesweeper.py:92-103 | succeeds exactly when every centre is still in `unexhausted`, and otherwise raises `KeyError` |
| `Propagate.OpenSurroundingsEffect` | minesweeper.py:92-103 | the centres leave `unexhausted`; every unknown cell in their windows is opened, shows its revealed value `open(x, y)` and joins `opened`; no other cell changes and no unknown cell is left around a centre |
| `Propagate.MarkSurroundings` | minesweeper.py:113-124 | succeeds exactly when every centre is still in `unexhausted`, and otherwise raises `KeyError` |
| `Propagate.MarkSurroundingsEffect` | minesweeper.py:113-124 | the centres leave `unexhausted`; the unknown cells in their windows become mines and the counters move by their number; no other cell changes |
| `Propagate.OpenSurroundingsKeepsConsistent` | minesweeper.py:92-103 | `open_surroundings` keeps the board consistent |
| `Propagate.MarkSurroundingsKeepsConsistent` | minesweeper.py:113-124 | `mark_surroundings` keeps the board consistent |
| `Propagate.OpenThenMarkEffect` | minesweeper.py:156-157 | opening around one set of centres and then marking around another leaves no unknown cell around any centre, changes only cells in those windows, and keeps `mines_found + mines_remaining` |
| `Propagate.CheckNeighbours` | minesweeper.py:143-157 | `check_neighbours` fails exactly when a zero centre or a saturated centre is missing from `unexhausted` |
| `Propagate.CheckNeighboursFlag` | minesweeper.py:154-155 | the progress flag is raised exactly when a zero or saturated centre was found |
| `Propagate.CheckNeighboursEffect` | minesweeper.py:148-157 | exactly the zero and saturated centres leave `unexhausted`, and the mine counters keep their sum |
| `Propagate.CheckNeighboursResolves` | minesweeper.py:148-157 | no unknown cell is left in the window of any found centre, and cells outside those windows are unchanged |
| `Propagate.CheckNeighboursKeepsConsistent` | minesweeper.py:143-157 | `check_neighbours` keeps the board consistent |
| `Propagate.ZeroWindowIsSafe` | minesweeper.py:150-151 | around a reduced 0, no unknown cell is a mine in any placement the board admits |
| `Propagate.SaturatedWindowIsMined` | minesweeper.py:152-153 | around a reduced value equal to its unknown neighbours, every unknown cell is a mine in every admitted placement |
| `Propagate.CheckNeighboursSound` | minesweeper.py:143-157 | `check_neighbours` opens only cells outside, and marks only cells inside, every placement the board admits |
| `Propagate.GridFinishedCheck` | minesweeper.py:177-193 | on a board whose grids agree on unknown and mine cells, keeps the board well formed; its three branches are stated by `Propagate.GridFinishedOpensAll`, `Propagate.GridFinishedMarksAll` and `Propagate.GridFinishedOtherwise` |
| `Propagate.GridFinishedOpensAll` | minesweeper.py:180-186 | with no mines left, every unknown cell is opened, no mine is added, both flags are set and the board stays consistent |
| `Propagate.GridFinishedMarksAll` | minesweeper.py:187-193 | with as many mines left as unknown cells, every unknown cell becomes a mine, none is left to find, both flags are set and the board stays consistent |
| `Propagate.GridFinishedOtherwise` | minesweeper.py:177-193 | in every other case the board is unchanged |
| `Propagate.GridFinishedKeepsConsistent` | minesweeper.py:177-193 | `grid_finished_check` keeps the board consistent |
| `Propagate.GridFinishedSound` | minesweeper.py:177-193 | both short-cuts agree with every placement the board admits |
| `Patterns.UnknownOnBoard` | minesweeper.py:229-232 | the kept squares are exactly the listed squares that are on the board and unknown in the reduced grid |
| `Patterns.OneByN` | minesweeper.py:219-243 | every returned square is an on-board unknown; when anything is returned there are exactly n - 1 mines |
| `Patterns.OneByNExact` | minesweeper.py:219-243 | if exactly n - 1 far squares are on-board unknowns, the mines are those squares and the safes are the on-board unknown near squares; otherwise both lists are empty |
| `Patterns.WindowSplit` | minesweeper.py:226-236 | the windows of the 1 and of the n share a part; beyond it the n's window has only the far squares and the 1's window only the near squares |
| `Patterns.OneByNSound` | minesweeper.py:219-243 | given a reduced 1 next to a reduced n, under every admitted placement the squares called mines are mines and the squares called safe are not |
| `Patterns.PatternSafes` | minesweeper.py:202-211 | every square some firing pattern calls safe is unknown |
| `Patterns.PatternMines` | minesweeper.py:202-211 | every square some firing pattern calls a mine is unknown |
| `Patterns.PatternsSound` | minesweeper.py:202-211 | the union of safes holds no mine and the union of mines holds only mines, under every admitted placement |
| `Patterns.BasicPatterns` | minesweeper.py:195-217 | on a board whose grids agree on unknown and mine cells, keeps the board well formed; what it opens and marks is stated by `Patterns.BasicPatternsEffect` |
| `Patterns.BasicPatternsEffect` | minesweeper.py:195-217 | the flag is raised exactly when some pattern produced a square; called mines become mines, the other called safes are opened, and nothing else changes |
| `Patterns.BasicPatternsSound` | minesweeper.py:195-217 | `basic_patterns` agrees with every placement the board admits |
| `Patterns.BasicPatternsKeepsConsistent` | minesweeper.py:195-217 | on a board some placement explains, `basic_patterns` keeps the board consistent |
| `Rules.Equals` | minesweeper.py:425-427 | two rules are equal exactly when their scopes are; `Rules.EqualsSameMines` shows that their counts then agree under any placement satisfying both |
| `Rules.EqualsSameMines` | minesweeper.py:425-427 | two rules with one scope that hold under one placement have one mine count, as the comment on `equals` assumes |
| `Rules.Combine` | minesweeper.py:429-438 | `combine` gives nothing exactly when the scopes overlap with neither inside the other; any rule it gives lies within the two scopes |
| `Rules.CombineScope` | minesweeper.py:429-438 | the new scope is the union of disjoint scopes with the sum of their counts, or together with the smaller scope it partitions the larger one and its count is the larger rule's less the smaller rule's |
| `Rules.CombineSound` | minesweeper.py:429-438 | a combined rule holds under every placement that satisfies both inputs |
| `Rules.CombineInverse` | minesweeper.py:433-434 | under a placement satisfying the contained rule and the difference rule, the containing rule holds |
| `Rules.AddIfNew` | minesweeper.py:263-269 | the list ends up holding a rule with the new scope; the rule is appended only if no rule had that scope, and no two rules share a scope |
| `Rules.RowMajorExact` | minesweeper.py:251-252 | the nested range loops visit every in-bounds cell exactly once |
| `Rules.CreateRules` | minesweeper.py:245-280 | builds the window rules and the global rule; its results are stated by `Rules.CreateRulesUnknowns`, `Rules.CreateRulesShape`, `Rules.CreateRulesComplete` and `Rules.CreateRulesSound` |
| `Rules.CreateRulesUnknowns` | minesweeper.py:249-272 | the unknown cells returned are exactly the reduced grid's unknown cells, each listed once |
| `Rules.CreateRulesShape` | minesweeper.py:245-280 | every rule is the window rule of a cell with a non-zero reduced number or the global remaining-mines rule, and no two rules share a scope |
| `Rules.CreateRulesComplete` | minesweeper.py:245-280 | every non-zero reduced number's window rule and the global rule are present, up to scope |
| `Rules.CreateRulesSound` | minesweeper.py:245-280 | every rule built holds under every admitted placement, and its scope is unknown cells only |
| `Rules.WithinPairsMembers` | minesweeper.py:287-289 | the first loop produces exactly the combinations of pairs i < j of the current rules |
| `Rules.CrossPairsMembers` | minesweeper.py:308-310 | the second loop produces exactly the combinations of a current rule with an old one |
| `Rules.DedupExact` | minesweeper.py:290-306 | a candidate is kept unless an old or current rule, or an earlier kept candidate, has its scope; kept rules never share a scope |
| `Rules.CombineRules` | minesweeper.py:282-330 | the second result is the old rules followed by the current ones, as returned at line 330; the new rules are stated by `Rules.CombineRulesFresh`, `Rules.CombineRulesComplete` and `Rules.CombineRulesSound` |
| `Rules.CombineRulesFresh` | minesweeper.py:282-330 | every new rule combines two current rules or a current and an old rule; no new rule shares a scope with another or with an old or current rule |
| `Rules.CombineRulesComplete` | minesweeper.py:282-330 | every such combination has its scope among the old, current or new rules |
| `Rules.CombineRulesSound` | minesweeper.py:282-330 | if all old and current rules hold under a placement and lie in a scope, so do all new rules |
| `Rules.CheckRules` | minesweeper.py:332-350 | on scopes of unknown cells, as `create_rules` builds them, keeps the board well formed; its effect is stated by `Rules.CheckRulesEffect` |
| `Rules.CheckRulesEffect` | minesweeper.py:332-350 | the flag is raised exactly when some rule has no mines or as many mines as cells; the union of all-mine scopes is marked, the rest of the all-safe scopes is opened, and nothing else changes |
| `Rules.TrivialRulesSound` | minesweeper.py:338-346 | under a placement satisfying every rule, the cells to open hold no mine and the cells to mark are all mines |
| `Rules.CheckRulesSound` | minesweeper.py:332-350 | with scopes of unknown cells, `check_rules` agrees with every placement that satisfies the rules |
| `Rules.CheckRulesKeepsConsistent` | minesweeper.py:332-350 | with unknown scopes and a placement satisfying the rules, `check_rules` keeps the board consistent |
| `Blocks.SigEqual` | minesweeper.py:356-362 | two cells get the same key exactly when every rule's scope holds both or neither |
| `Blocks.FindKey` | minesweeper.py:363 | finds the dictionary entry with the key, or reports that there is none |
| `Blocks.AddToGroupKeeps` | minesweeper.py:363 | appending a cell under its key keeps entries non-empty, keyed by their cells' flags and distinct, and adds exactly that cell |
| `Blocks.GroupCellsPartition` | minesweeper.py:354-363 | after the loop, the dictionary holds exactly the visited cells, each under its own key |
| `Blocks.GroupCellsDistinct` | minesweeper.py:354-363 | no entry lists a cell twice |
| `Blocks.SameRulesSameBlock` | minesweeper.py:354-366 | two cells lie in the same block exactly when every rule's scope holds both or neither |
| `Blocks.BlockIt` | minesweeper.py:440-446 | the converted rule keeps its count; the blocks it keeps are stated by `Blocks.BlocksIn` and `Blocks.CreateBlocksExact` |
| `Blocks.CreateBlocks` | minesweeper.py:352-369 | converts every rule, one converted rule per rule; the blocks are stated by `Blocks.CreateBlocksPartition` and `Blocks.SameRulesSameBlock` |
| `Blocks.BlocksIn` | minesweeper.py:440-446 | the blocks kept for a rule are exactly those whose first cell lies in its scope, each listed once |
| `Blocks.CreateBlocksPartition` | minesweeper.py:352-366 | the blocks are non-empty and pairwise disjoint and together hold exactly the unknown cells; each bound is min(mines_remaining, block size) |
| `Blocks.CreateBlocksExact` | minesweeper.py:440-446 | every converted rule keeps its count, and each block lies wholly inside the rule's scope when listed and wholly outside it otherwise |
| `Blocks.ProductExact` | minesweeper.py:380 | the enumeration yields exactly the assignments that give every block a count from zero up to its bound |
| `Blocks.KeepSolutions` | minesweeper.py:380-386 | the assignments kept are exactly the candidates that pass the test |
| `Blocks.SolutionsExact` | minesweeper.py:377-386 | a solution is exactly an in-bounds assignment whose total is `mines_remaining` and that passes every converted rule |
| `Blocks.ColumnMax` | minesweeper.py:391 | the maximum bounds every solution's value for the block and is attained by one of them |
| `Blocks.ZeroColumns` | minesweeper.py:392-394 | the blocks listed are exactly those whose column maximum is 0 |
| `Blocks.EmptyBlocksExact` | minesweeper.py:390-394 | the blocks opened are exactly those that every solution leaves empty, and none when there is no solution |
| `Blocks.TestRules` | minesweeper.py:406-413 | an assignment passes exactly when every converted rule's blocks sum to its count; `Blocks.InducedTest` shows every satisfying placement passes |
| `Blocks.SolveRules` | minesweeper.py:371-399 | on blocks of unknown cells keeps the board well formed; its effect is stated by `Blocks.SolveRulesEffect` |
| `Blocks.SolveRulesEffect` | minesweeper.py:371-399 | with no solution nothing changes; the flag is raised exactly when some block is empty in every solution; exactly those blocks' cells are opened |
| `Blocks.SumAtInduced` | minesweeper.py:448-454 | summing a placement's per-block counts over a rule's blocks counts its mines in the union of those blocks |
| `Blocks.InducedTest` | minesweeper.py:406-413 | the per-block counts of a placement satisfying the rules pass `test_rules` |
| `Blocks.InducedIsSolution` | minesweeper.py:380-386 | the per-block counts of a placement satisfying the rules are among the solutions |
| `Blocks.NeverMinedAvoids` | minesweeper.py:390-394 | when a placement's counts are a solution, no block empty in every solution holds one of its mines |
| `Blocks.SolveRulesSound` | minesweeper.py:371-399 | after `create_blocks` on unknown cells, `solve_rules` opens no cell of any placement that satisfies the rules and puts the remaining mines among the unknown cells |
| `Blocks.SolveRulesKeepsConsistent` | minesweeper.py:395-399 | `solve_rules` keeps the board consistent |

## Left out

- `make_board`, `__str__`, `print_reduced` and `solve_mine` are left out. They parse and print text.
- The two `print` calls in `grid_finished_check` (lines 181 and 188) are left out. They only write a message.
- `__init__` is not modelled as one operation. It builds the board from text and then runs `open_surroundings` and `check_neighbours`, which are modelled.
- The `solve` driver loop is left out. It has no termination argument, and the model proves each stage on its own.
- `open(x, y)` is the parameter `oracle`, because it lies outside the source.
- The sort at line 375 only reorders the blocks and is left out. The model enumerates blocks in dictionary order. `Blocks.SolveRulesEffect` describes the opened cells without reference to order, but invariance under every permutation is not proved.
- `set_block_values` and `Block.value` are left out. The assignment is passed to `TestRules` directly instead of being stored in the blocks.
- `Rule.len` is not stored. Scopes are built from lists that never repeat a cell, so it always equals the scope size.
- `deepcopy`, the string keys of `create_blocks` and the `rule_found` attribute are left out. The keys are kept as sequences of booleans, which are equal exactly when the strings are.
- The `cells` argument of `basic_patterns` is not modelled, because the source ignores it and scans the whole board.
- `WellFormed` is not a restriction of the source. It holds for every board `make_board` builds: both grids cover exactly the on-board cells. Many members require it.
- Several lemmas require `GridsAgree` or `Consistent`. These hold after `make_board` when every token of the board text is a number or `?`, and every stage keeps them, as the KeepsConsistent lemmas show. A board given with `x` tokens leaves `free_cells_remaining` counting them, `mines_found` at 0 and the numbers next to them unreduced, so `CountersAgree` and `ReducedExact` do not hold for it.
- Patterns.BasicPatternsKeepsConsistent and Rules.CheckRulesKeepsConsistent also require an admitted placement. Without one, the safe and mine sets could overlap, and a cell opened and then marked would be counted twice in `free_cells_remaining`.
- Primitives.OpenCell: the reduced value is stated only for a cell that was not already a mine. The source never opens a marked mine, though the body models that case too.
- Rules.CheckRules and Blocks.SolveRules require every scope or block to hold only unknown cells, as those `create_rules` and `create_blocks` build from the unchanged board. For a marked cell the batch form counts the window's mines before the cell is opened, while `open_cell` counts them after, so the two would differ there.
- Propagate.GridFinishedCheck and Patterns.BasicPatterns require `GridsAgree`, which every board `make_board` builds satisfies and every stage keeps. On a cell the primary grid shows as a mine but the reduced grid as `?`, the batch form would count the window's mines before the cell is opened, while `open_cell` counts them after.
- Patterns.OneByN: requires the neighbour along `d` to be numeric, as at its one call site (line 208). Otherwise `n - 1` in the source would raise a `TypeError`, which is not modelled.
