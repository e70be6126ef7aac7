# Longest road, modelled in Dafny

The repository solves a board puzzle. The input is a grid of letters:
- a lower-case letter is a road cell of that letter's player;
- the matching capital is that player's base;
- anything else is an open cell.

The program should print the player with the longest road, together with its length. A road is a chain of the player's road cells in which consecutive cells share an edge.

There are two Rust versions of the solver, and this project models both:
- `src/bin/longest_road.rs` stores a road subgraph (a `Path`) as a `HashSet<Pos>`. Its search carries a set of excluded cells.
- `src/main.rs` stores a `Path` as a `Vec<Pos>`. It starts the search only from the first cell.

Both versions share the same board code: positions, `Slot::new`, `Grid::players`, `height`, `width` and `push_str`. Line numbers below cite `src/bin/longest_road.rs` for the shared code. `src/main.rs` repeats it with a shift of one to four lines.

Modules:
- `Collections` (`collections.dfy`) holds `Option` and `Outcome`. `Outcome` is a result that may be a Rust panic. The module also has `Enumerate`, an unspecified enumeration of a finite set. It stands for the order in which a `HashMap` or `HashSet` is visited. `Enumerate` is a function of the set's contents, so equal sets are always visited in the same order, whereas Rust may order two equal `HashSet`s differently. Every property proved is independent of the visiting order.
- `Board` (`board.dfy`) covers positions, adjacency, players, cell decoding and the sparse grid `map<Pos, Slot>`. It also has the checked form of `Pos::adjacent` that a debug build evaluates.
- `Reduce` (`reduce.dfy`) is the loop of `get_longest_path`, written generically over the path type. It comes in two forms: as written, and seeded.
- `SetPath` (`set_path.dfy`) is the `HashSet` solver.
- `VecPath` (`vec_path.dfy`) is the `Vec` solver.
- `SimplePaths` (`simple_paths.dfy`) is the longest-road rule the solvers aim at: the length of a longest simple path. It is an exhaustive search, proved to return a longest simple path.
- `Scenarios` (`scenarios.dfy`) works through the two-row example `aA` / `a.` on all three scorings.
- `Scoring` (`scoring.dfy`) is the winner loop at the end of each `main`, with the answers of each solver plugged in. It also has the scoring the program evidently intends.

The program's names (`longest_road`, `get_longest_path`) point to its purpose: find each player's longest road and name the player with the longest. So does the doc comment on `PathResult::Complete` at src/bin/longest_road.rs:203, which speaks of a complete path with its branches. The model reads "longest road" as the longest simple path through the player's road cells. As written, neither version ever names a winner, and the list version can panic first. The model follows the code as written. The intended behaviour is modelled separately, as the corrected solver (`SimplePaths`) and the intended scoring (`Scoring.IntendedMain`); see Findings.

Positions are `usize` pairs, modelled as unbounded naturals. For coordinates below `usize::MAX`, which covers every coordinate an input can produce, `Board.Adjacent` agrees with release-build arithmetic, where `0 - 1` wraps around instead of panicking. Only `Board.AdjacentChecked` and the lemmas about it model debug-build arithmetic; see "## Left out".

Functions that visit a `HashMap` or `HashSet` are `ghost`, because they pick an enumeration order by choice (`:|`).

## Model

| member | source | states |
|---|---|---|
| Board.Adjacent | src/bin/longest_road.rs:17-23 | two positions are adjacent exactly when their Manhattan distance is 1 (same column and rows one apart, or same row and columns one apart) |
| Board.AdjacentSymmetric | src/bin/longest_road.rs:17-23 | adjacency does not depend on the order of its arguments |
| Board.AdjacentIrreflexive | src/bin/longest_road.rs:17-23 | no position is adjacent to itself |
| Board.Neighbours | src/bin/longest_road.rs:17-23 | a position has at most four edge neighbours, and exactly four away from the top and left edges |
| Board.AdjacentIffNeighbour | src/bin/longest_road.rs:17-23 | `adjacent` holds for exactly the four edge neighbours, so a cell has at most four adjacent cells |
| Board.SlotOf | src/bin/longest_road.rs:39-95 | a lower-case letter is a road of the player (letter, its capital); a capital is that player's base; any other character is open; every decoded player pairs a lower-case letter with its capital |
| Board.SlotOfRoundTrip | src/bin/longest_road.rs:39-95 | the letter is recovered from its decoded cell, and a non-letter decodes to a cell with no letter |
| Board.SlotOfInjective | src/bin/longest_road.rs:39-95 | no two characters decode to the same non-open cell |
| Board.Height | src/bin/longest_road.rs:156-164 | every key's row is below the height; an empty grid has height 0; otherwise some key lies in the last row |
| Board.Width | src/bin/longest_road.rs:167-175 | every key's column is below the width; an empty grid has width 0; otherwise some key lies in the last column |
| Board.InsertRow | src/bin/longest_road.rs:177-184 | the insertion loop adds exactly the cells of the row, decodes each character into its cell, and leaves every other cell unchanged |
| Board.PushStr | src/bin/longest_road.rs:177-184 | the new keys are exactly the row's cells at the old height; each holds the decoded character; every old cell keeps its slot |
| Board.PushStrHeight | src/bin/longest_road.rs:177-184 | pushing a non-empty row raises the height by exactly one; pushing an empty row changes nothing |
| Board.PushStrWidth | src/bin/longest_road.rs:177-184 | after a push, the width is the larger of the old width and the row's length |
| Board.NewFrom | src/bin/longest_road.rs:123-132 | the grid holds exactly the cells of row 0, one per character, each decoded |
| Board.NewFromIsPushStr | src/bin/longest_road.rs:123-132 | `new_from(s)` builds the same grid as pushing `s` onto an empty grid |
| Board.OwnersOf | src/bin/longest_road.rs:134-144 | the loop lists a player exactly when one of the visited cells is that player's road or base |
| Board.Players | src/bin/longest_road.rs:134-144 | a player is listed exactly when some cell is their road or base; the list has at most one entry per cell |
| Board.AdjacentChecked | src/bin/longest_road.rs:17-23 | with debug-build `usize` arithmetic, whenever `adjacent` does not panic it returns the same answer as `Board.Adjacent` |
| Board.AdjacentCheckedUnderflow | src/bin/longest_road.rs:21-22 | comparing `Pos(0, 0)` with itself, or `Pos(3, 0)` with `Pos(3, 5)`, underflows `0 - 1`, although neither pair is adjacent |
| Board.SelfComparisonOnEdge | src/bin/longest_road.rs:227-231 | `get_adjacent` compares `pos` with itself when `pos` is a cell of the path; with debug-build arithmetic this panics exactly for a cell in row 0 or column 0, and never reports a cell adjacent to itself |
| Board.AdjacentCheckedInterior | src/bin/longest_road.rs:17-23 | away from the coordinate limits, the checked form never panics and agrees with `Board.Adjacent` |
| Reduce.ScanLongest | src/bin/longest_road.rs:299-310 | the loop never turns `None` into `Some` or back; a `Some` running best is replaced only by a path that is not shorter and comes from the list |
| Reduce.ScanLongestFindsFirstLongest | src/bin/longest_road.rs:301-307 | seeded with a path, the loop ends on the first of the longest among the seed and the list (strictly longer replaces; ties keep the earlier path) |
| Reduce.GetLongest | src/bin/longest_road.rs:299-310 | as written, `get_longest_path`'s loop returns `None` whatever the candidate paths are |
| Reduce.LongestSeeded | src/bin/longest_road.rs:299-310 | seeded with the first path, the loop is `None` exactly on an empty list; otherwise it is the first of the longest paths |
| SetPath.CollectRoads | src/bin/longest_road.rs:146-154 | the loop collects exactly the visited cells that hold this player's road |
| SetPath.RoadsForPlayer | src/bin/longest_road.rs:146-154 | a cell is in the player's road subgraph exactly when it holds that player's road; bases and open cells never are |
| SetPath.RoadsDisjoint | src/bin/longest_road.rs:146-154 | two different players' road subgraphs share no cell |
| SetPath.DrainInto | src/bin/longest_road.rs:210-214 | inserting the drained positions one by one yields the union of the target and the drained positions |
| SetPath.Append | src/bin/longest_road.rs:208-214 | after `append`, the target is the union of both paths and the other path is empty |
| SetPath.CollectAdjacent | src/bin/longest_road.rs:227-235 | the loop keeps exactly the visited cells that are adjacent to `pos` and not excluded |
| SetPath.GetAdjacent | src/bin/longest_road.rs:227-235 | the result is the set of the path's cells adjacent to `pos` and not excluded (sound and complete), and has at most four cells |
| SetPath.NumPathsFrom | src/bin/longest_road.rs:237-239 | the count is exactly the number of unexcluded cells of the path adjacent to `pos`; so it is at most 4, and 0 exactly when there is none |
| SetPath.HasAdjacent | src/bin/longest_road.rs:312-314 | true exactly when some unexcluded cell of the path is adjacent to `pos` |
| SetPath.ExclusionShrinks | src/bin/longest_road.rs:253-255 | excluding `pos`, a cell that was not excluded, strictly shrinks the set of cells still open to the search, so the recursion terminates |
| SetPath.FollowPath | src/bin/longest_road.rs:241-286 | `follow_path` always returns `Complete`; in the stopping case the answer is the whole subgraph alone; every path it reports is the whole subgraph or empty; the whole subgraph is always among them; the empty path is among them whenever the search branches |
| SetPath.Rounds | src/bin/longest_road.rs:256-283 | each round of the `while` loop reports only whole or empty paths, pushes the empty accumulator, and reports the whole subgraph when `pos` has an unexcluded neighbour |
| SetPath.Branches | src/bin/longest_road.rs:257-280 | the `for` loop reports only whole or empty paths, and reports the whole subgraph as soon as one neighbour is not excluded |
| SetPath.StartsFrom | src/bin/longest_road.rs:288-297 | following from every listed start reports only whole or empty paths; the whole subgraph whenever there is a start; the empty path exactly when some start does not stop at once |
| SetPath.BranchingStart | src/bin/longest_road.rs:288-297 | some start in the enumeration does not stop at once exactly when some cell has a neighbour in the subgraph |
| SetPath.GetAdjacentPaths | src/bin/longest_road.rs:288-297 | every candidate is the whole subgraph or empty; there are none exactly for an empty subgraph; the whole subgraph is a candidate otherwise; the empty path is a candidate exactly when some cell has a neighbour |
| SetPath.GetLongestPath | src/bin/longest_road.rs:299-310 | the set version's `get_longest_path` is always `None` |
| SetPath.GetLongestPathSeeded | src/bin/longest_road.rs:299-310 | with the loop seeded, the answer would be `None` for an empty subgraph and otherwise the whole road subgraph |
| VecPath.CollectRoads | src/main.rs:142-150 | the loop pushes exactly the visited cells that hold this player's road, without repeats when the visited cells have none |
| VecPath.RoadsForPlayer | src/main.rs:142-150 | the list has no repeats and holds exactly the cells with this player's road |
| VecPath.RoadsAgree | src/main.rs:142-150 | both programs extract the same road cells, and the list is as long as the set |
| VecPath.GetAdjacent | src/main.rs:202-210 | the result keeps exactly the entries adjacent to `pos`; there is no exclusion list; no repeats are introduced |
| VecPath.GetAdjacentAppend | src/main.rs:202-210 | the filter keeps order: the neighbours in `a + b` are those in `a` followed by those in `b` |
| VecPath.GetAdjacentAgrees | src/main.rs:202-210 | the list version finds the same neighbours as the set version with nothing excluded |
| VecPath.NumPathsFrom | src/main.rs:212-214 | the count is 0 exactly when no entry is adjacent to `pos`; for a list without repeats it equals the set version's count with nothing excluded, so it is at most 4 |
| VecPath.HasAdjacent | src/main.rs:271-273 | true exactly when some entry is adjacent to `pos` |
| VecPath.RemainingShrinks | src/main.rs:227-228 | pushing `pos`, which was not excluded, strictly shrinks what is left to explore |
| VecPath.FollowPath | src/main.rs:216-245 | `Partial` exactly in the stopping case, and then with the empty path at `pos`; otherwise `Complete` with one path per entry, each of them empty |
| VecPath.WhileLoop | src/main.rs:229-242 | each remaining iteration pushes one path, equal to the accumulator, which no iteration changes |
| VecPath.ForLoop | src/main.rs:230-239 | the accumulator is unchanged; the exclusion list only grows, and only by the neighbours iterated over |
| VecPath.GetAdjacentPaths | src/main.rs:247-256 | with release-build arithmetic: `Ok` exactly when the list is non-empty and its first cell has a neighbour in it, and then one empty path per entry; otherwise it panics, with "Path calculation does not complete" for a non-empty list |
| VecPath.GetLongestPath | src/main.rs:258-269 | with release-build arithmetic: panics exactly when `get_adjacent_paths` does, and otherwise returns `None` |
| SimplePaths.Prepend | src/bin/longest_road.rs:262-268 | putting an unvisited neighbour in front of a simple path keeps it simple |
| SimplePaths.BestFrom | src/bin/longest_road.rs:241-286 | the corrected branch search returns a simple path that starts at `pos` and avoids the visited cells |
| SimplePaths.BestAmong | src/bin/longest_road.rs:258-280 | over a set of start cells, the result exists exactly when there is a start; it is a simple path from one of them, and no start's best path is longer |
| SimplePaths.BestFromIsLongest | src/bin/longest_road.rs:241-286 | no simple path that starts at `pos` and avoids the visited cells is longer than the corrected search's answer |
| SimplePaths.LongestSimplePath | src/bin/longest_road.rs:288-310 | the corrected `get_longest_path`: `None` exactly for an empty subgraph, and otherwise a simple path through it |
| SimplePaths.LongestSimplePathIsLongest | src/bin/longest_road.rs:288-310 | every simple path through the subgraph is at most as long as the corrected answer |
| SimplePaths.SimplePathWithin | src/bin/longest_road.rs:299-310 | a simple path never has more cells than the subgraph |
| SimplePaths.LongestRoad | src/bin/longest_road.rs:299-310 | the longest-road length: 0 exactly for no road; at most the number of road cells; not less than any simple path; attained by some simple path |
| SimplePaths.SingleCell | src/bin/longest_road.rs:299-310 | a single road cell is a road of length 1 |
| SimplePaths.StraightLine | src/bin/longest_road.rs:299-310 | a straight line of `n` cells is a road of length `n` |
| SimplePaths.TShape | src/bin/longest_road.rs:299-310 | for a T-junction of four cells, the longest road has 3 cells |
| SimplePaths.SeededSolverOvercounts | src/bin/longest_road.rs:244-250 | even seeded, the set solver reports 4 cells for the T-junction, whose longest road has 3 |
| SimplePaths.SeededNeverUndercounts | src/bin/longest_road.rs:299-310 | the seeded set answer is never shorter than the true longest road |
| Scoring.Tournament | src/bin/longest_road.rs:358-366 | the running best never decreases and bounds every score seen; the winner changes only when the best strictly grows |
| Scoring.TournamentPicksFirst | src/bin/longest_road.rs:358-366 | a winner that replaced the starting one is the first entry reaching the final best (a strictly longer road replaces; ties keep the earlier player) |
| Scoring.Winner | src/bin/longest_road.rs:356-366 | starting from 0 and no winner: there is no winner exactly when the best is 0, that is, exactly when no player scores above 0; otherwise the winner is the first player with the highest score |
| Scoring.SetEntries | src/bin/longest_road.rs:358-361 | each listed player is paired, in order, with the length of their `get_longest_path` answer |
| Scoring.SetMain | src/bin/longest_road.rs:355-366 | with release-build arithmetic, the set version never names a winner: the best stays 0 and the winner `None`, whatever the grid |
| Scoring.ScoreAll | src/main.rs:317-325 | the loop over precomputed answers stops at the first panic and reports that panic's message; otherwise it pairs every player with their answer |
| Scoring.VecAnswer | src/main.rs:318-319 | with release-build arithmetic, one player's `get_longest_path` in the list version panics exactly when their road list is empty or its first cell has no neighbour, and otherwise gives no path |
| Scoring.VecMain | src/main.rs:314-325 | with release-build arithmetic, the list version panics exactly when some listed player's road list is empty or has a first cell without a neighbour; otherwise it names no winner |
| Scoring.VecOutcome | src/main.rs:314-325 | with release-build arithmetic, the loop completes exactly when every listed player's first road cell has a neighbour, and then every score is 0 |
| Scoring.AllAnswered | src/main.rs:317-319 | with release-build arithmetic, every answer is `Ok` exactly when every listed player's first road cell has a neighbour |
| Scoring.BaseOnlyPlayerPanics | src/main.rs:247-256 | a player with a base but no road cell makes the list version panic |
| Scoring.IntendedEntries | src/bin/longest_road.rs:358-361 | with the corrected solver, each listed player is paired with their longest-road length |
| Scoring.IntendedMain | src/bin/longest_road.rs:355-366 | the intended scoring: no winner exactly when the grid has no road cell; the winner is a listed player and owns a simple road of `best` cells; no listed player owns a longer one |
| Scoring.IntendedNoWinner | src/bin/longest_road.rs:355-366 | the intended scoring names no winner exactly when the grid has no road cell |
| Scoring.IntendedWinnerRoad | src/bin/longest_road.rs:362-364 | the intended winner is a listed player and owns a simple road of exactly `best` cells |
| Scoring.IntendedNoLonger | src/bin/longest_road.rs:358-366 | no listed player owns a simple road longer than `best` |
| Scenarios.TwoRowsCells | src/bin/longest_road.rs:177-184 | pushing the rows `aA` and `a.` onto an empty grid gives road cells of `a` at (0, 0) and (0, 1), `a`'s base at (1, 0) and an open cell at (1, 1) |
| Scenarios.ColumnRoad | src/bin/longest_road.rs:299-310 | two road cells in one column form a road of length 2 |
| Scenarios.TwoRowsIntended | src/bin/longest_road.rs:355-366 | on the rows `aA` and `a.`, the intended scoring names player `a` with a road of 2 |
| Scenarios.TwoRowsSet | src/bin/longest_road.rs:355-366 | on the same rows, with release-build arithmetic, the set version names no winner |
| Scenarios.TwoRowsVec | src/main.rs:314-325 | on the same rows, with release-build arithmetic, the list version does not panic (`a`'s first road cell has a neighbour) and names no winner |
| Scenarios.ExampleDebugPanics | src/main.rs:202-206 | on the same rows, with debug-build arithmetic, every road cell of `a` panics when `get_adjacent` compares it with itself, in both versions and whichever cell comes first |

## Left out

- Reading the grid from standard input (`main`, the `parse_input!` macro) and printing the winner are I/O. The model starts from a grid built with `PushStr` and ends with the `Standing` (best length and winner).
- `Grid::new`, `Path::new` and `Path::new_with_data` are constructors. They are the empty map or set, or the given data.
- `impl AddAssign for Path` is never called by the solver.
- The visiting order of `HashMap` and `HashSet` is unspecified in Rust. `Enumerate` chooses one order per set value, so the model does not express two equal sets being visited in different orders. Every property proved is independent of the visiting order.
- `Board.Adjacent`: `usize` coordinates are modelled as unbounded naturals, so the `s - 1` underflow is not part of `Adjacent`. It is modelled separately by `Board.AdjacentChecked` (see Findings).
- Debug-build arithmetic: every statement about panicking or not panicking (`VecPath.GetAdjacentPaths`, `VecPath.GetLongestPath`, `Scoring.SetMain`, `Scoring.VecAnswer`, `Scoring.VecMain`, `Scoring.VecOutcome`, `Scoring.AllAnswered`, `Scenarios.TwoRowsSet`, `Scenarios.TwoRowsVec`) assumes release-build `usize` arithmetic, where `0 - 1` wraps. In a debug build, `has_adjacent(pos)` compares `pos` with itself (src/bin/longest_road.rs:229-230, src/main.rs:204-205). That comparison panics for every cell in row 0 or column 0 (`Board.SelfComparisonOnEdge`), so the set version panics whenever a listed player's road touches row 0 or column 0, since it follows from every cell. The list version follows only from `data[0]` and the cells its search reaches, so it panics when one of those lies in row 0 or column 0. Both versions panic on the example `aA` / `a.` (`Scenarios.ExampleDebugPanics`). Only the checked form `Board.AdjacentChecked` models the debug build.
- `Board.Players`: the contract states which players are listed and bounds the list by the number of cells. It does not state the exact multiplicity (one entry per occupied cell), because repeated entries score the same and cannot change the winner.
- `Board.Height` and `Board.Width`: the `key + 1` overflow at `usize::MAX` is not modelled, because no grid read from input reaches that index.
- `VecPath.GetAdjacentPaths`: the panic message for an empty list is Rust's index-out-of-bounds message. The model records only "index out of bounds" and states the message only for the non-empty case.
- The repeated `while index < self.len()` rounds of `follow_path` recompute the same answers. Running time is not modelled, only the answers.
- `lib/main.rb` and `python/main.py` are unrelated to the solver (a Pac-Man bot stub and a threading demo); not modelled.

## Findings

| source | as written | input that shows it | evidently intended | confidence | as-written member | corrected member |
|---|---|---|---|---|---|---|
| src/bin/longest_road.rs:299-310 (also src/main.rs:258-269) | `longest` starts as `None` and is replaced only while it is `Some`, so `get_longest_path` always returns `None` and no winner is ever printed | any grid, e.g. the row `aa` | start from the first candidate (or replace when `longest` is `None`) and return the first longest candidate | high; not executed | Reduce.GetLongest | Reduce.LongestSeeded |
| src/bin/longest_road.rs:244-250 | the stopping case of `follow_path` returns `Complete(vec![self.clone()])`, the whole road subgraph, so even with the seeding fixed, a player's score is their number of road cells | the T-junction `(0,0) (1,0) (2,0) (1,1)`: 4 is reported, the longest road has 3 cells | return the path walked so far, and score the longest simple path | high; not executed | SimplePaths.SeededSolverOvercounts | SimplePaths.LongestSimplePath |
| src/bin/longest_road.rs:21-22 (also src/main.rs:20-21) | `s2 - 1` and `s1 - 1` are evaluated on `usize` whenever the other coordinate matches, which panics in a debug build for a cell in row 0 or column 0. In src/bin/longest_road.rs, `get_adjacent_paths` follows from every cell (lines 291-292) and `get_adjacent` compares each with itself (line 230), so any road touching row 0 or column 0 panics (`Board.SelfComparisonOnEdge`). In src/main.rs only `data[0]` and the cells its search follows are compared with themselves, so the list version panics when one of those lies in row 0 or column 0 | `Pos(0, 0).adjacent(Pos(0, 0))`, reached by `get_adjacent` when `pos` is one of the path's own cells | compare with `s2 == o2 + 1` (no subtraction), which is Manhattan distance 1 | medium (release builds wrap instead of panicking); not executed | Board.AdjacentCheckedUnderflow | Board.Adjacent |
| src/main.rs:247-256 | `get_adjacent_paths` indexes `self.data[0]` and panics when the first cell has no neighbour, and `Grid::players` also lists players who own only bases | a grid holding only `A` (a base and no road) | skip players without a road, and search from every cell | high; not executed | Scoring.BaseOnlyPlayerPanics | Scoring.IntendedMain |
