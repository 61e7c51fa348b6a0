# Sudoku engine model

A Dafny model of the engine behind a small Sudoku generator and player. The engine has two parts. `SudokuBoard` (engine.py) holds 81 squares in row-major order, the clue list, a board-wide validity flag and the stored solution. `Square` (square.py) is one cell: a value guarded by a validating setter, and a candidate set.

The model has four modules:

- `Exceptions` (exceptions.dfy): the two Python exceptions the model keeps, `IndexError` and `ValueError`, and the `Result`/`Outcome` wrappers that carry them.
- `Topology` (topology.dfy): the house table and the geometry queries that read no board state:
  - `find_row`, `find_col`, `find_house`;
  - `find_relevant_region`, the union of a cell's row, column and house.

  Each query is proved against a reference geometry (row `pos / 9`, column `pos % 9`, box from the row and column bands). The relevant region is proved to hold exactly the 21 cells that share a unit with the position.
- `Cell` (cell.dfy): the `Square` class:
  - its constructor;
  - the `value` setter, which raises `ValueError` outside 0..9;
  - `__eq__`, `__ne__` and `__int__`;
  - `StoredAfter`, a pure fold of the setter over a run of assignments, used to prove that the value range is preserved.
- `Board` (board.dfy): the `SudokuBoard` class. The 81 `Square` objects are flattened into two parallel arrays: `values[i]` is `array[i].value` and `candidates[i]` is `array[i].candidates`.
  - Read-only queries are functions: `num_is_in_*`, `find_negaters`, `find_candidates`, `val_is_in_relevant_region`, `region_is_valid`.
  - Operations that update squares or fields are methods, with the loops of the source and their invariants: the candidate updates, the validity updates, the generator, the carver and the setters.
  - `SetValue` goes through the same check as the `Square` setter. `RemoveValue`, `RemoveClues` and the generator's retry loop write square values directly; they write only 0 or a digit 1..9, so the setter's check would always pass.

Modelling choices:

- Python iterates over the relevant region, which is a set, in an unspecified order. The methods model this as drawing any remaining member (`:|`) until the set is exhausted.
- The generator's `candidates.pop(random.randint(...))` becomes a draw of any remaining candidate.
- `random.sample(range(81), holes)` becomes a caller-supplied sequence of distinct positions in 0..80.
- `fill_puzzle` stores the live values array itself as the solution (`solution == values`), not a copy, as engine.py:243 does. The model follows the code, so later edits to the board are visible through `solution`.
- `recursively_fill`'s retry loop (engine.py:255-261) is the method `TryCandidates`, which `RecursivelyFill` calls after computing the candidate pool. The order of draws, the blanking of the cell when the pool runs out and the return values are those of the source.
- Integers are unbounded in both Python and Dafny. For the divisor 9, Python's `%` and Dafny's `%` agree on every integer, so `find_col` needs no adjustment.

## Model

| member | source | states |
|---|---|---|
| Topology.HouseTableShape | engine.py:17-27 | the literal house table has nine houses of nine cells, and entry k of house h is the cell at row 3*(h/3)+k/3, column 3*(h%3)+k%3 |
| Topology.HousesPartition | engine.py:17-27 | the houses partition 0..80: a position lies in house h exactly when it is in range and its box is h, so every in-range position lies in exactly one house and no out-of-range value lies in any |
| Topology.FindRow | engine.py:29-37 | in range, the result is a multiple of 9 with pos minus it in 0..8; outside 0..80 it raises IndexError, and only then |
| Topology.FindCol | engine.py:49-52 | for every integer, with no range check: a column 0..8 congruent to pos modulo 9 |
| Topology.FindHouseFrom | engine.py:82-85 | the key-order scan returns the first house from h on that holds pos (no house between h and it holds pos), or -1 when none of them does |
| Topology.FindHouse | engine.py:77-85 | in range: the unique house key 1..9 whose tuple holds pos, equal to its box number plus one; out of range: -1 |
| Topology.RowCellsSpec | engine.py:153-156 | range(row, row + 9) has 9 positions, exactly the in-range positions of pos's row |
| Topology.ColCellsSpec | engine.py:158-161 | the column scan visits 9 positions, exactly the in-range positions of column pos % 9 |
| Topology.HouseCellsSpec | engine.py:163-166 | the house scan visits 9 positions, exactly the in-range positions of pos's box |
| Topology.RegionListSpec | engine.py:148-168 | the positions the region loops add are exactly those sharing a row, column or house with pos |
| Topology.FindRelevantRegion | engine.py:148-168 | every member of the region lies in 0..80 |
| Topology.RegionMembers | engine.py:148-168 | the region is exactly the set of positions sharing a row, column or house with pos, in both directions |
| Topology.RegionSize | engine.py:148-168 | the region contains pos, lies in 0..80 and has exactly 21 members |
| Topology.DistinctCard | engine.py:148-168 | a list without repeats has as many distinct members as entries; this is the counting step of the 21-cell size |
| Cell.Square.constructor | square.py:16-19 | a new square stores the given value, 0 by default, unchecked, with an empty candidate set |
| Cell.Square.SetValue | square.py:25-31 | values 0..9 are stored exactly as given; others raise ValueError and leave the value unchanged; int(square) afterwards is `StoredAfter` of its old value; candidates are never touched |
| Cell.RangePreserved | square.py:16-31 | starting from a value in 0..9, the stored value stays in 0..9 across any run of setter calls |
| Cell.LastAcceptedWins | square.py:29-31 | after a run of setter calls the last accepted value is stored; a rejected call leaves the previous value |
| Cell.Square.Eq | square.py:33-34 | == holds exactly when the other integer equals int(square), 0 included |
| Cell.Square.Ne | square.py:36-37 | != is the exact complement of == |
| Cell.Square.ToInt | square.py:39-40 | int(square) is the stored value, so it lies in 0..9 whenever the value does |
| Board.SudokuBoard.constructor | engine.py:5-15 | 81 blank squares with empty candidate sets, no clues, valid flag set, empty solution |
| Board.SudokuBoard.HoldsAny | engine.py:44-47 | a scan over positions reports a raw match exactly when some scanned square equals the value, 0 included |
| Board.SudokuBoard.NumIsInRow | engine.py:39-47 | true exactly when some square of pos's row holds num |
| Board.SudokuBoard.NumIsInCol | engine.py:54-63 | true exactly when some square of column pos % 9 holds num; pos is not range-checked |
| Board.SudokuBoard.NumIsInHouse | engine.py:65-75 | true exactly when some square of pos's house holds num |
| Board.SudokuBoard.NonzeroValues | engine.py:125-127 | the collected values are digits 1..9, and v is collected exactly when v is nonzero and some scanned square holds it |
| Board.SudokuBoard.FindNegaters | engine.py:120-141 | every negater is a digit 1..9 |
| Board.SudokuBoard.NegatersSpec | engine.py:120-141 | v is a negater exactly when v is nonzero and num_is_in_row, num_is_in_col or num_is_in_house holds for it |
| Board.SudokuBoard.FindCandidates | engine.py:143-145 | the candidates are a subset of 1..9 |
| Board.SudokuBoard.CandidatesSpec | engine.py:143-145 | v is a candidate exactly when v is 1..9 and no square of pos's row, column or house holds it |
| Board.SudokuBoard.CandidatesAreFits | engine.py:120-145 | v is a candidate exactly when placing v at pos clashes with no square sharing a unit with pos |
| Board.SudokuBoard.CandidatesVsRegion | engine.py:189-194 | find_candidates and val_is_in_relevant_region agree: v is a candidate exactly when v is 1..9 and not in pos's region |
| Board.SudokuBoard.BlankBoardCandidates | engine.py:143-145 | on an all-blank board every position has all nine digits as candidates |
| Board.SudokuBoard.ValIsInRelevantRegion | engine.py:189-194 | true exactly when some square of pos's region, pos included, holds val |
| Board.SudokuBoard.RegionIsValid | engine.py:231-239 | true exactly when no other square of pos's region holds the same raw value as pos, so two blanks clash |
| Board.SudokuBoard.RegionsValidSpec | engine.py:231-239 | at every position, region_is_valid holds exactly when no other square sharing a row, column or house with it holds its raw value |
| Board.SudokuBoard.FilledPuzzleIsValid | engine.py:263-268 | region_is_valid holds at all 81 positions exactly when no two distinct squares sharing a row, column or house hold the same raw value |
| Board.SudokuBoard.FilledBoardIsValid | engine.py:263-268 | a complete grid of digits with no repeat in any row, column or house passes region_is_valid at all 81 positions |
| Board.SudokuBoard.UpdateCandidatesNew | engine.py:171-181 | val leaves the candidate set of every square in pos's region; other members and squares outside the region keep their sets; values do not change |
| Board.SudokuBoard.UpdateCandidatesRemoval | engine.py:183-187 | val is added to a region square's set exactly when that square's own region does not hold val; nothing is removed and squares outside the region are untouched |
| Board.SudokuBoard.GenerateCandidates | engine.py:197-205 | each square's set becomes its old set united with find_candidates of that square |
| Board.SudokuBoard.ClearCandidates | engine.py:207-209 | every candidate set becomes empty; values do not change |
| Board.SudokuBoard.UpdateValidityInsertion | engine.py:214-220 | returns false, and clears the flag, exactly when some square of the region, pos included, holds val; otherwise returns true and the flag is unchanged |
| Board.SudokuBoard.UpdateValidityRemoval | engine.py:222-228 | the flag becomes old flag or region_is_valid(pos); it is never cleared |
| Board.ExtendFill | engine.py:249-254 | placing a fitting value at the first blank of a conflict-free prefix yields a conflict-free prefix one longer |
| Board.SudokuBoard.CandidatesExtend | engine.py:249-254 | every candidate of the first blank extends a conflict-free prefix by one cell |
| Board.SudokuBoard.RecursivelyFill | engine.py:245-261 | from a conflict-free prefix of i cells followed by blanks, a nonzero result is the value at i; in that case the grid is complete, has no repeats in any row, column or house, passes region_is_valid everywhere and keeps cells 0..i-1; a 0 result restores every value; position i, when in range, and each later position reached have their candidates cleared; termination is by 81 - i |
| Board.SudokuBoard.TryCandidates | engine.py:253-261 | the retry loop tries each candidate at most once (termination by the shrinking pool); on success the completed grid keeps the prefix; when the pool runs out, the cell is blanked again and the grid is as it was |
| Board.SudokuBoard.PlacedKept | engine.py:255 | a recursive call keeps the cell it was given: all of it on failure, the prefix on success |
| Board.SudokuBoard.FillPuzzle | engine.py:241-243 | on a blank board, the board ends up a complete conflict-free grid or blank again, and the solution is the live values array itself; each candidate set is either kept or cleared, square 0's is cleared, and on a complete grid every set is cleared |
| Board.SudokuBoard.SetValue | engine.py:289-291 | the square's setter: ValueError outside 0..9 with the value kept, otherwise the value is stored; no other square changes |
| Board.SudokuBoard.RemoveValue | engine.py:285-287 | the square at pos becomes blank and no other square changes |
| Board.SudokuBoard.RemoveClues | engine.py:270-275 | exactly the sampled positions become blank; other values and all candidate sets are unchanged |
| Board.NonzeroFrom | engine.py:281-283 | the recorded positions are ascending, hold nonzero values, and include every nonzero position |
| Board.SudokuBoard.SetClueArray | engine.py:277-283 | the clue list is extended, never cleared, by the ascending positions of all nonzero squares |
| Board.CarvedClues | engine.py:270-283 | carving a grid with no blanks and then recording clues gives exactly the positions outside the sample, 81 - holes of them |
| Board.Without | engine.py:235 | set.remove(pos): the result holds every position of the input except pos |

## Left out

- window.py: the pygame window, its drawing, its event loop and its pixel layout are user interface, not engine logic.
- The `random` module: draws are nondeterministic choices (`:|`), and the sample of holes is a parameter. `random.sample` raising `ValueError` for more than 81 holes becomes the requirement that the sample be at most 81 distinct positions.
- `get_random_position`, `fill_random_cell` and `generate_clues` (engine.py:87-118): these legacy rejection-sampling loops are unused and can loop forever.
- Board.SudokuBoard.FillPuzzle: does not state that the fill always succeeds from a blank board. That completeness needs an argument that an exhaustive search finds some valid grid; only soundness and termination are proved.
- The `print` output of `test_filled_puzzle_is_valid`: only the property it checks is modelled, as `FilledPuzzleIsValid`.
- The `TypeError` branch of the setter (square.py:27-28): every Dafny argument is already an integer.
- The `KeyError` that `num_is_in_house` would raise through `self.houses[-1]` (engine.py:71-72) when `find_house` returns -1 (engine.py:85): positions passed to the board queries are required to lie in 0..80, where `find_house` never returns -1.
- Python's cross-type `__eq__` dispatch: equality is modelled as comparison of integers.
- `__str__` of both classes: text output.
- Board.SudokuBoard.SetValue: positions must be in 0..80. Python's wrap-around for negative indices is not modelled, and neither is its `IndexError` above 80. The same holds for RemoveValue and for the board queries that take a position; only find_row, find_col, find_house and num_is_in_col are modelled on every integer.
- Square objects inside the board: a square's value and candidates are array slots rather than separate objects, so aliasing between squares is not modelled (the engine never shares a square between positions).
