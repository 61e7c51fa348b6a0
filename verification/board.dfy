/**
 * The Sudoku engine: a board of 81 squares with per-square candidate sets,
 * the clue list, the board-wide validity flag and the solution reference.
 * Each Square of the engine's array is flattened into two parallel arrays:
 * values[i] is array[i].value and candidates[i] is array[i].candidates.
 */
module Board {
  import opened Exceptions
  import opened Topology
  import Cell

  /** The values a filled square may hold, as written in find_candidates. */
  const Digits: set<int> := {1, 2, 3, 4, 5, 6, 7, 8, 9}

  lemma DigitsSpec()
    ensures forall v :: v in Digits <==> 1 <= v <= 9
  {
  }

  /** The positions of the nonzero entries of grid from position i on, in ascending order. */
  function NonzeroFrom(grid: seq<int>, i: nat): (ps: seq<int>)
    requires i <= |grid|
    ensures forall k :: 0 <= k < |ps| ==> i <= ps[k] < |grid| && grid[ps[k]] != 0
    ensures forall n, m :: 0 <= n < m < |ps| ==> ps[n] < ps[m]
    ensures forall q :: i <= q < |grid| && grid[q] != 0 ==> q in ps
    decreases |grid| - i
  {
    if i == |grid| then []
    else if grid[i] != 0 then [i] + NonzeroFrom(grid, i + 1)
    else NonzeroFrom(grid, i + 1)
  }

  /**
   * Carving then recording the clues: when remove_clues blanks the distinct
   * sampled positions of a grid with no blanks, set_clue_array records
   * exactly the positions outside the sample, 81 - holes of them.
   */
  lemma CarvedClues(full: seq<int>, carved: seq<int>, sample: seq<int>)
    requires |full| == 81 && |carved| == 81
    requires forall q :: 0 <= q < 81 ==> full[q] != 0
    requires forall k :: 0 <= k < |sample| ==> 0 <= sample[k] < 81
    requires forall n, m :: 0 <= n < m < |sample| ==> sample[n] != sample[m]
    requires forall q :: 0 <= q < 81 ==> carved[q] == if q in sample then 0 else full[q]
    ensures forall q :: q in NonzeroFrom(carved, 0) <==> 0 <= q < 81 && q !in sample
    ensures |NonzeroFrom(carved, 0)| == 81 - |sample|
  {
    var ps := NonzeroFrom(carved, 0);
    var all := seq(81, q => q);
    DistinctCard(ps);
    DistinctCard(sample);
    DistinctCard(all);
    forall q | 0 <= q < 81 ensures q in all {
      assert all[q] == q;
    }
    var clueSet := set x | x in ps;
    var holeSet := set x | x in sample;
    assert clueSet * holeSet == {};
    assert clueSet + holeSet == set x | x in all;
  }

  /** The positions of cells, leaving out p (set.remove in region_is_valid). */
  function Without(cells: seq<int>, p: int): (r: seq<int>)
    ensures forall q :: q in r <==> q in cells && q != p
  {
    if cells == [] then []
    else if cells[0] == p then Without(cells[1..], p)
    else [cells[0]] + Without(cells[1..], p)
  }

  /** Some member of a nonempty set: the witness for drawing an arbitrary element of it. */
  lemma SomeMember(s: set<int>) returns (x: int)
    requires s != {}
    ensures x in s
  {
    if forall y :: y !in s {
      assert false;
    }
    x :| x in s;
  }

  /**
   * Value v may go into position pos of grid: v is 1..9 and no cell sharing
   * a row, column or house with pos holds it.
   */
  ghost predicate Fits(grid: seq<int>, pos: int, v: int)
    requires |grid| == 81
  {
    1 <= v <= 9 && forall q {:trigger SharesUnit(pos, q)} :: 0 <= q < 81 && SharesUnit(pos, q) ==> grid[q] != v
  }

  /**
   * The state recursively_fill(n) starts from: cells before n hold 1..9 with
   * no value repeated in a row, column or house, and cells from n on are blank.
   */
  ghost predicate FilledPrefix(grid: seq<int>, n: int)
  {
    |grid| == 81 && 0 <= n <= 81 &&
    (forall p :: 0 <= p < n ==> 1 <= grid[p] <= 9) &&
    (forall p :: n <= p < 81 ==> grid[p] == 0) &&
    (forall p, q {:trigger SharesUnit(p, q)} :: 0 <= p < n && 0 <= q < n && p != q && SharesUnit(p, q) ==> grid[p] != grid[q])
  }

  /** Placing a fitting value at the first blank extends a filled prefix by one cell. */
  lemma ExtendFill(grid: seq<int>, i: int, v: int)
    requires FilledPrefix(grid, i) && i < 81 && Fits(grid, i, v)
    ensures FilledPrefix(grid[i := v], i + 1)
  {
    var g := grid[i := v];
    forall p, q | 0 <= p < i + 1 && 0 <= q < i + 1 && p != q && SharesUnit(p, q)
      ensures g[p] != g[q]
    {
      if p == i {
        assert g[q] == grid[q];
      } else if q == i {
        assert SharesUnit(q, p);
        assert g[p] == grid[p];
      }
    }
  }

  class SudokuBoard {
    /** The value of each square, 0 for blank; the array itself is never replaced. */
    const values: array<int>
    /** The candidate set of each square; the array itself is never replaced. */
    const candidates: array<set<int>>
    /** Positions fixed as clues, in the order they were recorded. */
    var clues: seq<int>
    /** The board-wide validity flag. */
    var isValid: bool
    /** What fill_puzzle stored: the live values array itself, not a copy. */
    var solution: array<int>

    /** Shape of the board: 81 squares, each holding a value the setter accepts. */
    ghost predicate Valid()
      reads values
    {
      values.Length == 81 && candidates.Length == 81 &&
      forall i :: 0 <= i < 81 ==> Cell.Accepts(values[i])
    }

    /** A new board: 81 blank squares without candidates, no clues, valid, empty solution. */
    constructor ()
      ensures Valid() && fresh(values) && fresh(candidates) && fresh(solution)
      ensures forall i :: 0 <= i < 81 ==> values[i] == 0 && candidates[i] == {}
      ensures clues == [] && isValid && solution.Length == 0
    {
      values := new int[81](_ => 0);
      candidates := new set<int>[81](_ => {});
      clues := [];
      isValid := true;
      solution := new int[0];
    }

    /** Some position of cells holds v; values are compared raw, so v may be 0. */
    function HoldsAny(cells: seq<int>, v: int): (r: bool)
      reads values
      requires values.Length == 81
      requires forall q :: q in cells ==> 0 <= q < 81
      ensures r <==> exists q :: q in cells && values[q] == v
    {
      if cells == [] then false
      else
        assert cells[0] in cells;
        assert forall q :: q in cells[1..] ==> q in cells;
        values[cells[0]] == v || HoldsAny(cells[1..], v)
    }

    /** The nonzero values held at the positions of cells. */
    function NonzeroValues(cells: seq<int>): (vs: set<int>)
      reads values
      requires Valid()
      requires forall q :: q in cells ==> 0 <= q < 81
      ensures vs <= Digits
      ensures forall v :: v in vs <==> v != 0 && HoldsAny(cells, v)
    {
      DigitsSpec();
      if cells == [] then {}
      else
        assert cells[0] in cells;
        assert forall q :: q in cells[1..] ==> q in cells;
        (if values[cells[0]] != 0 then {values[cells[0]]} else {}) + NonzeroValues(cells[1..])
    }

    /** num_is_in_row: some square of pos's row holds num. */
    function NumIsInRow(pos: int, num: int): (r: bool)
      reads values
      requires Valid() && InRange(pos)
      ensures r <==> exists q :: InRange(q) && RowOf(q) == RowOf(pos) && values[q] == num
    {
      RowCellsSpec(pos);
      HoldsAny(RowCells(pos), num)
    }

    /** num_is_in_col: some square of column pos % 9 holds num; pos itself is not range-checked. */
    function NumIsInCol(pos: int, num: int): (r: bool)
      reads values
      requires Valid()
      ensures r <==> exists q :: InRange(q) && ColOf(q) == FindCol(pos) && values[q] == num
    {
      ColCellsSpec(pos);
      HoldsAny(ColCells(pos), num)
    }

    /** num_is_in_house: some square of pos's house holds num. */
    function NumIsInHouse(pos: int, num: int): (r: bool)
      reads values
      requires Valid() && InRange(pos)
      ensures r <==> exists q :: InRange(q) && BoxOf(q) == BoxOf(pos) && values[q] == num
    {
      HouseCellsSpec(pos);
      HoldsAny(HouseCells(pos), num)
    }

    /** find_negaters: the nonzero values found in pos's row, column and house. */
    function FindNegaters(pos: int): (negaters: set<int>)
      reads values
      requires Valid() && InRange(pos)
      ensures negaters <= Digits
    {
      RowCellsSpec(pos);
      ColCellsSpec(pos);
      HouseCellsSpec(pos);
      DigitsSpec();
      NonzeroValues(RowCells(pos)) + NonzeroValues(ColCells(pos)) + NonzeroValues(HouseCells(pos))
    }

    /** The negaters of pos are the nonzero values held somewhere in pos's row, column or house. */
    lemma NegatersSpec(pos: int, v: int)
      requires Valid() && InRange(pos)
      ensures v in FindNegaters(pos) <==>
        v != 0 && (NumIsInRow(pos, v) || NumIsInCol(pos, v) || NumIsInHouse(pos, v))
    {
      RowCellsSpec(pos);
      ColCellsSpec(pos);
      HouseCellsSpec(pos);
    }

    /** find_candidates: the digits 1..9 other than the negaters of pos. */
    function FindCandidates(pos: int): (cands: set<int>)
      reads values
      requires Valid() && InRange(pos)
      ensures cands <= Digits
    {
      Digits - FindNegaters(pos)
    }

    /** v is a candidate at pos exactly when v is 1..9 and no square of pos's row, column or house holds it. */
    lemma CandidatesSpec(pos: int, v: int)
      requires Valid() && InRange(pos)
      ensures v in FindCandidates(pos) <==>
        1 <= v <= 9 && !NumIsInRow(pos, v) && !NumIsInCol(pos, v) && !NumIsInHouse(pos, v)
    {
      DigitsSpec();
      NegatersSpec(pos, v);
    }

    /** val_is_in_relevant_region: some square of pos's relevant region holds val (raw comparison). */
    function ValIsInRelevantRegion(pos: int, val: int): (r: bool)
      reads values
      requires Valid() && InRange(pos)
      ensures r <==> exists q :: q in FindRelevantRegion(pos) && values[q] == val
    {
      RegionListSpec(pos);
      HoldsAny(RegionList(pos), val)
    }

    /**
     * region_is_valid: no other square of pos's relevant region holds the
     * value at pos. Comparison is raw, so a blank pos with a blank peer is not valid.
     */
    function RegionIsValid(pos: int): (r: bool)
      reads values
      requires Valid() && InRange(pos)
      ensures r <==> forall q :: q in FindRelevantRegion(pos) && q != pos ==> values[q] != values[pos]
    {
      RegionListSpec(pos);
      !HoldsAny(Without(RegionList(pos), pos), values[pos])
    }

    /**
     * The check of test_filled_puzzle_is_valid: region_is_valid holds at all 81
     * positions, which is to say no two squares sharing a row, column or house
     * hold the same raw value.
     */
    function FilledPuzzleIsValid(): (ok: bool)
      reads values
      requires Valid()
      ensures ok <==> forall p, q :: 0 <= p < 81 && 0 <= q < 81 && p != q && SharesUnit(p, q) ==> values[p] != values[q]
    {
      RegionsValidSpec();
      forall p | 0 <= p < 81 :: RegionIsValid(p)
    }

    /** region_is_valid(p) holds exactly when no other square sharing a unit with p holds p's value. */
    lemma RegionsValidSpec()
      requires Valid()
      ensures forall p :: 0 <= p < 81 ==>
        (RegionIsValid(p) <==> forall q :: 0 <= q < 81 && q != p && SharesUnit(p, q) ==> values[q] != values[p])
    {
      forall p | 0 <= p < 81 {
        RegionMembers(p);
      }
    }

    /**
     * Candidates from scratch agree with the placement rule: v is a candidate
     * at pos exactly when v is 1..9 and no square sharing a unit with pos holds it.
     */
    lemma CandidatesAreFits(pos: int)
      requires Valid() && InRange(pos)
      ensures forall v :: v in FindCandidates(pos) <==> Fits(values[..], pos, v)
    {
      forall v ensures v in FindCandidates(pos) <==> Fits(values[..], pos, v) {
        CandidatesSpec(pos, v);
        if v in FindCandidates(pos) {
          forall q | 0 <= q < 81 && SharesUnit(pos, q) ensures values[q] != v {
            if RowOf(q) == RowOf(pos) {
              assert !NumIsInRow(pos, v);
            } else if ColOf(q) == ColOf(pos) {
              assert !NumIsInCol(pos, v);
            } else {
              assert !NumIsInHouse(pos, v);
            }
          }
        } else if 1 <= v <= 9 {
          var q :| InRange(q) && values[q] == v &&
            (RowOf(q) == RowOf(pos) || ColOf(q) == FindCol(pos) || BoxOf(q) == BoxOf(pos));
          assert values[..][q] == v && SharesUnit(pos, q);
        }
      }
    }

    /**
     * The two candidate mechanisms agree: find_candidates holds v exactly when
     * v is 1..9 and val_is_in_relevant_region(pos, v) is false.
     */
    lemma CandidatesVsRegion(pos: int)
      requires Valid() && InRange(pos)
      ensures forall v :: v in FindCandidates(pos) <==> 1 <= v <= 9 && !ValIsInRelevantRegion(pos, v)
    {
      CandidatesAreFits(pos);
      RegionMembers(pos);
    }

    /**
     * Every candidate of the first blank of a filled prefix extends the prefix
     * by one conflict-free cell.
     */
    lemma CandidatesExtend(i: int)
      requires Valid() && FilledPrefix(values[..], i) && i < 81
      ensures forall v :: v in FindCandidates(i) ==> 1 <= v <= 9 && FilledPrefix(values[..][i := v], i + 1)
    {
      CandidatesAreFits(i);
      forall v | v in FindCandidates(i) ensures FilledPrefix(values[..][i := v], i + 1) {
        ExtendFill(values[..], i, v);
      }
    }

    /** On an all-blank board every position has all nine candidates. */
    lemma BlankBoardCandidates(pos: int)
      requires Valid() && InRange(pos)
      requires forall q :: 0 <= q < 81 ==> values[q] == 0
      ensures FindCandidates(pos) == Digits
    {
      DigitsSpec();
      forall v ensures v in FindCandidates(pos) <==> v in Digits {
        CandidatesSpec(pos, v);
      }
    }

    /** A completely filled, conflict-free grid passes test_filled_puzzle_is_valid. */
    lemma FilledBoardIsValid()
      requires Valid() && FilledPrefix(values[..], 81)
      ensures FilledPuzzleIsValid()
    {
      forall p | 0 <= p < 81 ensures RegionIsValid(p) {
        RegionMembers(p);
        forall q | q in FindRelevantRegion(p) && q != p ensures values[q] != values[p] {
          assert values[..][q] != values[..][p];
        }
      }
    }

    /** update_candidates_new: val leaves the candidate set of every square in pos's region. */
    method UpdateCandidatesNew(pos: int, val: int)
      requires Valid() && InRange(pos)
      modifies candidates
      ensures forall q :: 0 <= q < 81 ==>
        candidates[q] == if q in FindRelevantRegion(pos) then old(candidates[q]) - {val} else old(candidates[q])
    {
      var rel := FindRelevantRegion(pos);
      assert forall q :: q in rel ==> 0 <= q < 81;
      var rest := rel;
      while rest != {}
        invariant rest <= rel
        invariant Valid()
        invariant forall q :: 0 <= q < 81 ==>
          candidates[q] == if q in rel - rest then old(candidates[q]) - {val} else old(candidates[q])
        decreases |rest|
      {
        // w witnesses that rest has a member for the draw below
        ghost var w := SomeMember(rest);
        var i :| i in rest;
        ghost var before := candidates[..];
        candidates[i] := candidates[i] - {val};
        assert forall q :: 0 <= q < 81 && q != i ==> candidates[q] == before[q];
        rest := rest - {i};
      }
    }

    /**
     * update_candidates_removal: each square c of pos's region gets val back as
     * a candidate when val appears nowhere in c's own region; nothing is removed.
     */
    method UpdateCandidatesRemoval(pos: int, val: int)
      requires Valid() && InRange(pos)
      modifies candidates
      ensures forall q :: 0 <= q < 81 ==>
        candidates[q] == if q in FindRelevantRegion(pos) && !ValIsInRelevantRegion(q, val)
                         then old(candidates[q]) + {val} else old(candidates[q])
    {
      var rel := FindRelevantRegion(pos);
      assert forall q :: q in rel ==> 0 <= q < 81;
      var rest := rel;
      while rest != {}
        invariant rest <= rel
        invariant Valid()
        invariant forall q :: 0 <= q < 81 ==>
          candidates[q] == if q in rel - rest && !ValIsInRelevantRegion(q, val)
                           then old(candidates[q]) + {val} else old(candidates[q])
        decreases |rest|
      {
        // w witnesses that rest has a member for the draw below
        ghost var w := SomeMember(rest);
        var i :| i in rest;
        if !ValIsInRelevantRegion(i, val) {
          ghost var before := candidates[..];
          candidates[i] := candidates[i] + {val};
          assert forall q :: 0 <= q < 81 && q != i ==> candidates[q] == before[q];
        }
        rest := rest - {i};
      }
    }

    /** generate_candidates: adds find_candidates(i) to each square's existing candidates. */
    method GenerateCandidates()
      requires Valid()
      modifies candidates
      ensures forall q :: 0 <= q < 81 ==> candidates[q] == old(candidates[q]) + FindCandidates(q)
    {
      for i := 0 to 81
        invariant Valid()
        invariant forall q :: 0 <= q < i ==> candidates[q] == old(candidates[q]) + FindCandidates(q)
        invariant forall q :: i <= q < 81 ==> candidates[q] == old(candidates[q])
      {
        ghost var before := candidates[..];
        candidates[i] := candidates[i] + FindCandidates(i);
        assert forall q :: 0 <= q < 81 && q != i ==> candidates[q] == before[q];
      }
    }

    /** clear_candidates: every square's candidate set becomes empty. */
    method ClearCandidates()
      requires Valid()
      modifies candidates
      ensures forall q :: 0 <= q < 81 ==> candidates[q] == {}
    {
      for i := 0 to 81
        invariant forall q :: 0 <= q < i ==> candidates[q] == {}
      {
        candidates[i] := {};
      }
    }

    /**
     * update_validity_insertion: reports a conflict, and clears the flag, exactly
     * when some square of pos's region (pos included) holds val; otherwise the flag stays.
     */
    method UpdateValidityInsertion(pos: int, val: int) returns (noConflict: bool)
      requires Valid() && InRange(pos)
      modifies this`isValid
      ensures noConflict <==> forall q :: q in FindRelevantRegion(pos) ==> values[q] != val
      ensures noConflict <==> !ValIsInRelevantRegion(pos, val)
      ensures isValid == (old(isValid) && noConflict)
    {
      var rel := FindRelevantRegion(pos);
      assert forall q :: q in rel ==> 0 <= q < 81;
      var rest := rel;
      while rest != {}
        invariant rest <= rel
        invariant Valid()
        invariant forall q :: q in rel - rest ==> values[q] != val
        invariant isValid == old(isValid)
        decreases |rest|
      {
        // w witnesses that rest has a member for the draw below
        ghost var w := SomeMember(rest);
        var i :| i in rest;
        if values[i] == val {
          isValid := false;
          return false;
        }
        rest := rest - {i};
      }
      return true;
    }

    /**
     * update_validity_removal: a cleared flag is set again when region_is_valid(pos)
     * holds; the flag is never cleared here.
     */
    method UpdateValidityRemoval(pos: int)
      requires Valid() && InRange(pos)
      modifies this`isValid
      ensures isValid == (old(isValid) || RegionIsValid(pos))
      ensures old(isValid) ==> isValid
    {
      if !isValid {
        if RegionIsValid(pos) {
          isValid := true;
        }
      }
    }

    /**
     * recursively_fill: fills positions i..80 by backtracking over the candidates
     * of each position, drawn in an arbitrary order. Started from a conflict-free
     * prefix followed by blanks, it either completes the grid without conflicts
     * and leaves the prefix alone (nonzero result), or restores every value it
     * placed (result 0). Each position it reaches has its candidate set cleared.
     */
    method RecursivelyFill(i: int) returns (r: int)
      requires Valid() && FilledPrefix(values[..], i)
      modifies values, candidates
      ensures Valid() && 0 <= r <= 9
      ensures r != 0 ==> FilledPrefix(values[..], 81) && values[..i] == old(values[..i])
      ensures r != 0 ==> FilledPuzzleIsValid()
      ensures r == 0 ==> values[..] == old(values[..])
      ensures i < 81 ==> candidates[i] == {}
      ensures i == 81 ==> r != 0
      ensures i < 81 && r != 0 ==> r == values[i]
      ensures forall q :: 0 <= q < 81 ==> candidates[q] == old(candidates[q]) || (i <= q && candidates[q] == {})
      ensures r != 0 ==> forall q :: i <= q < 81 ==> candidates[q] == {}
      decreases 81 - i, 1
    {
      if i == 81 {
        FilledBoardIsValid();
        return values[80];
      }
      candidates[i] := {};
      CandidatesExtend(i);
      var pool := FindCandidates(i);
      if pool == {} {
        return 0;
      }
      r := TryCandidates(i, pool, values[..]);
      if r != 0 {
        FilledBoardIsValid();
      }
    }

    /**
     * The retry loop of recursively_fill(i): places the candidates of pool at i
     * one by one, in an arbitrary order, until the rest of the grid can be
     * filled; when pool runs out, i is blanked again and 0 is returned.
     */
    method TryCandidates(i: int, pool: set<int>, ghost grid: seq<int>) returns (r: int)
      requires Valid() && 0 <= i < 81 && values[..] == grid && grid[i] == 0 && candidates[i] == {}
      requires forall v :: v in pool ==> 1 <= v <= 9 && FilledPrefix(grid[i := v], i + 1)
      modifies values, candidates
      ensures Valid() && 0 <= r <= 9
      ensures r != 0 ==> FilledPrefix(values[..], 81) && values[..i] == grid[..i] && r == values[i]
      ensures r == 0 ==> values[..] == grid
      ensures forall q :: 0 <= q < 81 ==> candidates[q] == old(candidates[q]) || (i < q && candidates[q] == {})
      ensures r != 0 ==> forall q :: i <= q < 81 ==> candidates[q] == {}
      decreases 81 - i, 0
    {
      var rest := pool;
      r := 0;
      while r == 0 && rest != {}
        invariant Valid() && rest <= pool && (values[i] == 0 || values[i] in pool)
        invariant r == 0 ==> values[..] == grid[i := values[i]]
        invariant r != 0 ==> FilledPrefix(values[..], 81) && values[..i] == grid[..i] && values[i] in pool
        invariant candidates[i] == {}
        invariant forall q :: 0 <= q < 81 ==> candidates[q] == old(candidates[q]) || (i < q && candidates[q] == {})
        invariant r != 0 ==> forall q :: i < q < 81 ==> candidates[q] == {}
        decreases |rest|
      {
        // w witnesses that rest has a member for the draw below
        ghost var w := SomeMember(rest);
        var v :| v in rest;
        rest := rest - {v};
        values[i] := v;
        ghost var placed := values[..];
        assert placed == grid[i := v];
        r := RecursivelyFill(i + 1);
        PlacedKept(r, i, placed);
      }
      if r == 0 {
        values[i] := 0;
        assert values[..] == grid;
        return 0;
      }
      r := values[i];
    }

    /** What the recursive call of recursively_fill keeps of the grid it was given. */
    lemma PlacedKept(r: int, i: int, placed: seq<int>)
      requires values.Length == 81 && |placed| == 81 && 0 <= i < 81
      requires r != 0 ==> values[..i + 1] == placed[..i + 1]
      requires r == 0 ==> values[..] == placed
      ensures values[i] == placed[i]
      ensures r != 0 ==> values[..i] == placed[..i]
    {
      if r == 0 {
        assert values[..][i] == placed[i];
      } else {
        assert values[..i + 1][i] == placed[..i + 1][i];
        assert values[..i] == values[..i + 1][..i];
        assert placed[..i] == placed[..i + 1][..i];
      }
    }

    /**
     * fill_puzzle: runs the generator on a blank board and stores the values
     * array itself as the solution, so the solution follows later edits. The
     * board ends up a complete conflict-free grid or, if the search failed, blank.
     */
    method FillPuzzle()
      requires Valid()
      requires forall q :: 0 <= q < 81 ==> values[q] == 0
      modifies this`solution, values, candidates
      ensures Valid() && solution == values
      ensures (FilledPrefix(values[..], 81) && FilledPuzzleIsValid()) ||
              forall q :: 0 <= q < 81 ==> values[q] == 0
      ensures forall q :: 0 <= q < 81 ==> candidates[q] == old(candidates[q]) || candidates[q] == {}
      ensures candidates[0] == {}
      ensures FilledPrefix(values[..], 81) ==> forall q :: 0 <= q < 81 ==> candidates[q] == {}
    {
      assert FilledPrefix(values[..], 0);
      var r := RecursivelyFill(0);
      if r == 0 {
        assert values[..][0] == 0;
      }
      solution := values;
    }

    /** set_value: the square's setter; ValueError outside 0..9. Only that square changes. */
    method SetValue(pos: int, val: int) returns (outcome: Outcome)
      requires Valid() && InRange(pos)
      modifies values
      ensures Valid()
      ensures outcome == if Cell.Accepts(val) then Done else Failed(ValueError)
      ensures values[pos] == Cell.StoredAfter(old(values[pos]), [val])
      ensures forall q :: 0 <= q < 81 && q != pos ==> values[q] == old(values[q])
    {
      if !Cell.Accepts(val) {
        return Failed(ValueError);
      }
      values[pos] := val;
      outcome := Done;
    }

    /** remove_value: blanks the square at pos and changes nothing else. */
    method RemoveValue(pos: int)
      requires Valid() && InRange(pos)
      modifies values
      ensures Valid()
      ensures values[pos] == 0
      ensures forall q :: 0 <= q < 81 && q != pos ==> values[q] == old(values[q])
    {
      values[pos] := 0;
    }

    /**
     * remove_clues: blanks the squares at the sampled positions. The sample is
     * random.sample(range(81), holes): distinct positions, so holes <= 81.
     */
    method RemoveClues(sample: seq<int>)
      requires Valid()
      requires forall k :: 0 <= k < |sample| ==> InRange(sample[k])
      requires forall n, m :: 0 <= n < m < |sample| ==> sample[n] != sample[m]
      modifies values
      ensures Valid()
      ensures forall q :: 0 <= q < 81 ==> values[q] == if q in sample then 0 else old(values[q])
    {
      for k := 0 to |sample|
        invariant Valid()
        invariant forall q :: 0 <= q < 81 ==> values[q] == if q in sample[..k] then 0 else old(values[q])
      {
        values[sample[k]] := 0;
        assert sample[..k + 1] == sample[..k] + [sample[k]];
      }
      assert sample[..|sample|] == sample;
    }

    /** set_clue_array: appends the positions of all nonzero squares, ascending, to the clues. */
    method SetClueArray()
      requires Valid()
      modifies this`clues
      ensures clues == old(clues) + NonzeroFrom(values[..], 0)
    {
      for i := 0 to 81
        invariant clues + NonzeroFrom(values[..], i) == old(clues) + NonzeroFrom(values[..], 0)
      {
        if values[i] != 0 {
          clues := clues + [i];
        }
      }
    }
  }
}
