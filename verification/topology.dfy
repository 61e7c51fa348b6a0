/**
 * Board geometry: 81 positions in row-major order, grouped into nine rows,
 * nine columns and the nine 3x3 houses of the engine's fixed house table.
 * Positions, rows and columns are plain integers, as in the engine.
 */
module Topology {
  import opened Exceptions

  /** The positions the engine indexes: 0..80. */
  predicate InRange(pos: int) {
    0 <= pos <= 80
  }

  // Reference geometry, used to state what the engine's tables and loops compute.

  function RowOf(pos: int): int { pos / 9 }

  function ColOf(pos: int): int { pos % 9 }

  /** The band (0..2) a row or column index 0..8 lies in: i / 3, by cases. */
  function Band(i: int): int { if i < 3 then 0 else if i < 6 then 1 else 2 }

  /** The place (0..2) of a row or column index 0..8 inside its band: i % 3. */
  function Offset(i: int): int { i - 3 * Band(i) }

  /** The 0-based house number: houses are numbered left to right, top to bottom. */
  function BoxOf(pos: int): int { 3 * Band(RowOf(pos)) + Band(ColOf(pos)) }

  function At(row: int, col: int): int { 9 * row + col }

  /** Two positions share a row, a column or a house. */
  predicate SharesUnit(p: int, q: int) {
    RowOf(p) == RowOf(q) || ColOf(p) == ColOf(q) || BoxOf(p) == BoxOf(q)
  }

  lemma AtCoordinates(row: int, col: int)
    requires 0 <= row < 9 && 0 <= col < 9
    ensures InRange(At(row, col))
    ensures RowOf(At(row, col)) == row && ColOf(At(row, col)) == col
  {
  }

  lemma Coordinates(pos: int)
    requires InRange(pos)
    ensures 0 <= RowOf(pos) < 9 && 0 <= ColOf(pos) < 9 && 0 <= BoxOf(pos) < 9
    ensures pos == At(RowOf(pos), ColOf(pos))
  {
  }

  /**
   * The engine's house table: house h (1..9) is Houses[h - 1], nine positions
   * listed row by row.
   */
  const Houses: seq<seq<int>> := [
    [0, 1, 2, 9, 10, 11, 18, 19, 20],
    [3, 4, 5, 12, 13, 14, 21, 22, 23],
    [6, 7, 8, 15, 16, 17, 24, 25, 26],
    [27, 28, 29, 36, 37, 38, 45, 46, 47],
    [30, 31, 32, 39, 40, 41, 48, 49, 50],
    [33, 34, 35, 42, 43, 44, 51, 52, 53],
    [54, 55, 56, 63, 64, 65, 72, 73, 74],
    [57, 58, 59, 66, 67, 68, 75, 76, 77],
    [60, 61, 62, 69, 70, 71, 78, 79, 80]
  ]

  /** The k-th cell (0..8, row by row) of the 0-based house h, by arithmetic. */
  function HouseCell(h: int, k: int): int {
    At(3 * (h / 3) + k / 3, 3 * (h % 3) + k % 3)
  }

  /** Band and Offset are division and remainder by 3 on 0..8. */
  lemma BandIsDiv(i: int)
    requires 0 <= i < 9
    ensures Band(i) == i / 3 && Offset(i) == i % 3
  {
    assert i == 0 || i == 1 || i == 2 || i == 3 || i == 4 || i == 5 || i == 6 || i == 7 || i == 8;
  }

  /** Every entry of the literal table is the cell the arithmetic predicts. */
  lemma HouseTableShape()
    ensures |Houses| == 9
    ensures forall h :: 0 <= h < 9 ==> |Houses[h]| == 9
    ensures forall h, k :: 0 <= h < 9 && 0 <= k < 9 ==> Houses[h][k] == HouseCell(h, k)
  {
    forall h, k | 0 <= h < 9 && 0 <= k < 9
      ensures Houses[h][k] == HouseCell(h, k)
    {
      assert h == 0 || h == 1 || h == 2 || h == 3 || h == 4 || h == 5 || h == 6 || h == 7 || h == 8;
      assert k == 0 || k == 1 || k == 2 || k == 3 || k == 4 || k == 5 || k == 6 || k == 7 || k == 8;
    }
  }

  /** The k-th entry of house h has h as its house number. */
  lemma HouseCellBox(h: int, k: int)
    requires 0 <= h < 9 && 0 <= k < 9
    ensures InRange(HouseCell(h, k)) && BoxOf(HouseCell(h, k)) == h
  {
    BandIsDiv(h);
    BandIsDiv(k);
    var row, col := 3 * Band(h) + Band(k), 3 * Offset(h) + Offset(k);
    AtCoordinates(row, col);
    assert Band(row) == Band(h) && Band(col) == Offset(h);
  }

  /** Each position is the entry 3 * (row % 3) + col % 3 of its own house. */
  lemma BoxCell(pos: int)
    requires InRange(pos)
    ensures 0 <= BoxOf(pos) < 9 && 0 <= 3 * Offset(RowOf(pos)) + Offset(ColOf(pos)) < 9
    ensures HouseCell(BoxOf(pos), 3 * Offset(RowOf(pos)) + Offset(ColOf(pos))) == pos
  {
    Coordinates(pos);
    var r, c := RowOf(pos), ColOf(pos);
    var h, k := BoxOf(pos), 3 * Offset(r) + Offset(c);
    assert Band(h) == Band(r) && Offset(h) == Band(c);
    assert Band(k) == Offset(r) && Offset(k) == Offset(c);
    BandIsDiv(h);
    BandIsDiv(k);
  }

  /** A position lies in the 0-based house h exactly when its coordinates put it there. */
  lemma HouseMembership(h: int, pos: int)
    requires 0 <= h < 9
    ensures pos in Houses[h] <==> InRange(pos) && BoxOf(pos) == h
  {
    HouseTableShape();
    if pos in Houses[h] {
      var k :| 0 <= k < |Houses[h]| && Houses[h][k] == pos;
      HouseCellBox(h, k);
    }
    if InRange(pos) && BoxOf(pos) == h {
      BoxCell(pos);
      var k := 3 * Offset(RowOf(pos)) + Offset(ColOf(pos));
      assert Houses[h][k] == pos;
    }
  }

  /**
   * The houses table partitions 0..80: a position in range lies in exactly
   * one house, the one its coordinates name, and no house holds anything else.
   */
  lemma HousesPartition(pos: int)
    ensures InRange(pos) ==> 0 <= BoxOf(pos) < 9
    ensures forall h :: 0 <= h < 9 ==> (pos in Houses[h] <==> InRange(pos) && BoxOf(pos) == h)
  {
    if InRange(pos) { Coordinates(pos); }
    forall h | 0 <= h < 9 ensures pos in Houses[h] <==> InRange(pos) && BoxOf(pos) == h {
      HouseMembership(h, pos);
    }
  }

  /**
   * find_row: the first position of pos's row; IndexError outside 0..80.
   */
  function FindRow(pos: int): (r: Result<int>)
    ensures r.Ok? <==> InRange(pos)
    ensures r.Ok? ==> r.value % 9 == 0 && 0 <= pos - r.value <= 8
    ensures r.Raise? ==> r.exc == IndexError
  {
    if pos < 0 || pos > 80 then Raise(IndexError) else Ok((pos / 9) * 9)
  }

  /** find_col: no range check; Python's % and Dafny's agree for the divisor 9. */
  function FindCol(pos: int): (c: int)
    ensures 0 <= c <= 8 && (pos - c) % 9 == 0
  {
    pos % 9
  }

  /** The scan behind find_house: houses h..9 in key order, -1 when none holds pos. */
  function FindHouseFrom(pos: int, h: int): (r: int)
    requires 1 <= h <= 10
    ensures r != -1 ==> h <= r <= 9 && pos in Houses[r - 1]
    ensures r != -1 ==> forall g :: h - 1 <= g < r - 1 ==> pos !in Houses[g]
    ensures r == -1 ==> forall g :: h - 1 <= g < 9 ==> pos !in Houses[g]
    decreases 10 - h
  {
    if h == 10 then -1
    else if pos in Houses[h - 1] then h
    else FindHouseFrom(pos, h + 1)
  }

  /** find_house: the house key 1..9 holding pos, and -1 when pos is outside 0..80. */
  function FindHouse(pos: int): (h: int)
    ensures InRange(pos) ==> 1 <= h <= 9 && pos in Houses[h - 1] && h == BoxOf(pos) + 1
    ensures !InRange(pos) ==> h == -1
  {
    HousesPartition(pos);
    FindHouseFrom(pos, 1)
  }

  /** The first position of pos's row (find_row on a position in range). */
  function RowStart(pos: int): int
    requires InRange(pos)
  {
    FindRow(pos).value
  }

  /** The positions num_is_in_row and find_negaters visit: range(row, row + 9). */
  function RowCells(pos: int): seq<int>
    requires InRange(pos)
  {
    seq(9, j => RowStart(pos) + j)
  }

  /** The positions num_is_in_col and find_negaters visit: col, col + 9, ..., col + 72. */
  function ColCells(pos: int): seq<int> {
    seq(9, r => FindCol(pos) + 9 * r)
  }

  /** The positions of pos's house, in the table's order. */
  function HouseCells(pos: int): seq<int>
    requires InRange(pos)
  {
    Houses[FindHouse(pos) - 1]
  }

  /** The positions find_relevant_region adds, in the order it adds them (with repeats). */
  function RegionList(pos: int): seq<int>
    requires InRange(pos)
  {
    RowCells(pos) + ColCells(pos) + HouseCells(pos)
  }

  lemma RowCellsSpec(pos: int)
    requires InRange(pos)
    ensures |RowCells(pos)| == 9
    ensures forall q :: q in RowCells(pos) <==> InRange(q) && RowOf(q) == RowOf(pos)
  {
    forall q | InRange(q) && RowOf(q) == RowOf(pos) ensures q in RowCells(pos) {
      assert RowCells(pos)[ColOf(q)] == q;
    }
  }

  lemma ColCellsSpec(pos: int)
    ensures |ColCells(pos)| == 9
    ensures forall q :: q in ColCells(pos) <==> InRange(q) && ColOf(q) == FindCol(pos)
  {
    forall q | InRange(q) && ColOf(q) == FindCol(pos) ensures q in ColCells(pos) {
      assert ColCells(pos)[RowOf(q)] == q;
    }
    forall q | q in ColCells(pos) ensures InRange(q) && ColOf(q) == FindCol(pos) {
      var r :| 0 <= r < 9 && ColCells(pos)[r] == q;
      AtCoordinates(r, FindCol(pos));
    }
  }

  lemma HouseCellsSpec(pos: int)
    requires InRange(pos)
    ensures |HouseCells(pos)| == 9
    ensures forall q :: q in HouseCells(pos) <==> InRange(q) && BoxOf(q) == BoxOf(pos)
  {
    HouseTableShape();
    HousesPartition(pos);
    forall q ensures q in HouseCells(pos) <==> InRange(q) && BoxOf(q) == BoxOf(pos) {
      HouseMembership(BoxOf(pos), q);
    }
  }

  /** The list find_relevant_region walks holds exactly the positions sharing a unit with pos. */
  lemma RegionListSpec(pos: int)
    requires InRange(pos)
    ensures forall q :: q in RegionList(pos) <==> InRange(q) && SharesUnit(pos, q)
  {
    RowCellsSpec(pos);
    ColCellsSpec(pos);
    HouseCellsSpec(pos);
  }

  /** find_relevant_region: the union of pos's row, column and house, all inside 0..80. */
  function FindRelevantRegion(pos: int): (region: set<int>)
    requires InRange(pos)
    ensures forall q :: q in region ==> InRange(q)
  {
    RegionListSpec(pos);
    set q | q in RegionList(pos)
  }

  /** The region is exactly the set of positions sharing a row, column or house with pos. */
  lemma RegionMembers(pos: int)
    requires InRange(pos)
    ensures forall q :: q in FindRelevantRegion(pos) <==> InRange(q) && SharesUnit(pos, q)
  {
    RegionListSpec(pos);
  }

  // Counting the region: an explicit list of its 21 members without repeats.

  /** The t-th (from 0) of the numbers 0, 1, 2, ... other than a. */
  function Skip(a: int, t: int): int {
    if t < a then t else t + 1
  }

  /** pos's row, then the other 8 cells of its column, then the 4 cells of its house in neither. */
  ghost function Peers(pos: int): seq<int>
    requires InRange(pos)
  {
    var r, c := RowOf(pos), ColOf(pos);
    var a0, a1 := 3 * Band(r) + Skip(Offset(r), 0), 3 * Band(r) + Skip(Offset(r), 1);
    var b0, b1 := 3 * Band(c) + Skip(Offset(c), 0), 3 * Band(c) + Skip(Offset(c), 1);
    seq(9, j => At(r, j))
    + seq(8, k => At(Skip(r, k), c))
    + [At(a0, b0), At(a0, b1), At(a1, b0), At(a1, b1)]
  }

  /** Row and column of the n-th entry of Peers(pos). */
  ghost function PeerRow(pos: int, n: int): int
    requires InRange(pos)
  {
    var r := RowOf(pos);
    if n < 9 then r
    else if n < 17 then Skip(r, n - 9)
    else 3 * Band(r) + Skip(Offset(r), if n < 19 then 0 else 1)
  }

  ghost function PeerCol(pos: int, n: int): int
    requires InRange(pos)
  {
    var c := ColOf(pos);
    if n < 9 then n
    else if n < 17 then c
    else 3 * Band(c) + Skip(Offset(c), if n == 17 || n == 19 then 0 else 1)
  }

  lemma PeerAt(pos: int, n: int)
    requires InRange(pos) && 0 <= n < 21
    ensures |Peers(pos)| == 21
    ensures Peers(pos)[n] == At(PeerRow(pos, n), PeerCol(pos, n))
  {
  }

  lemma PeersCoordinates(pos: int, n: int)
    requires InRange(pos) && 0 <= n < 21
    ensures |Peers(pos)| == 21
    ensures 0 <= PeerRow(pos, n) < 9 && 0 <= PeerCol(pos, n) < 9
    ensures InRange(Peers(pos)[n])
    ensures RowOf(Peers(pos)[n]) == PeerRow(pos, n) && ColOf(Peers(pos)[n]) == PeerCol(pos, n)
  {
    Coordinates(pos);
    PeerAt(pos, n);
    AtCoordinates(PeerRow(pos, n), PeerCol(pos, n));
  }

  /** Two different entries of Peers(pos) differ in row or in column. */
  lemma PeerCoordinatesDiffer(pos: int, n: int, m: int)
    requires InRange(pos) && 0 <= n < m < 21
    ensures PeerRow(pos, n) != PeerRow(pos, m) || PeerCol(pos, n) != PeerCol(pos, m)
  {
    Coordinates(pos);
  }

  lemma PeersDistinct(pos: int)
    requires InRange(pos)
    ensures |Peers(pos)| == 21
    ensures forall n, m :: 0 <= n < m < 21 ==> Peers(pos)[n] != Peers(pos)[m]
  {
    PeersCoordinates(pos, 0);
    forall n, m | 0 <= n < m < 21 ensures Peers(pos)[n] != Peers(pos)[m] {
      PeersCoordinates(pos, n);
      PeersCoordinates(pos, m);
      PeerCoordinatesDiffer(pos, n, m);
    }
  }

  lemma PeerSharesUnit(pos: int, n: int)
    requires InRange(pos) && 0 <= n < 21
    ensures |Peers(pos)| == 21
    ensures InRange(Peers(pos)[n]) && SharesUnit(pos, Peers(pos)[n])
  {
    Coordinates(pos);
    PeersCoordinates(pos, n);
    var q := Peers(pos)[n];
    if 17 <= n {
      assert Band(RowOf(q)) == Band(RowOf(pos)) && Band(ColOf(q)) == Band(ColOf(pos));
    }
  }

  /** Equal house numbers mean equal bands of rows and of columns. */
  lemma SameBands(i: int, j: int, r: int, c: int)
    requires 0 <= i < 9 && 0 <= j < 9 && 0 <= r < 9 && 0 <= c < 9
    requires 3 * Band(i) + Band(j) == 3 * Band(r) + Band(c)
    ensures Band(i) == Band(r) && Band(j) == Band(c)
  {
  }

  /** An index of r's band other than r is Skip(Offset(r), t) places into the band, for t in 0..1. */
  lemma SkipInBand(r: int, i: int) returns (t: int)
    requires 0 <= r < 9 && 0 <= i < 9 && i != r && Band(i) == Band(r)
    ensures 0 <= t < 2 && 3 * Band(r) + Skip(Offset(r), t) == i
  {
    t := if Offset(i) < Offset(r) then Offset(i) else Offset(i) - 1;
  }

  /** A position of pos's house in neither pos's row nor its column is among the last four peers. */
  lemma HousePeerIndex(pos: int, q: int) returns (n: int)
    requires InRange(pos) && InRange(q)
    requires RowOf(q) != RowOf(pos) && ColOf(q) != ColOf(pos) && BoxOf(q) == BoxOf(pos)
    ensures 17 <= n < 21 && PeerRow(pos, n) == RowOf(q) && PeerCol(pos, n) == ColOf(q)
  {
    Coordinates(pos);
    Coordinates(q);
    var r, c, i, j := RowOf(pos), ColOf(pos), RowOf(q), ColOf(q);
    SameBands(i, j, r, c);
    var t := SkipInBand(r, i);
    var u := SkipInBand(c, j);
    n := 17 + 2 * t + u;
  }

  lemma SharesUnitIsPeer(pos: int, q: int) returns (n: int)
    requires InRange(pos) && InRange(q) && SharesUnit(pos, q)
    ensures 0 <= n < 21 && |Peers(pos)| == 21 && Peers(pos)[n] == q
  {
    Coordinates(q);
    var r, c := RowOf(pos), ColOf(pos);
    var i, j := RowOf(q), ColOf(q);
    if i == r {
      n := j;
    } else if j == c {
      n := 9 + (if i < r then i else i - 1);
    } else {
      n := HousePeerIndex(pos, q);
    }
    PeerAt(pos, n);
  }

  lemma PeersMembers(pos: int)
    requires InRange(pos)
    ensures forall q :: q in Peers(pos) <==> InRange(q) && SharesUnit(pos, q)
  {
    forall q | q in Peers(pos) ensures InRange(q) && SharesUnit(pos, q) {
      var n :| 0 <= n < |Peers(pos)| && Peers(pos)[n] == q;
      PeerSharesUnit(pos, n);
    }
    forall q | InRange(q) && SharesUnit(pos, q) ensures q in Peers(pos) {
      var n := SharesUnitIsPeer(pos, q);
    }
  }

  /** A list without repeats has as many distinct members as entries. */
  lemma {:induction false} DistinctCard(s: seq<int>)
    requires forall n, m :: 0 <= n < m < |s| ==> s[n] != s[m]
    ensures |set x | x in s| == |s|
  {
    if s != [] {
      var t := s[..|s| - 1];
      DistinctCard(t);
      assert (set x | x in s) == (set x | x in t) + {s[|s| - 1]};
    }
  }

  /**
   * The relevant region of every position holds pos, lies inside 0..80 and
   * has exactly 21 members.
   */
  lemma RegionSize(pos: int)
    requires InRange(pos)
    ensures pos in FindRelevantRegion(pos)
    ensures forall q :: q in FindRelevantRegion(pos) ==> InRange(q)
    ensures |FindRelevantRegion(pos)| == 21
  {
    var region := FindRelevantRegion(pos);
    RegionMembers(pos);
    PeersDistinct(pos);
    PeersMembers(pos);
    DistinctCard(Peers(pos));
    forall x ensures x in region <==> x in Peers(pos) {}
    assert region == set x | x in Peers(pos);
  }
}
