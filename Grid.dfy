/** The vocabulary of a 9x9 Sudoku board: cells, units (rows, columns,
    3x3 boxes), the digits a unit holds, and when a digit may be placed. */
module SudokuGrid {

  /** Side length of the board (SIZE). */
  const Size := 9

  datatype Option<T> = None | Some(value: T)

  /** A board as a value: Size rows of Size cells, 0 meaning empty. */
  type Grid = seq<seq<int>>

  ghost predicate IsGrid(g: Grid) {
    |g| == Size && forall r :: 0 <= r < Size ==> |g[r]| == Size
  }

  predicate InRange(r: int, c: int) {
    0 <= r < Size && 0 <= c < Size
  }

  /** Index of the 3x3 box that holds cell (r, c), numbered row-major. */
  function Box(r: int, c: int): (b: int)
    requires InRange(r, c)
    ensures 0 <= b < Size
  {
    (r / 3) * 3 + c / 3
  }

  /** The board g with cell (r, c) set to d. */
  function With(g: Grid, r: int, c: int, d: int): Grid
    requires IsGrid(g) && InRange(r, c)
  {
    g[r := g[r][c := d]]
  }

  lemma WithAt(g: Grid, r: int, c: int, d: int)
    requires IsGrid(g) && InRange(r, c)
    ensures IsGrid(With(g, r, c, d))
    ensures forall x, y :: InRange(x, y) ==>
      With(g, r, c, d)[x][y] == if x == r && y == c then d else g[x][y]
  {
  }

  /** Two boards are equal when they agree on every cell. */
  lemma GridsEqual(g: Grid, h: Grid)
    requires IsGrid(g) && IsGrid(h)
    requires forall x, y :: InRange(x, y) ==> g[x][y] == h[x][y]
    ensures g == h
  {
    forall x | 0 <= x < Size ensures g[x] == h[x] {
      assert forall y :: 0 <= y < Size ==> g[x][y] == h[x][y];
    }
  }

  /** The 27 units a digit may occur in at most once. */
  datatype Unit = RowUnit(i: int) | ColUnit(i: int) | BoxUnit(i: int)

  predicate InUnit(u: Unit, r: int, c: int)
    requires InRange(r, c)
  {
    match u
    case RowUnit(i) => r == i
    case ColUnit(i) => c == i
    case BoxUnit(i) => Box(r, c) == i
  }

  /** Cell (r, c) comes before position (row, col) in row-major order;
      position (row, Size) is the same as (row + 1, 0). */
  predicate Before(r: int, c: int, row: int, col: int) {
    r < row || (r == row && c < col)
  }

  /** The non-zero values held by the cells of unit u that come before
      position (row, col) in row-major order, gathered cell by cell. */
  ghost function DigitsBefore(g: Grid, u: Unit, row: int, col: int): set<int>
    requires IsGrid(g) && 0 <= row <= Size && 0 <= col <= Size && (row < Size || col == 0)
    decreases row, col, g
  {
    if col == 0 then
      if row == 0 then {} else DigitsBefore(g, u, row - 1, Size)
    else
      DigitsBefore(g, u, row, col - 1) +
      (if InUnit(u, row, col - 1) && g[row][col - 1] != 0 then {g[row][col - 1]} else {})
  }

  /** The non-zero values held by the cells of unit u. */
  ghost function UnitDigits(g: Grid, u: Unit): set<int>
    requires IsGrid(g)
  {
    DigitsBefore(g, u, Size, 0)
  }

  /** d is gathered before (row, col) exactly when d is non-zero and some
      cell of u before (row, col) holds it. */
  lemma {:induction false} InDigitsBefore(g: Grid, u: Unit, row: int, col: int, d: int)
    requires IsGrid(g) && 0 <= row <= Size && 0 <= col <= Size && (row < Size || col == 0)
    ensures d in DigitsBefore(g, u, row, col) <==>
      d != 0 && exists x, y :: InRange(x, y) && Before(x, y, row, col) && InUnit(u, x, y) && g[x][y] == d
    decreases row, col
  {
    if col == 0 {
      if row > 0 {
        InDigitsBefore(g, u, row - 1, Size, d);
      }
    } else {
      InDigitsBefore(g, u, row, col - 1, d);
      if d in DigitsBefore(g, u, row, col) && d !in DigitsBefore(g, u, row, col - 1) {
        assert InRange(row, col - 1) && Before(row, col - 1, row, col);
      }
    }
  }

  /** The row, column and box sets rs, cs, bs are exactly the digits of
      the corresponding units of g: a cache of the board. */
  ghost predicate Tracks(g: Grid, rs: seq<set<int>>, cs: seq<set<int>>, bs: seq<set<int>>)
    requires IsGrid(g)
  {
    |rs| == Size && |cs| == Size && |bs| == Size &&
    forall i :: 0 <= i < Size ==>
      rs[i] == UnitDigits(g, RowUnit(i)) &&
      cs[i] == UnitDigits(g, ColUnit(i)) &&
      bs[i] == UnitDigits(g, BoxUnit(i))
  }

  /** Cells (r, c) and (x, y) share a row, a column or a box. */
  predicate SameUnit(r: int, c: int, x: int, y: int)
    requires InRange(r, c) && InRange(x, y)
  {
    r == x || c == y || Box(r, c) == Box(x, y)
  }

  /** Sudoku legality on the board itself: no cell that shares a unit with
      (r, c) (that cell included) holds d. */
  ghost predicate CanPlace(g: Grid, r: int, c: int, d: int)
    requires IsGrid(g) && InRange(r, c)
  {
    forall x, y :: InRange(x, y) && SameUnit(r, c, x, y) ==> g[x][y] != d
  }

  /** d is among the digits of unit u exactly when some cell of u holds d. */
  lemma InUnitDigits(g: Grid, u: Unit, d: int)
    requires IsGrid(g)
    ensures d in UnitDigits(g, u) <==> d != 0 && exists x, y :: InRange(x, y) && InUnit(u, x, y) && g[x][y] == d
  {
    InDigitsBefore(g, u, Size, 0, d);
    if x, y :| InRange(x, y) && InUnit(u, x, y) && g[x][y] == d {
      assert Before(x, y, Size, 0);
    }
  }

  /** Checking the three unit sets of a cell is the same as checking the
      board: a non-zero digit is absent from the row, column and box of
      (r, c) exactly when it may be placed there. */
  lemma AbsentIffCanPlace(g: Grid, r: int, c: int, d: int)
    requires IsGrid(g) && InRange(r, c)
    ensures d != 0 ==>
      ((d !in UnitDigits(g, RowUnit(r)) && d !in UnitDigits(g, ColUnit(c)) &&
        d !in UnitDigits(g, BoxUnit(Box(r, c)))) <==> CanPlace(g, r, c, d))
  {
    InUnitDigits(g, RowUnit(r), d);
    InUnitDigits(g, ColUnit(c), d);
    InUnitDigits(g, BoxUnit(Box(r, c)), d);
  }

  /** Placing d on the empty cell (r, c) adds d to the digits of exactly
      the units that contain (r, c). */
  lemma PlaceUnitDigits(g: Grid, r: int, c: int, d: int, u: Unit)
    requires IsGrid(g) && InRange(r, c) && g[r][c] == 0 && d != 0
    ensures IsGrid(With(g, r, c, d))
    ensures UnitDigits(With(g, r, c, d), u) ==
            UnitDigits(g, u) + (if InUnit(u, r, c) then {d} else {})
  {
    var h := With(g, r, c, d);
    WithAt(g, r, c, d);
    forall e
      ensures e in UnitDigits(h, u) <==> e in UnitDigits(g, u) + (if InUnit(u, r, c) then {d} else {})
    {
      InUnitDigits(g, u, e);
      InUnitDigits(h, u, e);
    }
  }

  /** Placing d on an empty cell and adding d to that cell's three sets
      keeps the sets a cache of the board. */
  lemma PlaceKeepsTracks(g: Grid, rs: seq<set<int>>, cs: seq<set<int>>, bs: seq<set<int>>,
                         r: int, c: int, d: int)
    requires IsGrid(g) && InRange(r, c) && g[r][c] == 0 && d != 0
    requires Tracks(g, rs, cs, bs)
    ensures IsGrid(With(g, r, c, d))
    ensures Tracks(With(g, r, c, d), rs[r := rs[r] + {d}], cs[c := cs[c] + {d}],
                   bs[Box(r, c) := bs[Box(r, c)] + {d}])
  {
    var h := With(g, r, c, d);
    WithAt(g, r, c, d);
    forall i | 0 <= i < Size
      ensures rs[r := rs[r] + {d}][i] == UnitDigits(h, RowUnit(i))
      ensures cs[c := cs[c] + {d}][i] == UnitDigits(h, ColUnit(i))
      ensures bs[Box(r, c) := bs[Box(r, c)] + {d}][i] == UnitDigits(h, BoxUnit(i))
    {
      PlaceUnitDigits(g, r, c, d, RowUnit(i));
      PlaceUnitDigits(g, r, c, d, ColUnit(i));
      PlaceUnitDigits(g, r, c, d, BoxUnit(i));
    }
  }
}
