/** The backtracking search of the solver as a function on boards: the
    reference that the in-place solver is proved to compute. */
module SudokuSearch {
  import opened SudokuGrid

  /** Number of empty cells in one row of the board. */
  function ZerosIn(row: seq<int>): nat {
    if row == [] then 0 else (if row[0] == 0 then 1 else 0) + ZerosIn(row[1..])
  }

  /** Number of empty cells on the board: the search's termination measure. */
  function ZeroCount(g: Grid): nat {
    if g == [] then 0 else ZerosIn(g[0]) + ZeroCount(g[1..])
  }

  lemma {:induction false} ZerosInPlace(row: seq<int>, c: int, d: int)
    requires 0 <= c < |row| && row[c] == 0 && d != 0
    ensures ZerosIn(row[c := d]) + 1 == ZerosIn(row)
  {
    if c > 0 {
      assert row[c := d][1..] == row[1..][c - 1 := d];
      ZerosInPlace(row[1..], c - 1, d);
    } else {
      assert row[c := d][1..] == row[1..];
    }
  }

  lemma {:induction false} ZeroCountReplace(g: Grid, r: int, row: seq<int>)
    requires 0 <= r < |g|
    ensures ZeroCount(g[r := row]) + ZerosIn(g[r]) == ZeroCount(g) + ZerosIn(row)
  {
    if r > 0 {
      assert g[r := row][1..] == g[1..][r - 1 := row];
      ZeroCountReplace(g[1..], r - 1, row);
    } else {
      assert g[r := row][1..] == g[1..];
    }
  }

  /** Filling an empty cell lowers the number of empty cells by one. */
  lemma PlaceDecreasesZeros(g: Grid, r: int, c: int, d: int)
    requires IsGrid(g) && InRange(r, c) && g[r][c] == 0 && d != 0
    ensures ZeroCount(With(g, r, c, d)) + 1 == ZeroCount(g)
  {
    ZerosInPlace(g[r], c, d);
    ZeroCountReplace(g, r, g[r][c := d]);
  }

  /** The first empty cell at or after (r, c) in row-major order, if any. */
  function FirstEmptyFrom(g: Grid, r: int, c: int): (e: Option<(int, int)>)
    requires IsGrid(g) && 0 <= r <= Size && 0 <= c <= Size
    ensures e.None? <==>
      forall x, y :: InRange(x, y) && !Before(x, y, r, c) ==> g[x][y] != 0
    ensures e.Some? ==>
      InRange(e.value.0, e.value.1) && g[e.value.0][e.value.1] == 0 && !Before(e.value.0, e.value.1, r, c) &&
      forall x, y :: InRange(x, y) && !Before(x, y, r, c) && Before(x, y, e.value.0, e.value.1) ==> g[x][y] != 0
    decreases Size - r, Size - c, g
  {
    if r == Size then None
    else if c == Size then FirstEmptyFrom(g, r + 1, 0)
    else if g[r][c] == 0 then Some((r, c))
    else FirstEmptyFrom(g, r, c + 1)
  }

  /** The first empty cell of the board in row-major order, if any. */
  function FirstEmpty(g: Grid): Option<(int, int)>
    requires IsGrid(g)
  {
    FirstEmptyFrom(g, 0, 0)
  }

  /** Depth-first search from board g: fill the first empty cell with the
      smallest digit that leads to a full board; None when no digit does. */
  ghost function Search(g: Grid): Option<Grid>
    requires IsGrid(g)
    decreases ZeroCount(g), Size + 1
  {
    match FirstEmpty(g)
    case None => Some(g)
    case Some((r, c)) => TryDigits(g, r, c, 1)
  }

  /** Try digits d, d + 1, ..., 9 on the empty cell (r, c), each one only if
      it may be placed, and return the first search that succeeds. */
  ghost function TryDigits(g: Grid, r: int, c: int, d: int): Option<Grid>
    requires IsGrid(g) && InRange(r, c) && g[r][c] == 0 && 1 <= d <= Size + 1
    decreases ZeroCount(g), Size + 1 - d
  {
    if d > Size then None
    else if CanPlace(g, r, c, d) then
      PlaceDecreasesZeros(g, r, c, d);
      WithAt(g, r, c, d);
      match Search(With(g, r, c, d))
      case Some(s) => Some(s)
      case None => TryDigits(g, r, c, d + 1)
    else TryDigits(g, r, c, d + 1)
  }

  /** A digit that may be placed and whose search succeeds is the one
      TryDigits settles on. */
  lemma TryDigitsTaken(g: Grid, r: int, c: int, d: int)
    requires IsGrid(g) && InRange(r, c) && g[r][c] == 0 && 1 <= d <= Size
    requires CanPlace(g, r, c, d) && IsGrid(With(g, r, c, d)) && Search(With(g, r, c, d)).Some?
    ensures TryDigits(g, r, c, d) == Search(With(g, r, c, d))
  {
  }

  /** A digit that may not be placed, or whose search fails, is passed over. */
  lemma TryDigitsPassed(g: Grid, r: int, c: int, d: int)
    requires IsGrid(g) && InRange(r, c) && g[r][c] == 0 && 1 <= d <= Size
    requires CanPlace(g, r, c, d) ==> IsGrid(With(g, r, c, d)) && Search(With(g, r, c, d)).None?
    ensures TryDigits(g, r, c, d) == TryDigits(g, r, c, d + 1)
  {
  }

  /** Every cell holds a digit. */
  ghost predicate Filled(s: Grid)
    requires IsGrid(s)
  {
    forall x, y :: InRange(x, y) ==> s[x][y] != 0
  }

  /** s keeps every non-zero cell of g. */
  ghost predicate Extends(g: Grid, s: Grid)
    requires IsGrid(g) && IsGrid(s)
  {
    forall x, y :: InRange(x, y) && g[x][y] != 0 ==> s[x][y] == g[x][y]
  }

  /** No other cell sharing a unit with (r, c) holds the value of (r, c). */
  ghost predicate ClashFree(s: Grid, r: int, c: int)
    requires IsGrid(s) && InRange(r, c)
  {
    forall x, y :: InRange(x, y) && (x, y) != (r, c) && SameUnit(r, c, x, y) ==> s[x][y] != s[r][c]
  }

  /** s is a completion of g: a full board keeping g's given cells, in which
      every cell that was empty in g holds a digit 1..9 that clashes with
      no other cell of its row, column or box. */
  ghost predicate Completes(g: Grid, s: Grid)
    requires IsGrid(g)
  {
    IsGrid(s) && Filled(s) && Extends(g, s) &&
    forall x, y :: InRange(x, y) && g[x][y] == 0 ==> 1 <= s[x][y] <= Size && ClashFree(s, x, y)
  }

  /** Placing a legal digit on an empty cell of g and completing the result
      completes g. */
  lemma CompletesAfterPlace(g: Grid, r: int, c: int, d: int, s: Grid)
    requires IsGrid(g) && InRange(r, c) && g[r][c] == 0 && 1 <= d <= Size
    requires CanPlace(g, r, c, d)
    requires IsGrid(With(g, r, c, d)) && Completes(With(g, r, c, d), s)
    ensures Completes(g, s)
  {
    var h := With(g, r, c, d);
    WithAt(g, r, c, d);
    assert s[r][c] == d;
    forall x, y | InRange(x, y) && (x, y) != (r, c) && SameUnit(r, c, x, y)
      ensures s[x][y] != d
    {
      if h[x][y] == 0 {
        assert ClashFree(s, x, y);
        assert SameUnit(x, y, r, c);
      }
    }
  }

  /** A board that keeps every filled cell of g with one empty cell filled
      keeps every filled cell of g. */
  lemma ExtendsAfterPlace(g: Grid, r: int, c: int, d: int, s: Grid)
    requires IsGrid(g) && InRange(r, c) && g[r][c] == 0 && IsGrid(s)
    requires IsGrid(With(g, r, c, d)) && Extends(With(g, r, c, d), s)
    ensures Extends(g, s)
  {
    WithAt(g, r, c, d);
    forall x, y | InRange(x, y) && g[x][y] != 0 ensures s[x][y] == g[x][y] {
      assert With(g, r, c, d)[x][y] == g[x][y];
    }
  }

  /** A search that succeeds returns a completion of its board. */
  lemma {:induction false} SearchSound(g: Grid)
    requires IsGrid(g) && Search(g).Some?
    ensures Completes(g, Search(g).value)
    decreases ZeroCount(g), Size + 1
  {
    match FirstEmpty(g)
    case None =>
    case Some((r, c)) => TryDigitsSound(g, r, c, 1);
  }

  lemma {:induction false} TryDigitsSound(g: Grid, r: int, c: int, d: int)
    requires IsGrid(g) && InRange(r, c) && g[r][c] == 0 && 1 <= d <= Size + 1
    requires TryDigits(g, r, c, d).Some?
    ensures Completes(g, TryDigits(g, r, c, d).value)
    decreases ZeroCount(g), Size + 1 - d
  {
    if d <= Size {
      if CanPlace(g, r, c, d) {
        PlaceDecreasesZeros(g, r, c, d);
        WithAt(g, r, c, d);
        var h := With(g, r, c, d);
        if Search(h).Some? {
          SearchSound(h);
          CompletesAfterPlace(g, r, c, d, Search(h).value);
        } else {
          TryDigitsSound(g, r, c, d + 1);
        }
      } else {
        TryDigitsSound(g, r, c, d + 1);
      }
    }
  }

  /** A completion of g with the empty cell (r, c) set to its own value is a
      completion of that smaller problem, and that value may be placed. */
  lemma CompletesBeforePlace(g: Grid, r: int, c: int, s: Grid)
    requires IsGrid(g) && InRange(r, c) && g[r][c] == 0 && Completes(g, s)
    ensures 1 <= s[r][c] <= Size && CanPlace(g, r, c, s[r][c])
    ensures IsGrid(With(g, r, c, s[r][c])) && Completes(With(g, r, c, s[r][c]), s)
  {
    var d := s[r][c];
    WithAt(g, r, c, d);
    assert ClashFree(s, r, c);
    forall x, y | InRange(x, y) && SameUnit(r, c, x, y)
      ensures g[x][y] != d
    {
      if g[x][y] != 0 && (x, y) != (r, c) {
        assert s[x][y] == g[x][y];
      }
    }
  }

  /** The search is exhaustive: when g has a completion, it succeeds. */
  lemma {:induction false} SearchComplete(g: Grid, s: Grid)
    requires IsGrid(g) && Completes(g, s)
    ensures Search(g).Some?
    decreases ZeroCount(g), Size + 1
  {
    match FirstEmpty(g)
    case None =>
    case Some((r, c)) =>
      CompletesBeforePlace(g, r, c, s);
      TryDigitsComplete(g, r, c, 1, s);
  }

  lemma {:induction false} TryDigitsComplete(g: Grid, r: int, c: int, d: int, s: Grid)
    requires IsGrid(g) && InRange(r, c) && g[r][c] == 0 && 1 <= d <= Size + 1
    requires Completes(g, s) && d <= s[r][c]
    ensures TryDigits(g, r, c, d).Some?
    decreases ZeroCount(g), Size + 1 - d
  {
    if d == s[r][c] {
      assert CanPlace(g, r, c, d) && Search(With(g, r, c, d)).Some? by {
        CompletesBeforePlace(g, r, c, s);
        PlaceDecreasesZeros(g, r, c, d);
        SearchComplete(With(g, r, c, d), s);
      }
    } else {
      assert 1 <= s[r][c] <= Size;
      if !(CanPlace(g, r, c, d) && Search(With(g, r, c, d)).Some?) {
        TryDigitsComplete(g, r, c, d + 1, s);
      }
    }
  }

  /** The given (non-zero) cells of g do not clash with one another. */
  ghost predicate GivensClashFree(g: Grid)
    requires IsGrid(g)
  {
    forall x, y, x', y' ::
      (InRange(x, y) && InRange(x', y') && (x, y) != (x', y') && SameUnit(x, y, x', y') && g[x][y] != 0)
      ==> g[x'][y'] != g[x][y]
  }

  /** A solved Sudoku: every cell holds a digit 1..9 that no other cell of
      its row, column or box holds. */
  ghost predicate IsSolution(s: Grid)
    requires IsGrid(s)
  {
    forall x, y :: InRange(x, y) ==> 1 <= s[x][y] <= Size && ClashFree(s, x, y)
  }

  /** When the given cells are digits that do not clash, a completion is a
      solved Sudoku. */
  lemma CompletionIsSolution(g: Grid, s: Grid)
    requires IsGrid(g) && GivensClashFree(g)
    requires forall x, y :: InRange(x, y) ==> 0 <= g[x][y] <= Size
    requires Completes(g, s)
    ensures IsSolution(s)
  {
    forall x, y | InRange(x, y) ensures 1 <= s[x][y] <= Size && ClashFree(s, x, y) {
      if g[x][y] != 0 {
        forall x', y' | InRange(x', y') && (x', y') != (x, y) && SameUnit(x, y, x', y')
          ensures s[x'][y'] != s[x][y]
        {
          if g[x'][y'] == 0 {
            assert ClashFree(s, x', y') && SameUnit(x', y', x, y);
          }
        }
      }
    }
  }

  /** The search accepts a board with no empty cell as it is, without
      looking at its given cells. */
  lemma {:induction false} FilledBoardAccepted(g: Grid)
    requires IsGrid(g) && Filled(g)
    ensures Search(g) == Some(g)
  {
    assert FirstEmptyFrom(g, 0, 0).None?;
  }

  /** A full board of ones breaks every row, column and box, yet the search
      reports it solved. */
  lemma AllOnesAccepted()
    ensures IsGrid(seq(Size, _ => seq(Size, _ => 1)))
    ensures !IsSolution(seq(Size, _ => seq(Size, _ => 1)))
    ensures Search(seq(Size, _ => seq(Size, _ => 1))) == Some(seq(Size, _ => seq(Size, _ => 1)))
  {
    var ones: Grid := seq(Size, _ => seq(Size, _ => 1));
    assert !ClashFree(ones, 0, 0) by {
      assert InRange(0, 1) && SameUnit(0, 0, 0, 1) && ones[0][1] == ones[0][0];
    }
    FilledBoardAccepted(ones);
  }
}
