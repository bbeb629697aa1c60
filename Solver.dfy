/** The solver's mutable state and operations: a 9x9 board and, for each
    row, column and box, the set of digits placed in it, updated in place
    by loading, clearing and a recursive backtracking search. */
module SudokuSolver {
  import opened SudokuGrid
  import opened SudokuSearch

  /** The fixed puzzle that Load Puzzle seeds the board with. */
  const Puzzle: Grid := [
    [5, 3, 0, 0, 7, 0, 0, 0, 0],
    [6, 0, 0, 1, 9, 5, 0, 0, 0],
    [0, 9, 8, 0, 0, 0, 0, 6, 0],
    [8, 0, 0, 0, 6, 0, 0, 0, 3],
    [4, 0, 0, 8, 0, 3, 0, 0, 1],
    [7, 0, 0, 0, 2, 0, 0, 0, 6],
    [0, 6, 0, 0, 0, 0, 2, 8, 0],
    [0, 0, 0, 4, 1, 9, 0, 0, 5],
    [0, 0, 0, 0, 8, 0, 0, 7, 9]
  ]

  /** The solution of Puzzle. */
  const Solution: Grid := [
    [5, 3, 4, 6, 7, 8, 9, 1, 2],
    [6, 7, 2, 1, 9, 5, 3, 4, 8],
    [1, 9, 8, 3, 4, 2, 5, 6, 7],
    [8, 5, 9, 7, 6, 1, 4, 2, 3],
    [4, 2, 6, 8, 5, 3, 7, 9, 1],
    [7, 1, 3, 9, 2, 4, 8, 5, 6],
    [9, 6, 1, 5, 3, 7, 2, 8, 4],
    [2, 8, 7, 4, 1, 9, 6, 3, 5],
    [3, 4, 5, 2, 8, 6, 1, 7, 9]
  ]

  lemma PuzzleIsGrid()
    ensures IsGrid(Puzzle)
  {
  }

  /** The empty board. */
  const Empty: Grid := seq(Size, _ => seq(Size, _ => 0))

  class SudokuSolver {
    var board: array2<int>
    var rows: array<set<int>>
    var cols: array<set<int>>
    var subgrids: array<set<int>>

    /** The arrays have their fixed sizes and the three set arrays are distinct. */
    ghost predicate Shaped()
      reads this
    {
      board.Length0 == Size && board.Length1 == Size &&
      rows.Length == Size && cols.Length == Size && subgrids.Length == Size &&
      rows != cols && rows != subgrids && cols != subgrids
    }

    /** The board as a value. */
    ghost function Board(): (g: Grid)
      reads this, board
      requires Shaped()
      ensures IsGrid(g) && forall r, c :: InRange(r, c) ==> g[r][c] == board[r, c]
    {
      var b := board;
      seq(Size, r requires 0 <= r < Size reads b =>
        seq(Size, c requires 0 <= c < Size reads b => b[r, c]))
    }

    /** The tracker invariant: each row, column and box set holds exactly
        the digits placed in that unit of the board. */
    ghost predicate Consistent()
      reads this, board, rows, cols, subgrids
    {
      Shaped() && Tracks(Board(), rows[..], cols[..], subgrids[..])
    }

    /** A fresh solver: an empty board and empty sets. */
    constructor ()
      ensures fresh(board) && fresh(rows) && fresh(cols) && fresh(subgrids)
      ensures Consistent() && Board() == Empty
      ensures forall i :: 0 <= i < Size ==> rows[i] == {} && cols[i] == {} && subgrids[i] == {}
    {
      board := new int[Size, Size]((_, _) => 0);
      rows := new set<int>[Size](_ => {});
      cols := new set<int>[Size](_ => {});
      subgrids := new set<int>[Size](_ => {});
      new;
      GridsEqual(Board(), Empty);
      EmptyTracks(rows[..], cols[..], subgrids[..]);
    }

    /** Load Puzzle: seed the board and the sets from the fixed puzzle. */
    method LoadPuzzle()
      requires Shaped()
      modifies board, rows, cols, subgrids
      ensures Board() == Puzzle
      ensures forall i :: 0 <= i < Size ==>
        rows[i] == old(rows[i]) + UnitDigits(Puzzle, RowUnit(i)) &&
        cols[i] == old(cols[i]) + UnitDigits(Puzzle, ColUnit(i)) &&
        subgrids[i] == old(subgrids[i]) + UnitDigits(Puzzle, BoxUnit(i))
      ensures Consistent() <==> WithinUnits(Puzzle, old(rows[..]), old(cols[..]), old(subgrids[..]))
    {
      ghost var rs0, cs0, bs0 := rows[..], cols[..], subgrids[..];
      PuzzleIsGrid();
      LoadGrid(Puzzle);
      SeedEnd(Puzzle, rs0, cs0, bs0);
    }

    /** One step of loading: put v on cell (row, col) and, unless v is 0,
        add it to the cell's row, column and box sets. */
    method LoadCell(row: int, col: int, v: int)
      requires Shaped() && InRange(row, col)
      modifies board, rows, cols, subgrids
      ensures Shaped()
      ensures Board() == With(old(Board()), row, col, v)
      ensures rows[..] == AddDigit(old(rows[..]), row, v)
      ensures cols[..] == AddDigit(old(cols[..]), col, v)
      ensures subgrids[..] == AddDigit(old(subgrids[..]), Box(row, col), v)
    {
      ghost var g := Board();
      board[row, col] := v;
      if v != 0 {
        rows[row] := rows[row] + {v};
        cols[col] := cols[col] + {v};
        subgrids[Box(row, col)] := subgrids[Box(row, col)] + {v};
      }
      WithAt(g, row, col, v);
      GridsEqual(Board(), With(g, row, col, v));
    }

    /** Copy puzzle into the board and add each non-zero value to its row,
        column and box sets, cell by cell in row-major order. The sets are
        not emptied first. */
    method LoadGrid(puzzle: Grid)
      requires Shaped() && IsGrid(puzzle)
      modifies board, rows, cols, subgrids
      ensures Board() == puzzle
      ensures rows[..] == Seed(puzzle, Rows, old(rows[..]), Size, 0)
      ensures cols[..] == Seed(puzzle, Cols, old(cols[..]), Size, 0)
      ensures subgrids[..] == Seed(puzzle, Boxes, old(subgrids[..]), Size, 0)
    {
      ghost var g0 := Board();
      ghost var rs0, cs0, bs0 := rows[..], cols[..], subgrids[..];
      CopyStart(puzzle, g0);
      SeedStart(puzzle, Rows, rs0);
      SeedStart(puzzle, Cols, cs0);
      SeedStart(puzzle, Boxes, bs0);
      for row := 0 to Size
        invariant Shaped()
        invariant Board() == CopyBefore(puzzle, g0, row, 0)
        invariant rows[..] == Seed(puzzle, Rows, rs0, row, 0)
        invariant cols[..] == Seed(puzzle, Cols, cs0, row, 0)
        invariant subgrids[..] == Seed(puzzle, Boxes, bs0, row, 0)
      {
        LoadRow(puzzle, row, g0, rs0, cs0, bs0);
      }
      CopyEnd(puzzle, g0);
    }

    /** One pass of the outer loading loop: copy row `row` of puzzle and
        seed the sets with its values. Loading started from board g0 and
        sets rs0, cs0, bs0 and has done every row before `row`. */
    method LoadRow(puzzle: Grid, row: int, ghost g0: Grid,
                   ghost rs0: seq<set<int>>, ghost cs0: seq<set<int>>, ghost bs0: seq<set<int>>)
      requires Shaped() && IsGrid(puzzle) && IsGrid(g0) && 0 <= row < Size
      requires |rs0| == |cs0| == |bs0| == Size
      requires Board() == CopyBefore(puzzle, g0, row, 0)
      requires rows[..] == Seed(puzzle, Rows, rs0, row, 0)
      requires cols[..] == Seed(puzzle, Cols, cs0, row, 0)
      requires subgrids[..] == Seed(puzzle, Boxes, bs0, row, 0)
      modifies board, rows, cols, subgrids
      ensures Shaped()
      ensures Board() == CopyBefore(puzzle, g0, row + 1, 0)
      ensures rows[..] == Seed(puzzle, Rows, rs0, row + 1, 0)
      ensures cols[..] == Seed(puzzle, Cols, cs0, row + 1, 0)
      ensures subgrids[..] == Seed(puzzle, Boxes, bs0, row + 1, 0)
    {
      for col := 0 to Size
        invariant Shaped()
        invariant Board() == CopyBefore(puzzle, g0, row, col)
        invariant rows[..] == Seed(puzzle, Rows, rs0, row, col)
        invariant cols[..] == Seed(puzzle, Cols, cs0, row, col)
        invariant subgrids[..] == Seed(puzzle, Boxes, bs0, row, col)
      {
        LoadCell(row, col, puzzle[row][col]);
        CopyStep(puzzle, g0, row, col);
        SeedStep(puzzle, Rows, rs0, row, col);
        SeedStep(puzzle, Cols, cs0, row, col);
        SeedStep(puzzle, Boxes, bs0, row, col);
      }
      CopyRowEnd(puzzle, g0, row);
      SeedRowEnd(puzzle, Rows, rs0, row);
      SeedRowEnd(puzzle, Cols, cs0, row);
      SeedRowEnd(puzzle, Boxes, bs0, row);
    }

    /** Loading that first empties the sets, so that they match the board
        whatever state the solver was in. */
    method ResetAndLoadPuzzle()
      requires Shaped()
      modifies board, rows, cols, subgrids
      ensures Consistent() && Board() == Puzzle
    {
      ClearBoard();
      PuzzleIsGrid();
      EmptyWithinUnits(Puzzle, rows[..], cols[..], subgrids[..]);
      LoadPuzzle();
    }

    /** Empty every set and set every cell to 0. */
    method ClearBoard()
      requires Shaped()
      modifies board, rows, cols, subgrids
      ensures Consistent() && Board() == Empty
      ensures forall i :: 0 <= i < Size ==> rows[i] == {} && cols[i] == {} && subgrids[i] == {}
    {
      for row := 0 to Size
        invariant forall i :: 0 <= i < row ==> rows[i] == {} && cols[i] == {} && subgrids[i] == {}
        invariant forall r, c :: InRange(r, c) && r < row ==> board[r, c] == 0
      {
        rows[row] := {};
        cols[row] := {};
        subgrids[row] := {};
        for col := 0 to Size
          invariant forall i :: 0 <= i <= row ==> rows[i] == {} && cols[i] == {} && subgrids[i] == {}
          invariant forall r, c :: InRange(r, c) && Before(r, c, row, col) ==> board[r, c] == 0
        {
          board[row, col] := 0;
        }
      }
      GridsEqual(Board(), Empty);
      EmptyTracks(rows[..], cols[..], subgrids[..]);
    }

    /** Whether num is absent from the row set of row, the column set of
        col and the box set of (row, col). While the sets track the board,
        this is exactly whether no cell sharing a unit with (row, col)
        holds num. */
    function IsValid(row: int, col: int, num: int): (ok: bool)
      reads this, board, rows, cols, subgrids
      requires Shaped() && InRange(row, col)
      ensures Consistent() && num != 0 ==> (ok <==> CanPlace(Board(), row, col, num))
    {
      AbsentIffCanPlace(Board(), row, col, num);
      num !in rows[row] && num !in cols[col] && num !in subgrids[Box(row, col)]
    }

    /** The first cell holding 0 in row-major order, or None when the board
        has no empty cell. */
    method FindEmptyCell() returns (empty: Option<(int, int)>)
      requires Shaped()
      ensures empty == FirstEmpty(Board())
    {
      for row := 0 to Size
        invariant FirstEmptyFrom(Board(), row, 0) == FirstEmpty(Board())
      {
        for col := 0 to Size
          invariant FirstEmptyFrom(Board(), row, col) == FirstEmpty(Board())
        {
          if board[row, col] == 0 {
            return Some((row, col));
          }
        }
      }
      return None;
    }

    /** Tentatively put num on the empty cell (row, col) and record it in
        the cell's row, column and box sets; the sets keep tracking the board. */
    method Place(row: int, col: int, num: int)
      requires Shaped() && InRange(row, col) && board[row, col] == 0 && num != 0
      modifies board, rows, cols, subgrids
      ensures Shaped()
      ensures Board() == With(old(Board()), row, col, num)
      ensures rows[..] == old(rows[..])[row := old(rows[..])[row] + {num}]
      ensures cols[..] == old(cols[..])[col := old(cols[..])[col] + {num}]
      ensures subgrids[..] == old(subgrids[..])[Box(row, col) := old(subgrids[..])[Box(row, col)] + {num}]
      ensures old(Consistent()) ==> Consistent()
    {
      ghost var consistent := Consistent();
      ghost var g := Board();
      board[row, col] := num;
      rows[row] := rows[row] + {num};
      cols[col] := cols[col] + {num};
      subgrids[Box(row, col)] := subgrids[Box(row, col)] + {num};
      WithAt(g, row, col, num);
      GridsEqual(Board(), With(g, row, col, num));
      if consistent {
        PlaceKeepsTracks(g, old(rows[..]), old(cols[..]), old(subgrids[..]), row, col, num);
      }
    }

    /** Undo a placement: empty the cell (row, col) and take num out of the
        cell's row, column and box sets. */
    method Remove(row: int, col: int, num: int)
      requires Shaped() && InRange(row, col)
      modifies board, rows, cols, subgrids
      ensures Shaped()
      ensures Board() == With(old(Board()), row, col, 0)
      ensures rows[..] == old(rows[..])[row := old(rows[..])[row] - {num}]
      ensures cols[..] == old(cols[..])[col := old(cols[..])[col] - {num}]
      ensures subgrids[..] == old(subgrids[..])[Box(row, col) := old(subgrids[..])[Box(row, col)] - {num}]
    {
      ghost var g := Board();
      board[row, col] := 0;
      rows[row] := rows[row] - {num};
      cols[col] := cols[col] - {num};
      subgrids[Box(row, col)] := subgrids[Box(row, col)] - {num};
      WithAt(g, row, col, 0);
      GridsEqual(Board(), With(g, row, col, 0));
    }

    /** Backtracking search: fill the first empty cell with each digit 1..9
        that IsValid admits, placing it on the board and in the three sets,
        recurse, and undo both on failure. Whatever the sets hold, a success
        leaves a full board that keeps every filled cell and a failure leaves
        the state as it was; when the sets track the board, the outcome is
        the reference search's and a failure means there is no completion. */
    method Solve() returns (solved: bool)
      requires Shaped()
      modifies board, rows, cols, subgrids
      ensures Shaped()
      ensures solved ==> Filled(Board()) && Extends(old(Board()), Board())
      ensures !solved ==> Board() == old(Board()) && rows[..] == old(rows[..]) &&
                          cols[..] == old(cols[..]) && subgrids[..] == old(subgrids[..])
      ensures old(Consistent()) ==> Consistent()
      ensures old(Consistent()) ==> solved == Search(old(Board())).Some?
      ensures old(Consistent()) && solved ==>
        Board() == Search(old(Board())).value && Completes(old(Board()), Board())
      ensures old(Consistent()) && !solved ==> forall s :: !Completes(old(Board()), s)
      decreases ZeroCount(Board())
    {
      ghost var g0 := Board();
      ghost var rs0, cs0, bs0 := rows[..], cols[..], subgrids[..];
      ghost var consistent := Consistent();
      var empty := FindEmptyCell();
      if empty.None? {
        if consistent {
          SearchSound(g0);
        }
        return true;
      }
      var row, col := empty.value.0, empty.value.1;
      for num := 1 to Size + 1
        invariant Shaped()
        invariant Board() == g0 && rows[..] == rs0 && cols[..] == cs0 && subgrids[..] == bs0
        invariant consistent ==> TryDigits(g0, row, col, num) == Search(g0)
      {
        if IsValid(row, col, num) {
          assert consistent ==> CanPlace(g0, row, col, num);
          PlaceDecreasesZeros(g0, row, col, num);
          Place(row, col, num);
          solved := Solve();
          if solved {
            ExtendsAfterPlace(g0, row, col, num, Board());
            if consistent {
              TryDigitsTaken(g0, row, col, num);
              SearchSound(g0);
            }
            return true;
          }
          if consistent {
            TryDigitsPassed(g0, row, col, num);
          }
          Remove(row, col, num);
          WithUndo(g0, row, col, num);
          UndoAdd(rs0, row, num);
          UndoAdd(cs0, col, num);
          UndoAdd(bs0, Box(row, col), num);
        } else if consistent {
          TryDigitsPassed(g0, row, col, num);
        }
      }
      if consistent {
        forall s | Completes(g0, s) ensures false {
          SearchComplete(g0, s);
        }
      }
      return false;
    }
  }

  /** The three families of unit sets. */
  datatype Kind = Rows | Cols | Boxes

  /** Unit number i of family k. */
  function UnitOf(k: Kind, i: int): Unit {
    match k
    case Rows => RowUnit(i)
    case Cols => ColUnit(i)
    case Boxes => BoxUnit(i)
  }

  /** The number of the unit of family k that holds cell (r, c). */
  function IndexOf(k: Kind, r: int, c: int): (i: int)
    requires InRange(r, c)
    ensures 0 <= i < Size && InUnit(UnitOf(k, i), r, c)
    ensures forall j :: 0 <= j < Size && j != i ==> !InUnit(UnitOf(k, j), r, c)
  {
    match k
    case Rows => r
    case Cols => c
    case Boxes => Box(r, c)
  }

  /** The board g0 with every cell before (row, col) in row-major order
      replaced by the same cell of puzzle. */
  ghost function CopyBefore(puzzle: Grid, g0: Grid, row: int, col: int): (g: Grid)
    requires IsGrid(puzzle) && IsGrid(g0)
    ensures IsGrid(g)
  {
    seq(Size, r requires 0 <= r < Size =>
      seq(Size, c requires 0 <= c < Size => if Before(r, c, row, col) then puzzle[r][c] else g0[r][c]))
  }

  lemma CopyStart(puzzle: Grid, g0: Grid)
    requires IsGrid(puzzle) && IsGrid(g0)
    ensures CopyBefore(puzzle, g0, 0, 0) == g0
  {
    GridsEqual(CopyBefore(puzzle, g0, 0, 0), g0);
  }

  /** Copying cell (row, col) copies one cell further. */
  lemma CopyStep(puzzle: Grid, g0: Grid, row: int, col: int)
    requires IsGrid(puzzle) && IsGrid(g0) && InRange(row, col)
    ensures IsGrid(With(CopyBefore(puzzle, g0, row, col), row, col, puzzle[row][col]))
    ensures With(CopyBefore(puzzle, g0, row, col), row, col, puzzle[row][col]) == CopyBefore(puzzle, g0, row, col + 1)
  {
    var g := CopyBefore(puzzle, g0, row, col);
    WithAt(g, row, col, puzzle[row][col]);
    GridsEqual(With(g, row, col, puzzle[row][col]), CopyBefore(puzzle, g0, row, col + 1));
  }

  lemma CopyRowEnd(puzzle: Grid, g0: Grid, row: int)
    requires IsGrid(puzzle) && IsGrid(g0)
    ensures CopyBefore(puzzle, g0, row, Size) == CopyBefore(puzzle, g0, row + 1, 0)
  {
    GridsEqual(CopyBefore(puzzle, g0, row, Size), CopyBefore(puzzle, g0, row + 1, 0));
  }

  /** Copying every cell gives puzzle. */
  lemma CopyEnd(puzzle: Grid, g0: Grid)
    requires IsGrid(puzzle) && IsGrid(g0)
    ensures CopyBefore(puzzle, g0, Size, 0) == puzzle
  {
    GridsEqual(CopyBefore(puzzle, g0, Size, 0), puzzle);
  }

  /** The sets of family k after seeding the sets s0 with every cell of
      puzzle before (row, col): the value of each non-empty cell is added
      to the set of the unit of family k holding that cell. */
  ghost function Seed(puzzle: Grid, k: Kind, s0: seq<set<int>>, row: int, col: int): (s: seq<set<int>>)
    requires IsGrid(puzzle) && |s0| == Size
    requires 0 <= row <= Size && 0 <= col <= Size && (row < Size || col == 0)
    ensures |s| == Size
  {
    seq(Size, i requires 0 <= i < Size => s0[i] + DigitsBefore(puzzle, UnitOf(k, i), row, col))
  }

  /** The sets s with v added to set i, unless v is 0. */
  function AddDigit(s: seq<set<int>>, i: int, v: int): (t: seq<set<int>>)
    requires 0 <= i < |s|
    ensures |t| == |s| && t[i] == s[i] + (if v != 0 then {v} else {})
    ensures forall j :: 0 <= j < |s| && j != i ==> t[j] == s[j]
  {
    if v != 0 then s[i := s[i] + {v}] else s
  }

  /** Extending the row-major prefix by cell (r, c) adds that cell's value
      to the digits of unit u when u holds the cell. */
  lemma DigitsBeforeStep(g: Grid, r: int, c: int, u: Unit)
    requires IsGrid(g) && InRange(r, c)
    ensures DigitsBefore(g, u, r, c + 1) ==
            DigitsBefore(g, u, r, c) + (if InUnit(u, r, c) && g[r][c] != 0 then {g[r][c]} else {})
    ensures DigitsBefore(g, u, r, Size) == DigitsBefore(g, u, r + 1, 0)
  {
  }

  /** Nothing is seeded before the first cell. */
  lemma SeedStart(puzzle: Grid, k: Kind, s0: seq<set<int>>)
    requires IsGrid(puzzle) && |s0| == Size
    ensures Seed(puzzle, k, s0, 0, 0) == s0
  {
    forall i | 0 <= i < Size ensures Seed(puzzle, k, s0, 0, 0)[i] == s0[i] {
      assert DigitsBefore(puzzle, UnitOf(k, i), 0, 0) == {};
    }
  }

  /** Adding the value of cell (row, col) to the set of its unit of family
      k seeds that family one cell further. */
  lemma SeedStep(puzzle: Grid, k: Kind, s0: seq<set<int>>, row: int, col: int)
    requires IsGrid(puzzle) && |s0| == Size && InRange(row, col)
    ensures AddDigit(Seed(puzzle, k, s0, row, col), IndexOf(k, row, col), puzzle[row][col]) ==
            Seed(puzzle, k, s0, row, col + 1)
  {
    var s := Seed(puzzle, k, s0, row, col);
    forall i | 0 <= i < Size
      ensures AddDigit(s, IndexOf(k, row, col), puzzle[row][col])[i] == Seed(puzzle, k, s0, row, col + 1)[i]
    {
      DigitsBeforeStep(puzzle, row, col, UnitOf(k, i));
    }
  }

  /** Seeding up to the end of a row is seeding up to the start of the next. */
  lemma SeedRowEnd(puzzle: Grid, k: Kind, s0: seq<set<int>>, row: int)
    requires IsGrid(puzzle) && |s0| == Size && 0 <= row < Size
    ensures Seed(puzzle, k, s0, row, Size) == Seed(puzzle, k, s0, row + 1, 0)
  {
    forall i | 0 <= i < Size ensures Seed(puzzle, k, s0, row, Size)[i] == Seed(puzzle, k, s0, row + 1, 0)[i] {
      DigitsBeforeStep(puzzle, row, 0, UnitOf(k, i));
    }
  }

  /** Each set of rs, cs and bs holds only digits of its unit of puzzle;
      empty sets in particular. */
  ghost predicate WithinUnits(puzzle: Grid, rs: seq<set<int>>, cs: seq<set<int>>, bs: seq<set<int>>)
    requires IsGrid(puzzle) && |rs| == |cs| == |bs| == Size
  {
    forall i :: 0 <= i < Size ==>
      rs[i] <= UnitDigits(puzzle, RowUnit(i)) && cs[i] <= UnitDigits(puzzle, ColUnit(i)) &&
      bs[i] <= UnitDigits(puzzle, BoxUnit(i))
  }

  /** Empty sets hold only digits of their units. */
  lemma EmptyWithinUnits(puzzle: Grid, rs: seq<set<int>>, cs: seq<set<int>>, bs: seq<set<int>>)
    requires IsGrid(puzzle) && |rs| == |cs| == |bs| == Size
    requires forall i :: 0 <= i < Size ==> rs[i] == {} && cs[i] == {} && bs[i] == {}
    ensures WithinUnits(puzzle, rs, cs, bs)
  {
  }

  /** Seeding the whole board adds the digits of every unit to its set, so
      the sets end up tracking the board exactly when each started as a
      subset of its unit's digits (in particular when they started empty). */
  lemma SeedEnd(puzzle: Grid, rs0: seq<set<int>>, cs0: seq<set<int>>, bs0: seq<set<int>>)
    requires IsGrid(puzzle) && |rs0| == |cs0| == |bs0| == Size
    ensures forall i :: 0 <= i < Size ==>
      Seed(puzzle, Rows, rs0, Size, 0)[i] == rs0[i] + UnitDigits(puzzle, RowUnit(i)) &&
      Seed(puzzle, Cols, cs0, Size, 0)[i] == cs0[i] + UnitDigits(puzzle, ColUnit(i)) &&
      Seed(puzzle, Boxes, bs0, Size, 0)[i] == bs0[i] + UnitDigits(puzzle, BoxUnit(i))
    ensures WithinUnits(puzzle, rs0, cs0, bs0) <==>
      Tracks(puzzle, Seed(puzzle, Rows, rs0, Size, 0), Seed(puzzle, Cols, cs0, Size, 0),
             Seed(puzzle, Boxes, bs0, Size, 0))
  {
  }

  /** No unit of the empty board holds a digit, so empty sets track it. */
  lemma EmptyTracks(rs: seq<set<int>>, cs: seq<set<int>>, bs: seq<set<int>>)
    requires |rs| == |cs| == |bs| == Size
    requires forall i :: 0 <= i < Size ==> rs[i] == {} && cs[i] == {} && bs[i] == {}
    ensures IsGrid(Empty) && Tracks(Empty, rs, cs, bs)
  {
    forall u, d ensures d !in UnitDigits(Empty, u) {
      InUnitDigits(Empty, u, d);
    }
  }

  /** Emptying a cell just filled gives back the board it was filled on. */
  lemma WithUndo(g: Grid, r: int, c: int, d: int)
    requires IsGrid(g) && InRange(r, c) && g[r][c] == 0
    ensures IsGrid(With(g, r, c, d)) && With(With(g, r, c, d), r, c, 0) == g
  {
    assert g[r][c := d][c := 0] == g[r];
  }

  /** Removing v from set i after adding it restores s when v was absent. */
  lemma UndoAdd(s: seq<set<int>>, i: int, v: int)
    requires 0 <= i < |s| && v !in s[i]
    ensures var t := s[i := s[i] + {v}]; t[i := t[i] - {v}] == s
  {
    assert s[i] + {v} - {v} == s[i];
  }

  /** Load Puzzle run over a row-0 set that already holds 4 (as after a
      successful solve, which fills row 0 with every digit) leaves 4 in
      that set although row 0 of Puzzle lacks it, so IsValid refuses 4 at
      (0, 2) even though 4 may be placed there (it is the digit the
      solution puts there). */
  lemma StaleRowDigit(before: set<int>)
    requires 4 in before
    ensures 4 in before + UnitDigits(Puzzle, RowUnit(0))
    ensures 4 !in UnitDigits(Puzzle, RowUnit(0))
    ensures CanPlace(Puzzle, 0, 2, 4)
  {
    InUnitDigits(Puzzle, RowUnit(0), 4);
  }

  /** A board whose rows, columns and boxes (taken band by band) each hold
      pairwise distinct values has no clash anywhere. */
  lemma UnitsDistinctClashFree(s: Grid)
    requires IsGrid(s)
    requires forall r, c, b :: 0 <= r < Size && 0 <= c < b < Size ==> s[r][c] != s[r][b]
    requires forall c, r, a :: 0 <= c < Size && 0 <= r < a < Size ==> s[r][c] != s[a][c]
    requires forall r, c, a, b :: (0 <= r < 3 && 0 <= a < 3 && InRange(r, c) && InRange(a, b) &&
      c / 3 == b / 3 && (r, c) != (a, b)) ==> s[r][c] != s[a][b]
    requires forall r, c, a, b :: (3 <= r < 6 && 3 <= a < 6 && InRange(r, c) && InRange(a, b) &&
      c / 3 == b / 3 && (r, c) != (a, b)) ==> s[r][c] != s[a][b]
    requires forall r, c, a, b :: (6 <= r < 9 && 6 <= a < 9 && InRange(r, c) && InRange(a, b) &&
      c / 3 == b / 3 && (r, c) != (a, b)) ==> s[r][c] != s[a][b]
    ensures forall x, y :: InRange(x, y) ==> ClashFree(s, x, y)
  {
    forall x, y, a, b | InRange(x, y) && InRange(a, b) && (a, b) != (x, y) && SameUnit(x, y, a, b)
      ensures s[a][b] != s[x][y]
    {
      if x != a && y != b {
        assert x / 3 == a / 3 && y / 3 == b / 3;
      }
    }
  }

  /** The rows of Solution hold distinct digits. */
  lemma SolutionRowsDistinct()
    ensures forall r, c, b :: 0 <= r < Size && 0 <= c < b < Size ==> Solution[r][c] != Solution[r][b]
  {
  }

  /** The columns of Solution hold distinct digits. */
  lemma SolutionColsDistinct()
    ensures forall c, r, a :: 0 <= c < Size && 0 <= r < a < Size ==> Solution[r][c] != Solution[a][c]
  {
  }

  /** The three boxes of each band of rows of Solution hold distinct digits. */
  lemma SolutionTopBoxesDistinct()
    ensures forall r, c, a, b :: (0 <= r < 3 && 0 <= a < 3 && InRange(r, c) && InRange(a, b) &&
      c / 3 == b / 3 && (r, c) != (a, b)) ==> Solution[r][c] != Solution[a][b]
  {
  }

  lemma SolutionMiddleBoxesDistinct()
    ensures forall r, c, a, b :: (3 <= r < 6 && 3 <= a < 6 && InRange(r, c) && InRange(a, b) &&
      c / 3 == b / 3 && (r, c) != (a, b)) ==> Solution[r][c] != Solution[a][b]
  {
  }

  lemma SolutionBottomBoxesDistinct()
    ensures forall r, c, a, b :: (6 <= r < 9 && 6 <= a < 9 && InRange(r, c) && InRange(a, b) &&
      c / 3 == b / 3 && (r, c) != (a, b)) ==> Solution[r][c] != Solution[a][b]
  {
  }

  /** Every cell of Solution holds a digit 1..9. */
  lemma SolutionDigits()
    ensures IsGrid(Solution) && forall x, y :: InRange(x, y) ==> 1 <= Solution[x][y] <= Size
  {
  }

  /** Solution keeps every given of Puzzle. */
  lemma SolutionExtendsPuzzle()
    ensures IsGrid(Puzzle) && IsGrid(Solution) && Extends(Puzzle, Solution)
  {
  }

  /** Solution completes Puzzle, so the search from Puzzle succeeds. */
  lemma PuzzleSolvable()
    ensures IsGrid(Puzzle) && Completes(Puzzle, Solution)
    ensures Search(Puzzle).Some?
  {
    SolutionDigits();
    SolutionExtendsPuzzle();
    SolutionRowsDistinct();
    SolutionColsDistinct();
    SolutionTopBoxesDistinct();
    SolutionMiddleBoxesDistinct();
    SolutionBottomBoxesDistinct();
    UnitsDistinctClashFree(Solution);
    SearchComplete(Puzzle, Solution);
  }

  /** The program's run: a new solver, Load Puzzle, then Solve. The solve
      succeeds (the "Sudoku Solved!" outcome) and leaves the reference
      search's completion of Puzzle on the board. */
  method LoadAndSolve() returns (solver: SudokuSolver, solved: bool)
    ensures solved
    ensures solver.Shaped() && Search(Puzzle) == Some(solver.Board()) && Completes(Puzzle, solver.Board())
  {
    solver := new SudokuSolver();
    PuzzleIsGrid();
    EmptyWithinUnits(Puzzle, solver.rows[..], solver.cols[..], solver.subgrids[..]);
    solver.LoadPuzzle();
    PuzzleSolvable();
    solved := solver.Solve();
  }
}
