/** The game's own generator and validators (sudoku-game/src/sudokuGenerator.js):
    the same validator and backtracking solver as the expert engine, but on
    boards whose empty cells are `null` (`None` here), the seeding of the
    three diagonal boxes, the removal of a fixed number of cells, and the
    whole-board checks. */
module SimpleGenerator {
  import opened Wrappers
  import opened Grids
  import opened Randomness

  /** A board cell: `null` or a number. */
  type Cell = Option<int>

  // ---------------------------------------------------------------- validator

  /** `isValidMove`: `num` is in none of the row, the column and the box of `(row, col)`. */
  method IsValidMove(board: array2<Cell>, row: int, col: int, num: int) returns (ok: bool)
    requires Is9x9(board) && InGrid(row, col)
    ensures ok <==> !Occurs(Snapshot(board), row, col, Some(num))
  {
    ghost var s := Snapshot(board);
    for x := 0 to 9
      invariant forall k :: 0 <= k < x ==> s[row][k] != Some(num)
    {
      if board[row, x] == Some(num) {
        assert s[row][x] == Some(num);
        return false;
      }
    }
    for x := 0 to 9
      invariant forall k :: 0 <= k < x ==> Col(s, col)[k] != Some(num)
    {
      if board[x, col] == Some(num) {
        assert Col(s, col)[x] == Some(num);
        return false;
      }
    }
    var boxRow, boxCol := BoxStart(row), BoxStart(col);
    for i := 0 to 3
      invariant forall k :: 0 <= k < 3 * i ==> Box(s, boxRow, boxCol)[k] != Some(num)
    {
      for j := 0 to 3
        invariant forall k :: 0 <= k < 3 * i + j ==> Box(s, boxRow, boxCol)[k] != Some(num)
      {
        BoxAt(s, boxRow, boxCol, i, j);
        if board[boxRow + i, boxCol + j] == Some(num) {
          return false;
        }
      }
    }
    return true;
  }

  // ---------------------------------------------------------------- solver

  /** No cell is `null`. */
  ghost predicate NoEmpty(s: seq<seq<Cell>>)
    requires IsBoard(s)
  {
    forall r, c :: InGrid(r, c) ==> s[r][c].Some?
  }

  /** Every filled cell of `s` keeps its value in `t`, and every empty cell
      of `s` is empty or holds a digit in `t`. */
  ghost predicate Keeps(t: seq<seq<Cell>>, s: seq<seq<Cell>>)
    requires IsBoard(t) && IsBoard(s)
  {
    forall r, c :: InGrid(r, c) ==>
      if s[r][c].Some? then t[r][c] == s[r][c] else t[r][c].None? || IsDigit(t[r][c].value)
  }

  lemma KeepsAfterFill(t: seq<seq<Cell>>, s: seq<seq<Cell>>, r: int, c: int, v: int)
    requires IsBoard(t) && IsBoard(s) && InGrid(r, c) && s[r][c].None? && IsDigit(v)
    requires Keeps(t, Update(s, r, c, Some(v)))
    ensures Keeps(t, s)
  {
  }

  /** `solveSudoku`: fills the first empty cell with each digit that fits in
      turn and recurses.  Either every cell ends filled, the filled cells as
      they were and the new ones digits, or the board is exactly as given. */
  method SolveSudoku(board: array2<Cell>) returns (ok: bool)
    requires Is9x9(board)
    modifies board
    decreases Holes(Snapshot(board), None)
    ensures ok ==> NoEmpty(Snapshot(board)) && Keeps(Snapshot(board), old(Snapshot(board)))
    ensures !ok ==> Snapshot(board) == old(Snapshot(board))
    ensures ok && UnitsDistinct(old(Snapshot(board)), None) ==> UnitsDistinct(Snapshot(board), None)
  {
    ghost var s0: seq<seq<Cell>> := Snapshot(board);
    for row := 0 to 9
      invariant Snapshot(board) == s0
      invariant forall i, j :: 0 <= i < row && 0 <= j < 9 ==> s0[i][j].Some?
    {
      for col := 0 to 9
        invariant Snapshot(board) == s0
        invariant forall i, j :: InGrid(i, j) && Before(i, j, Position(row, col)) ==> s0[i][j].Some?
      {
        if board[row, col] == None {
          for num := 1 to 10
            invariant Snapshot(board) == s0
          {
            var valid := IsValidMove(board, row, col, num);
            if valid {
              board[row, col] := Some(num);
              SameBoard(Snapshot(board), Update(s0, row, col, Some(num)));
              FillShrinksHoles(s0, row, col, Some(num), None);
              if UnitsDistinct(s0, None) {
                PlaceKeepsDistinct(s0, row, col, Some(num), None);
              }
              var solved := SolveSudoku(board);
              if solved {
                KeepsAfterFill(Snapshot(board), s0, row, col, num);
                return true;
              }
              board[row, col] := None;
              SameBoard(Snapshot(board), s0);
            }
          }
          return false;
        }
      }
    }
    return true;
  }

  // ---------------------------------------------------------------- complete board

  /** Nine distinct digits: a shuffle of 1..9. */
  ghost predicate DigitPerm(xs: seq<int>) {
    |xs| == 9 && Distinct(xs) && forall i :: 0 <= i < 9 ==> IsDigit(xs[i])
  }

  /** Any rearrangement of `Digits` is a shuffle of 1..9. */
  lemma RearrangedDigits(xs: seq<int>)
    requires multiset(xs) == multiset(Digits)
    ensures DigitPerm(xs)
  {
    assert |xs| == |multiset(xs)| == 9;
    DigitsSpec();
    PermutationDistinct(xs, Digits);
    forall i | 0 <= i < 9
      ensures IsDigit(xs[i])
    {
      assert xs[i] in multiset(Digits);
    }
  }

  lemma DigitsSpec()
    ensures Distinct(Digits)
    ensures forall x :: x in Digits ==> IsDigit(x)
  {
  }

  /** Seeds for the first `|perms|` diagonal boxes, each a shuffle of 1..9. */
  ghost predicate Seeds(perms: seq<seq<int>>) {
    |perms| <= 3 && forall b :: 0 <= b < |perms| ==> |perms[b]| == 9 && DigitPerm(perms[b])
  }

  /** Swapping two entries keeps the multiset. */
  lemma SwapKeepsMultiset(xs: seq<int>, i: int, j: int)
    requires 0 <= i < |xs| && 0 <= j < |xs|
    ensures multiset(xs[i := xs[j]][j := xs[i]]) == multiset(xs)
  {
  }

  /** Lines 52-57: the digits 1..9 shuffled in place (Fisher-Yates). */
  method ShuffleDigits(rng: Random) returns (nums: seq<int>)
    modifies rng
    ensures DigitPerm(nums)
  {
    var a := new int[9](i => i + 1);
    assert a[..] == Digits;
    var i := a.Length - 1;
    while i > 0
      invariant 0 <= i < a.Length
      invariant multiset(a[..]) == multiset(Digits)
      decreases i
    {
      var j := rng.Below(i + 1);
      ghost var before := a[..];
      a[i], a[j] := a[j], a[i];
      assert a[..] == before[i := before[j]][j := before[i]];
      SwapKeepsMultiset(before, i, j);
      i := i - 1;
    }
    nums := a[..];
    RearrangedDigits(nums);
  }

  /** The diagonal box a row (or column) index falls in, 0, 1 or 2. */
  function BoxOf(i: int): (b: int)
    requires 0 <= i < 9
    ensures 0 <= b < 3 && BoxStart(i) == 3 * b
  {
    if i < 3 then 0 else if i < 6 then 1 else 2
  }

  /** Cell `(r, c)` once the first `|perms|` diagonal boxes are seeded, box
      `b` with `perms[b]` row by row; every other cell is `null`. */
  function SeedCell(perms: seq<seq<int>>, r: int, c: int): Cell
    requires InGrid(r, c) && forall b :: 0 <= b < |perms| ==> |perms[b]| == 9
  {
    if BoxOf(r) == BoxOf(c) && BoxOf(r) < |perms|
    then Some(perms[BoxOf(r)][3 * (r - 3 * BoxOf(r)) + (c - 3 * BoxOf(c))])
    else None
  }

  /** The board after seeding with `perms`. */
  ghost function Seeded(perms: seq<seq<int>>): (s: seq<seq<Cell>>)
    requires forall b :: 0 <= b < |perms| ==> |perms[b]| == 9
    ensures IsBoard(s) && forall r, c :: InGrid(r, c) ==> s[r][c] == SeedCell(perms, r, c)
  {
    seq(9, r requires 0 <= r < 9 => seq(9, c requires 0 <= c < 9 => SeedCell(perms, r, c)))
  }

  /** Lines 59-64: write `nums` row by row into the box with origin `(box, box)`. */
  method SeedBox(board: array2<Cell>, box: int, nums: seq<int>)
    requires Is9x9(board) && IsBoxOrigin(box) && |nums| == 9
    modifies board
    ensures forall r, c :: InGrid(r, c) ==>
      board[r, c] == if BoxStart(r) == box && BoxStart(c) == box
                     then Some(nums[3 * (r - box) + (c - box)]) else old(board[r, c])
  {
    var idx := 0;
    for i := 0 to 3
      invariant idx == 3 * i
      invariant forall r, c :: InGrid(r, c) ==>
        board[r, c] == if BoxStart(r) == box && BoxStart(c) == box && r < box + i
                       then Some(nums[3 * (r - box) + (c - box)]) else old(board[r, c])
    {
      for j := 0 to 3
        invariant idx == 3 * i + j
        invariant forall r, c :: InGrid(r, c) ==>
          board[r, c] == if BoxStart(r) == box && BoxStart(c) == box && (r < box + i || (r == box + i && c < box + j))
                         then Some(nums[3 * (r - box) + (c - box)]) else old(board[r, c])
      {
        board[box + i, box + j] := Some(nums[idx]);
        idx := idx + 1;
      }
    }
  }

  /** Seeding one more box changes only that box. */
  lemma SeedStep(perms: seq<seq<int>>, nums: seq<int>)
    requires Seeds(perms) && |perms| < 3 && DigitPerm(nums)
    ensures Seeds(perms + [nums])
    ensures forall r, c :: InGrid(r, c) ==>
      SeedCell(perms + [nums], r, c) ==
        if BoxStart(r) == 3 * |perms| && BoxStart(c) == 3 * |perms|
        then Some(nums[3 * (r - 3 * |perms|) + (c - 3 * |perms|)]) else SeedCell(perms, r, c)
  {
  }

  /** The seeded board fills exactly the three diagonal boxes, box `b` with
      `perms[b]` row by row. */
  lemma SeededShape(perms: seq<seq<int>>)
    requires |perms| == 3 && Seeds(perms)
    ensures forall r, c :: InGrid(r, c) ==> (Seeded(perms)[r][c].Some? <==> BoxStart(r) == BoxStart(c))
    ensures forall b, k :: 0 <= b < 3 && 0 <= k < 9 ==> Box(Seeded(perms), 3 * b, 3 * b)[k] == Some(perms[b][k])
  {
    forall b, k | 0 <= b < 3 && 0 <= k < 9
      ensures Box(Seeded(perms), 3 * b, 3 * b)[k] == Some(perms[b][k])
    {
      var i, j := k / 3, k % 3;
      BoxAt(Seeded(perms), 3 * b, 3 * b, i, j);
      SeededBox(perms, b, i, j);
    }
  }

  lemma SeededBox(perms: seq<seq<int>>, b: int, i: int, j: int)
    requires |perms| == 3 && Seeds(perms) && 0 <= b < 3 && 0 <= i < 3 && 0 <= j < 3
    ensures Seeded(perms)[3 * b + i][3 * b + j] == Some(perms[b][3 * i + j])
  {
    assert BoxOf(3 * b + i) == b && BoxOf(3 * b + j) == b;
  }

  /** The three diagonal boxes share no row or column, so the seeded board
      repeats no digit in any unit. */
  lemma SeededDistinct(perms: seq<seq<int>>)
    requires |perms| == 3 && Seeds(perms)
    ensures UnitsDistinct(Seeded(perms), None)
  {
    var s := Seeded(perms);
    forall r1, c1, r2, c2 |
      InGrid(r1, c1) && InGrid(r2, c2) && (r1 != r2 || c1 != c2) && SameUnit(r1, c1, r2, c2) &&
      s[r1][c1] != None
      ensures s[r1][c1] != s[r2][c2]
    {
      if s[r2][c2] != None {
        var b := BoxOf(r1);
        assert BoxOf(c1) == b && BoxOf(r2) == BoxOf(c2) == b;
        var k1, k2 := 3 * (r1 - 3 * b) + (c1 - 3 * b), 3 * (r2 - 3 * b) + (c2 - 3 * b);
        assert k1 != k2;
      }
    }
    PeersDifferImpliesDistinct(s, None);
  }

  /** A board grown from the seeds `perms`: complete, valid and holding the
      seeds, or the seeded board itself. */
  ghost predicate FromSeeds(s: seq<seq<Cell>>, perms: seq<seq<int>>)
    requires IsBoard(s) && |perms| == 3 && Seeds(perms)
  {
    || (NoEmpty(s) && UnitsDistinct(s, None) && Keeps(s, Seeded(perms)))
    || s == Seeded(perms)
  }

  /** `generateCompleteBoard`: seeds the diagonal boxes with shuffles of
      1..9 (`perms`) and solves the rest.  Whether the solve can fail is not
      modelled, so the board is either complete, valid and still holding the
      seeds, or just the seeded board. */
  method GenerateCompleteBoard(rng: Random) returns (board: array2<Cell>, ghost perms: seq<seq<int>>)
    modifies rng
    ensures fresh(board) && Is9x9(board)
    ensures |perms| == 3 && Seeds(perms)
    ensures FromSeeds(Snapshot(board), perms)
  {
    board := new Cell[9, 9]((r, c) => None);
    perms := [];
    var box := 0;
    while box < 9
      invariant box == 3 * |perms| && |perms| <= 3
      invariant Seeds(perms)
      invariant forall r, c :: InGrid(r, c) ==> board[r, c] == SeedCell(perms, r, c)
    {
      var nums := ShuffleDigits(rng);
      SeedBox(board, box, nums);
      SeedStep(perms, nums);
      perms := perms + [nums];
      box := box + 3;
    }
    SameBoard(Snapshot(board), Seeded(perms));
    SeededDistinct(perms);
    var solved := SolveSudoku(board);
  }

  // ---------------------------------------------------------------- puzzle

  /** The cells to remove for a difficulty name; 45 for any other name. */
  function CellsToRemove(difficulty: string): nat {
    if difficulty == "easy" then 35
    else if difficulty == "medium" then 45
    else if difficulty == "hard" then 55
    else if difficulty == "expert" then 64
    else 45
  }

  lemma CellsToRemoveTable(difficulty: string)
    ensures CellsToRemove(difficulty) in {35, 45, 55, 64}
    ensures difficulty !in {"easy", "hard", "expert"} ==> CellsToRemove(difficulty) == 45
    ensures CellsToRemove("easy") < CellsToRemove("medium") < CellsToRemove("hard") < CellsToRemove("expert")
  {
  }

  /** The filled cells of the board, row by row. */
  method FilledCells(board: array2<Cell>) returns (cells: seq<Position>)
    requires Is9x9(board)
    ensures forall i :: 0 <= i < |cells| ==> InGrid(cells[i].row, cells[i].col) && board[cells[i].row, cells[i].col].Some?
    ensures forall r, c :: InGrid(r, c) && board[r, c].Some? ==> Position(r, c) in cells
  {
    cells := [];
    for r := 0 to 9
      invariant forall i :: 0 <= i < |cells| ==> InGrid(cells[i].row, cells[i].col) && board[cells[i].row, cells[i].col].Some?
      invariant forall i, j :: 0 <= i < r && 0 <= j < 9 && board[i, j].Some? ==> Position(i, j) in cells
    {
      for c := 0 to 9
        invariant forall i :: 0 <= i < |cells| ==> InGrid(cells[i].row, cells[i].col) && board[cells[i].row, cells[i].col].Some?
        invariant forall i, j :: InGrid(i, j) && Before(i, j, Position(r, c)) && board[i, j].Some? ==> Position(i, j) in cells
      {
        if board[r, c] != None {
          cells := cells + [Position(r, c)];
        }
      }
    }
  }

  function Min(a: int, b: int): int {
    if a <= b then a else b
  }

  /** What dealing a puzzle for `difficulty` promises: every filled puzzle
      cell equals the solution's, and the puzzle has `CellsToRemove` more
      empty cells than the solution (all 81, if fewer were filled). */
  ghost predicate Dealt(puzzle: seq<seq<Cell>>, solution: seq<seq<Cell>>, difficulty: string) {
    && IsBoard(puzzle) && IsBoard(solution)
    && (forall r, c :: InGrid(r, c) && puzzle[r][c].Some? ==> puzzle[r][c] == solution[r][c])
    && Count(puzzle, None) == Min(81, Count(solution, None) + CellsToRemove(difficulty))
  }

  /** `generateSudokuPuzzle`: a complete board and an unaliased copy of it
      as the solution, then the random removal of `CellsToRemove(difficulty)`
      cells from the board. */
  method GenerateSudokuPuzzle(difficulty: string, rng: Random)
    returns (puzzle: array2<Cell>, solution: array2<Cell>, level: string, ghost perms: seq<seq<int>>)
    modifies rng
    ensures fresh(puzzle) && fresh(solution) && puzzle != solution && Is9x9(puzzle) && Is9x9(solution)
    ensures level == difficulty
    ensures |perms| == 3 && Seeds(perms) && FromSeeds(Snapshot(solution), perms)
    ensures Dealt(Snapshot(puzzle), Snapshot(solution), difficulty)
  {
    var board;
    board, perms := GenerateCompleteBoard(rng);
    solution := FromRows(Snapshot(board));
    RemoveCells(board, CellsToRemove(difficulty), rng);
    puzzle, level := board, difficulty;
  }

  /** Lines 83-102: empty `cellsToRemove` filled cells, each picked by the
      random source among those still filled, or all of them if fewer are
      left.  No cell changes except to `null`. */
  method RemoveCells(board: array2<Cell>, cellsToRemove: nat, rng: Random)
    requires Is9x9(board)
    modifies board, rng
    ensures forall r, c :: InGrid(r, c) && board[r, c].Some? ==> board[r, c] == old(board[r, c])
    ensures Count(Snapshot(board), None) == Min(81, old(Count(Snapshot(board), None)) + cellsToRemove)
  {
    ghost var start := Snapshot(board);
    var removed := 0;
    var attempts: seq<(int, int, Cell)> := [];
    while removed < cellsToRemove
      invariant removed <= cellsToRemove
      invariant Count(Snapshot(board), None) == Count(start, None) + removed
      invariant forall r, c :: InGrid(r, c) && board[r, c].Some? ==> board[r, c] == start[r][c]
      decreases cellsToRemove - removed
    {
      var filled := FilledCells(board);
      if |filled| == 0 {
        CountAllIff(Snapshot(board), None);
        break;
      }
      var k := rng.Below(|filled|);
      var row, col := filled[k].row, filled[k].col;
      ghost var before := Snapshot(board);
      var backup := board[row, col];
      board[row, col] := None;
      CountUpdate(before, row, col, None, None);
      SameBoard(Snapshot(board), Update(before, row, col, None));
      removed := removed + 1;
      attempts := attempts + [(row, col, backup)];
    }
    CountAtMost81(Snapshot(board), None);
  }

  // ---------------------------------------------------------------- whole-board checks

  /** The values of the non-`null` entries among the first `k`. */
  ghost function SeenValues(xs: seq<Cell>, k: int): set<int>
    requires 0 <= k <= |xs|
  {
    set i | 0 <= i < k && xs[i].Some? :: xs[i].value
  }

  /** One step of a `seen`-set scan: a value already seen is a repeat;
      otherwise the prefix stays free of repeats and the set grows by it. */
  lemma SeenStep(xs: seq<Cell>, k: int)
    requires 0 <= k < |xs| && NoRepeat(xs[..k], None)
    ensures xs[k].Some? && xs[k].value in SeenValues(xs, k) ==> !NoRepeat(xs, None)
    ensures !(xs[k].Some? && xs[k].value in SeenValues(xs, k)) ==>
      NoRepeat(xs[..k + 1], None) &&
      SeenValues(xs, k + 1) == SeenValues(xs, k) + (if xs[k].Some? then {xs[k].value} else {})
  {
    if xs[k].Some? && xs[k].value in SeenValues(xs, k) {
      var i :| 0 <= i < k && xs[i].Some? && xs[i].value == xs[k].value;
      assert xs[i] == xs[k];
    } else {
      var p := xs[..k + 1];
      forall i, j | 0 <= i < j < |p| && p[i] != None
        ensures p[i] != p[j]
      {
        if j < k {
          assert p[i] == xs[..k][i] && p[j] == xs[..k][j];
        } else {
          assert p[i].value in SeenValues(xs, k);
        }
      }
    }
  }

  /** The row loop of `isBoardValid` for one row (lines 121-128). */
  method ScanRow(board: array2<Cell>, row: int) returns (ok: bool)
    requires Is9x9(board) && 0 <= row < 9
    ensures ok <==> NoRepeat(Snapshot(board)[row], None)
  {
    ghost var xs := Snapshot(board)[row];
    var seen: set<int> := {};
    for col := 0 to 9
      invariant seen == SeenValues(xs, col) && NoRepeat(xs[..col], None)
    {
      SeenStep(xs, col);
      var val := board[row, col];
      if val != None {
        if val.value in seen {
          return false;
        }
        seen := seen + {val.value};
      }
    }
    assert xs[..9] == xs;
    return true;
  }

  /** The column loop of `isBoardValid` for one column (lines 133-140). */
  method ScanCol(board: array2<Cell>, col: int) returns (ok: bool)
    requires Is9x9(board) && 0 <= col < 9
    ensures ok <==> NoRepeat(Col(Snapshot(board), col), None)
  {
    ghost var xs := Col(Snapshot(board), col);
    var seen: set<int> := {};
    for row := 0 to 9
      invariant seen == SeenValues(xs, row) && NoRepeat(xs[..row], None)
    {
      SeenStep(xs, row);
      var val := board[row, col];
      if val != None {
        if val.value in seen {
          return false;
        }
        seen := seen + {val.value};
      }
    }
    assert xs[..9] == xs;
    return true;
  }

  /** The box loop of `isBoardValid` for one box (lines 146-155). */
  method ScanBox(board: array2<Cell>, boxRow: int, boxCol: int) returns (ok: bool)
    requires Is9x9(board) && IsBoxOrigin(boxRow) && IsBoxOrigin(boxCol)
    ensures ok <==> NoRepeat(Box(Snapshot(board), boxRow, boxCol), None)
  {
    ghost var s := Snapshot(board);
    ghost var xs := Box(s, boxRow, boxCol);
    var seen: set<int> := {};
    for i := 0 to 3
      invariant seen == SeenValues(xs, 3 * i) && NoRepeat(xs[..3 * i], None)
    {
      for j := 0 to 3
        invariant seen == SeenValues(xs, 3 * i + j) && NoRepeat(xs[..3 * i + j], None)
      {
        SeenStep(xs, 3 * i + j);
        BoxAt(s, boxRow, boxCol, i, j);
        var val := board[boxRow + i, boxCol + j];
        assert 0 <= 3 * i + j < 9 && xs[3 * i + j] == s[boxRow + i][boxCol + j] == val;
        if val != None {
          if val.value in seen {
            return false;
          }
          seen := seen + {val.value};
        }
      }
    }
    assert xs[..9] == xs;
    return true;
  }

  /** `isBoardValid`: no row, column or box repeats a number. */
  method IsBoardValid(board: array2<Cell>) returns (ok: bool)
    requires Is9x9(board)
    ensures ok <==> UnitsDistinct(Snapshot(board), None)
  {
    ghost var s := Snapshot(board);
    for row := 0 to 9
      invariant forall r :: 0 <= r < row ==> NoRepeat(s[r], None)
    {
      ok := ScanRow(board, row);
      if !ok {
        return false;
      }
    }
    for col := 0 to 9
      invariant forall c :: 0 <= c < col ==> NoRepeat(Col(s, c), None)
    {
      ok := ScanCol(board, col);
      if !ok {
        return false;
      }
    }
    var boxRow := 0;
    while boxRow < 9
      invariant boxRow in {0, 3, 6, 9}
      invariant forall br, bc :: IsBoxOrigin(br) && br < boxRow && IsBoxOrigin(bc) ==> NoRepeat(Box(s, br, bc), None)
    {
      var boxCol := 0;
      while boxCol < 9
        invariant boxCol in {0, 3, 6, 9}
        invariant forall br, bc :: IsBoxOrigin(br) && IsBoxOrigin(bc) && (br < boxRow || (br == boxRow && bc < boxCol)) ==>
          NoRepeat(Box(s, br, bc), None)
      {
        ok := ScanBox(board, boxRow, boxCol);
        if !ok {
          return false;
        }
        boxCol := boxCol + 3;
      }
      boxRow := boxRow + 3;
    }
    return true;
  }

  /** `isBoardComplete`: no cell is `null` and the board is valid. */
  method IsBoardComplete(board: array2<Cell>) returns (ok: bool)
    requires Is9x9(board)
    ensures ok <==> NoEmpty(Snapshot(board)) && UnitsDistinct(Snapshot(board), None)
  {
    for row := 0 to 9
      invariant forall i, j :: 0 <= i < row && 0 <= j < 9 ==> board[i, j].Some?
    {
      for col := 0 to 9
        invariant forall j :: 0 <= j < col ==> board[row, j].Some?
      {
        if board[row, col] == None {
          return false;
        }
      }
    }
    ok := IsBoardValid(board);
  }

  /** `getPossibleValues`: nothing for a filled cell; for an empty one,
      every digit that passes `isValidMove`, ascending. */
  method GetPossibleValues(board: array2<Cell>, row: int, col: int) returns (possible: seq<int>)
    requires Is9x9(board) && InGrid(row, col)
    ensures board[row, col].Some? ==> possible == []
    ensures forall i, j :: 0 <= i < j < |possible| ==> possible[i] < possible[j]
    ensures board[row, col].None? ==>
      forall n :: n in possible <==> IsDigit(n) && !Occurs(Snapshot(board), row, col, Some(n))
  {
    if board[row, col] != None {
      return [];
    }
    possible := [];
    for num := 1 to 10
      invariant forall i, j :: 0 <= i < j < |possible| ==> possible[i] < possible[j]
      invariant forall i :: 0 <= i < |possible| ==> 1 <= possible[i] < num
      invariant forall n :: n in possible <==> 1 <= n < num && !Occurs(Snapshot(board), row, col, Some(n))
    {
      var ok := IsValidMove(board, row, col, num);
      if ok {
        possible := possible + [num];
      }
    }
  }

  /** `countEmptyCells`: the number of `null` cells, at most 81. */
  method CountEmptyCells(board: array2<Cell>) returns (count: nat)
    requires Is9x9(board)
    ensures count == Count(Snapshot(board), None) && count <= 81
  {
    ghost var s := Snapshot(board);
    count := 0;
    for row := 0 to 9
      invariant count == multiset(Flat(s[..row]))[None]
    {
      for col := 0 to 9
        invariant count == multiset(Flat(s[..row]))[None] + multiset(s[row][..col])[None]
      {
        CountCellStep(s[row], col, None);
        if board[row, col] == None {
          count := count + 1;
        }
      }
      assert s[row][..9] == s[row];
      CountRowStep(s, row, None);
    }
    CountAllRows(s, None);
    CountAtMost81(s, None);
  }
}
