/** The grid algorithms of `ExpertSudokuGenerator` (sudoku-expert-generator.js):
    the placement validator, the candidate list, the backtracking fill, the
    naked/hidden-single propagator and the X-Wing and cell-importance
    heuristics.  Grids are 9x9 `array2<int>` with `0` for an empty cell. */
module ExpertSolver {
  import opened Wrappers
  import opened Grids
  import opened Randomness

  // ---------------------------------------------------------------- placement

  /** `isValidPlacement`: `num` is in none of the row, the column and the box of `(row, col)`. */
  method IsValidPlacement(grid: array2<int>, row: int, col: int, num: int) returns (ok: bool)
    requires Is9x9(grid) && InGrid(row, col)
    ensures ok <==> !Occurs(Snapshot(grid), row, col, num)
  {
    ghost var s := Snapshot(grid);
    for c := 0 to 9
      invariant forall k :: 0 <= k < c ==> s[row][k] != num
    {
      if grid[row, c] == num {
        assert s[row][c] == num;
        return false;
      }
    }
    for r := 0 to 9
      invariant forall k :: 0 <= k < r ==> Col(s, col)[k] != num
    {
      if grid[r, col] == num {
        assert Col(s, col)[r] == num;
        return false;
      }
    }
    var boxRow, boxCol := BoxStart(row), BoxStart(col);
    for r := boxRow to boxRow + 3
      invariant forall k :: 0 <= k < 3 * (r - boxRow) ==> Box(s, boxRow, boxCol)[k] != num
    {
      for c := boxCol to boxCol + 3
        invariant forall k :: 0 <= k < 3 * (r - boxRow) + (c - boxCol) ==> Box(s, boxRow, boxCol)[k] != num
      {
        BoxAt(s, boxRow, boxCol, r - boxRow, c - boxCol);
        if grid[r, c] == num {
          return false;
        }
      }
    }
    return true;
  }

  /** The digits `1..k` that can be placed at `(r, c)`, ascending. */
  ghost function CandidatesUpTo(s: seq<seq<int>>, r: int, c: int, k: int): seq<int>
    requires IsBoard(s) && InGrid(r, c) && 0 <= k <= 9
  {
    if k == 0 then [] else CandidatesUpTo(s, r, c, k - 1) + (if Occurs(s, r, c, k) then [] else [k])
  }

  ghost function Candidates(s: seq<seq<int>>, r: int, c: int): seq<int>
    requires IsBoard(s) && InGrid(r, c)
  {
    CandidatesUpTo(s, r, c, 9)
  }

  lemma {:induction false} CandidatesUpToSpec(s: seq<seq<int>>, r: int, c: int, k: int)
    requires IsBoard(s) && InGrid(r, c) && 0 <= k <= 9
    ensures forall i, j :: 0 <= i < j < |CandidatesUpTo(s, r, c, k)| ==>
      CandidatesUpTo(s, r, c, k)[i] < CandidatesUpTo(s, r, c, k)[j]
    ensures forall n :: n in CandidatesUpTo(s, r, c, k) <==> 1 <= n <= k && !Occurs(s, r, c, n)
  {
    if k > 0 {
      var prev := CandidatesUpTo(s, r, c, k - 1);
      CandidatesUpToSpec(s, r, c, k - 1);
      assert forall i :: 0 <= i < |prev| ==> prev[i] in prev;
    }
  }

  /** The candidates of a cell are exactly the placeable digits, in ascending order. */
  lemma CandidatesSpec(s: seq<seq<int>>, r: int, c: int)
    requires IsBoard(s) && InGrid(r, c)
    ensures forall i, j :: 0 <= i < j < |Candidates(s, r, c)| ==> Candidates(s, r, c)[i] < Candidates(s, r, c)[j]
    ensures forall n :: n in Candidates(s, r, c) <==> IsDigit(n) && !Occurs(s, r, c, n)
  {
    CandidatesUpToSpec(s, r, c, 9);
  }

  /** `getPossibleValues`: every digit that passes `isValidPlacement`, in
      ascending order, whether or not the cell is already filled. */
  method GetPossibleValues(grid: array2<int>, row: int, col: int) returns (possible: seq<int>)
    requires Is9x9(grid) && InGrid(row, col)
    ensures possible == Candidates(Snapshot(grid), row, col)
    ensures forall i, j :: 0 <= i < j < |possible| ==> possible[i] < possible[j]
    ensures forall n :: n in possible <==> IsDigit(n) && !Occurs(Snapshot(grid), row, col, n)
  {
    ghost var s := Snapshot(grid);
    possible := [];
    for num := 1 to 10
      invariant possible == CandidatesUpTo(s, row, col, num - 1)
    {
      var ok := IsValidPlacement(grid, row, col, num);
      if ok {
        possible := possible + [num];
      }
    }
    CandidatesSpec(s, row, col);
  }

  // ---------------------------------------------------------------- scans

  /** `findEmptyCell`: the first empty cell in row-major order, if any. */
  method FindEmptyCell(grid: array2<int>) returns (cell: Option<Position>)
    requires Is9x9(grid)
    ensures cell.None? <==> forall r, c :: InGrid(r, c) ==> grid[r, c] != 0
    ensures cell.Some? ==>
      InGrid(cell.value.row, cell.value.col) && grid[cell.value.row, cell.value.col] == 0 &&
      forall r, c :: InGrid(r, c) && Before(r, c, cell.value) ==> grid[r, c] != 0
  {
    for r := 0 to 9
      invariant forall i, j :: 0 <= i < r && 0 <= j < 9 ==> grid[i, j] != 0
    {
      for c := 0 to 9
        invariant forall i, j :: InGrid(i, j) && Before(i, j, Position(r, c)) ==> grid[i, j] != 0
      {
        if grid[r, c] == 0 {
          return Some(Position(r, c));
        }
      }
    }
    return None;
  }

  /** `isSolved`: no cell is empty. */
  method IsSolved(grid: array2<int>) returns (solved: bool)
    requires Is9x9(grid)
    ensures solved <==> forall r, c :: InGrid(r, c) ==> grid[r, c] != 0
  {
    for r := 0 to 9
      invariant forall i, j :: 0 <= i < r && 0 <= j < 9 ==> grid[i, j] != 0
    {
      for c := 0 to 9
        invariant forall j :: 0 <= j < c ==> grid[r, j] != 0
      {
        if grid[r, c] == 0 {
          return false;
        }
      }
    }
    return true;
  }

  /** The number of filled cells. */
  ghost function Clues(s: seq<seq<int>>): int
    requires IsBoard(s)
  {
    81 - Count(s, 0)
  }

  /** `countClues`: the number of non-empty cells, between 0 and 81. */
  method CountClues(puzzle: array2<int>) returns (count: nat)
    requires Is9x9(puzzle)
    ensures count == Clues(Snapshot(puzzle)) && count <= 81
  {
    ghost var s := Snapshot(puzzle);
    count := 0;
    for r := 0 to 9
      invariant count + multiset(Flat(s[..r]))[0] == 9 * r
    {
      for c := 0 to 9
        invariant count + multiset(Flat(s[..r]))[0] + multiset(s[r][..c])[0] == 9 * r + c
      {
        CountCellStep(s[r], c, 0);
        if puzzle[r, c] != 0 {
          count := count + 1;
        }
      }
      assert s[r][..9] == s[r];
      CountRowStep(s, r, 0);
    }
    CountAllRows(s, 0);
  }

  // ---------------------------------------------------------------- shuffle and fill

  /** `shuffleArray`: Fisher-Yates on a copy; the result is a permutation of the input. */
  method ShuffleArray<T>(xs: seq<T>, rng: Random) returns (shuffled: seq<T>)
    modifies rng
    ensures |shuffled| == |xs| && multiset(shuffled) == multiset(xs)
  {
    if |xs| == 0 {
      return [];
    }
    var a := new T[|xs|](i requires 0 <= i < |xs| => xs[i]);
    assert a[..] == xs;
    var i := a.Length - 1;
    while i > 0
      invariant 0 <= i < a.Length
      invariant multiset(a[..]) == multiset(xs)
      decreases i
    {
      var j := rng.Below(i + 1);
      a[i], a[j] := a[j], a[i];
      i := i - 1;
    }
    shuffled := a[..];
  }

  /** Every non-empty cell of `s` keeps its value in `t`, and every empty cell
      of `s` is empty or holds a digit in `t`. */
  ghost predicate Extends(t: seq<seq<int>>, s: seq<seq<int>>)
    requires IsBoard(t) && IsBoard(s)
  {
    forall r, c :: InGrid(r, c) ==>
      if s[r][c] != 0 then t[r][c] == s[r][c] else t[r][c] == 0 || IsDigit(t[r][c])
  }

  ghost predicate Complete(s: seq<seq<int>>)
    requires IsBoard(s)
  {
    forall r, c :: InGrid(r, c) ==> s[r][c] != 0
  }

  lemma ExtendsAfterFill(t: seq<seq<int>>, s: seq<seq<int>>, r: int, c: int, v: int)
    requires IsBoard(t) && IsBoard(s) && InGrid(r, c) && s[r][c] == 0 && IsDigit(v)
    requires Extends(t, Update(s, r, c, v))
    ensures Extends(t, s)
  {
  }

  /** The digits in the order the fill tries them: `1..9`, or a shuffle of them (line 76). */
  method DigitOrder(randomize: bool, rng: Random) returns (numbers: seq<int>)
    modifies rng
    ensures multiset(numbers) == multiset(Digits)
    ensures !randomize ==> numbers == Digits
    ensures |numbers| == 9 && forall i :: 0 <= i < |numbers| ==> IsDigit(numbers[i])
  {
    var digits := Digits;
    assert forall x :: x in digits ==> IsDigit(x);
    numbers := digits;
    if randomize {
      numbers := ShuffleArray(digits, rng);
      forall i | 0 <= i < |numbers|
        ensures IsDigit(numbers[i])
      {
        assert numbers[i] in multiset(numbers);
        assert numbers[i] in multiset(digits);
      }
    }
  }

  /** `fillGridWithBacktracking`: either completes the grid, keeping every
      given cell and writing only digits, or leaves it exactly as it was. */
  method FillGridWithBacktracking(grid: array2<int>, randomize: bool, rng: Random) returns (ok: bool)
    requires Is9x9(grid)
    modifies grid, rng
    decreases Holes(Snapshot(grid), 0), 2
    ensures ok ==> Complete(Snapshot(grid)) && Extends(Snapshot(grid), old(Snapshot(grid)))
    ensures !ok ==> Snapshot(grid) == old(Snapshot(grid))
    ensures ok && UnitsDistinct(old(Snapshot(grid)), 0) ==> UnitsDistinct(Snapshot(grid), 0)
  {
    var empty := FindEmptyCell(grid);
    if empty.None? {
      return true;
    }
    var numbers := DigitOrder(randomize, rng);
    ok := TryDigits(grid, empty.value.row, empty.value.col, numbers, randomize, rng);
  }

  /** The loop at lines 78-88: try each digit of `numbers` at the empty cell
      in turn, stopping at the first that leads to a complete grid. */
  method TryDigits(grid: array2<int>, row: int, col: int, numbers: seq<int>, randomize: bool, rng: Random) returns (ok: bool)
    requires Is9x9(grid) && InGrid(row, col) && grid[row, col] == 0
    requires forall i :: 0 <= i < |numbers| ==> IsDigit(numbers[i])
    modifies grid, rng
    decreases Holes(Snapshot(grid), 0), 1
    ensures ok ==> Complete(Snapshot(grid)) && Extends(Snapshot(grid), old(Snapshot(grid)))
    ensures !ok ==> Snapshot(grid) == old(Snapshot(grid))
    ensures ok && UnitsDistinct(old(Snapshot(grid)), 0) ==> UnitsDistinct(Snapshot(grid), 0)
  {
    ghost var s0 := Snapshot(grid);
    for i := 0 to |numbers|
      invariant Snapshot(grid) == s0 && grid[row, col] == 0
    {
      ok := TryDigit(grid, row, col, numbers[i], randomize, rng);
      if ok {
        return true;
      }
    }
    return false;
  }

  /** One pass of the loop at lines 78-88: place `num` at the empty cell if
      it is valid and recurse, undoing the placement when that fails. */
  method TryDigit(grid: array2<int>, row: int, col: int, num: int, randomize: bool, rng: Random) returns (ok: bool)
    requires Is9x9(grid) && InGrid(row, col) && grid[row, col] == 0 && IsDigit(num)
    modifies grid, rng
    decreases Holes(Snapshot(grid), 0), 0
    ensures ok ==> Complete(Snapshot(grid)) && Extends(Snapshot(grid), old(Snapshot(grid)))
    ensures !ok ==> Snapshot(grid) == old(Snapshot(grid))
    ensures ok && UnitsDistinct(old(Snapshot(grid)), 0) ==> UnitsDistinct(Snapshot(grid), 0)
  {
    ghost var s0 := Snapshot(grid);
    var valid := IsValidPlacement(grid, row, col, num);
    if !valid {
      return false;
    }
    grid[row, col] := num;
    ghost var s1 := Update(s0, row, col, num);
    SameBoard(Snapshot(grid), s1);
    FillShrinksHoles(s0, row, col, num, 0);
    if UnitsDistinct(s0, 0) {
      PlaceKeepsDistinct(s0, row, col, num, 0);
    }
    ok := FillGridWithBacktracking(grid, randomize, rng);
    if ok {
      ExtendsAfterFill(Snapshot(grid), s0, row, col, num);
      return true;
    }
    grid[row, col] := 0;
    SameBoard(Snapshot(grid), s0);
  }

  /** A complete grid of digits repeating no digit in a unit, or the empty grid. */
  ghost predicate SolvedOrBlank(s: seq<seq<int>>)
    requires IsBoard(s)
  {
    || (Complete(s) && UnitsDistinct(s, 0) && forall r, c :: InGrid(r, c) ==> IsDigit(s[r][c]))
    || (forall r, c :: InGrid(r, c) ==> s[r][c] == 0)
  }

  /** `generateCompleteSolution`: a fresh grid filled from empty with
      randomized backtracking.  Whether the fill can fail is not modelled, so
      the result is either a complete grid of digits with no unit repeating a
      digit, or the empty grid. */
  method GenerateCompleteSolution(rng: Random) returns (grid: array2<int>)
    modifies rng
    ensures fresh(grid) && Is9x9(grid) && SolvedOrBlank(Snapshot(grid))
  {
    grid := new int[9, 9]((r, c) => 0);
    ghost var s0 := Snapshot(grid);
    BlankDistinct(s0, 0);
    var ok := FillGridWithBacktracking(grid, true, rng);
  }

  // ---------------------------------------------------------------- singles

  /** The indices among `0..k-1` at which `fits` holds, ascending. */
  ghost function Marked(fits: seq<bool>, k: int): (t: seq<int>)
    requires 0 <= k <= |fits|
    ensures forall i :: 0 <= i < |t| ==> 0 <= t[i] < k
    ensures forall i, j :: 0 <= i < j < |t| ==> t[i] < t[j]
  {
    if k == 0 then []
    else Marked(fits, k - 1) + (if fits[k - 1] then [k - 1] else [])
  }

  lemma {:induction false} MarkedSound(fits: seq<bool>, k: int)
    requires 0 <= k <= |fits|
    ensures forall i :: 0 <= i < |Marked(fits, k)| ==> fits[Marked(fits, k)[i]]
  {
    if k > 0 {
      MarkedSound(fits, k - 1);
    }
  }

  lemma {:induction false} MarkedComplete(fits: seq<bool>, k: int, c: int)
    requires 0 <= c < k <= |fits| && fits[c]
    ensures c in Marked(fits, k)
  {
    if c < k - 1 {
      MarkedComplete(fits, k - 1, c);
    }
  }

  /** For each column of row `r`: the cell is empty and can take `n`. */
  ghost function RowFits(s: seq<seq<int>>, r: int, n: int): (f: seq<bool>)
    requires IsBoard(s) && 0 <= r < 9
    ensures |f| == 9 && forall c :: 0 <= c < 9 ==> f[c] == (s[r][c] == 0 && !Occurs(s, r, c, n))
  {
    seq(9, c requires 0 <= c < 9 => s[r][c] == 0 && !Occurs(s, r, c, n))
  }

  /** The columns among `0..k-1` of row `r` that are empty and can take `n`, ascending. */
  ghost function SlotsUpTo(s: seq<seq<int>>, r: int, n: int, k: int): seq<int>
    requires IsBoard(s) && 0 <= r < 9 && 0 <= k <= 9
  {
    Marked(RowFits(s, r, n), k)
  }

  /** Every slot is an empty cell that can take `n`. */
  lemma SlotsUpToSound(s: seq<seq<int>>, r: int, n: int, k: int)
    requires IsBoard(s) && 0 <= r < 9 && 0 <= k <= 9
    ensures forall i :: 0 <= i < |SlotsUpTo(s, r, n, k)| ==>
      s[r][SlotsUpTo(s, r, n, k)[i]] == 0 && !Occurs(s, r, SlotsUpTo(s, r, n, k)[i], n)
  {
    MarkedSound(RowFits(s, r, n), k);
  }

  /** The empty cells of row `r` where `n` could go. */
  ghost function RowSlots(s: seq<seq<int>>, r: int, n: int): seq<int>
    requires IsBoard(s) && 0 <= r < 9
  {
    SlotsUpTo(s, r, n, 9)
  }

  /** A slot list leaves out no empty column that can take `n`. */
  lemma SlotsUpToComplete(s: seq<seq<int>>, r: int, n: int, k: int, c: int)
    requires IsBoard(s) && 0 <= r < 9 && 0 <= k <= 9
    requires 0 <= c < k && s[r][c] == 0 && !Occurs(s, r, c, n)
    ensures c in SlotsUpTo(s, r, n, k)
  {
    MarkedComplete(RowFits(s, r, n), k, c);
  }

  /** Row `r` has exactly one cell where digit `n` could go: a hidden single. */
  ghost predicate HiddenSingleAt(s: seq<seq<int>>, r: int, n: int)
    requires IsBoard(s) && 0 <= r < 9
  {
    IsDigit(n) && |RowSlots(s, r, n)| == 1
  }

  /** No hidden single comes before `(row, num)` in the order rows, then digits. */
  ghost predicate NoHiddenSingleBefore(s: seq<seq<int>>, row: int, num: int)
    requires IsBoard(s)
  {
    forall r, n :: 0 <= r < 9 && (r < row || (r == row && n < num)) ==> !HiddenSingleAt(s, r, n)
  }

  ghost predicate NoHiddenSingle(s: seq<seq<int>>)
    requires IsBoard(s)
  {
    NoHiddenSingleBefore(s, 9, 0)
  }

  /** The first hidden single at or after `(row, num)` in the order rows, then digits. */
  ghost function FirstHiddenFrom(s: seq<seq<int>>, row: int, num: int): Option<(int, int)>
    requires IsBoard(s) && 0 <= row <= 9 && 1 <= num <= 10
    decreases 9 - row, 10 - num
  {
    if row == 9 then None
    else if num == 10 then FirstHiddenFrom(s, row + 1, 1)
    else if HiddenSingleAt(s, row, num) then Some((row, num))
    else FirstHiddenFrom(s, row, num + 1)
  }

  ghost function FirstHidden(s: seq<seq<int>>): Option<(int, int)>
    requires IsBoard(s)
  {
    FirstHiddenFrom(s, 0, 1)
  }

  /** The search finds a hidden single with none before it, or there is none. */
  lemma {:induction false} FirstHiddenFromSpec(s: seq<seq<int>>, row: int, num: int)
    requires IsBoard(s) && 0 <= row <= 9 && 1 <= num <= 10 && NoHiddenSingleBefore(s, row, num)
    ensures FirstHiddenFrom(s, row, num).None? ==> NoHiddenSingle(s)
    ensures FirstHiddenFrom(s, row, num).Some? ==>
      var r, n := FirstHiddenFrom(s, row, num).value.0, FirstHiddenFrom(s, row, num).value.1;
      0 <= r < 9 && HiddenSingleAt(s, r, n) && NoHiddenSingleBefore(s, r, n)
    decreases 9 - row, 10 - num
  {
    if row == 9 {
    } else if num == 10 {
      assert NoHiddenSingleBefore(s, row + 1, 1) by {
        forall r, n | 0 <= r < 9 && (r < row + 1 || (r == row + 1 && n < 1))
          ensures !HiddenSingleAt(s, r, n)
        {
          if r == row && n >= 10 {
            assert !IsDigit(n);
          }
        }
      }
      FirstHiddenFromSpec(s, row + 1, 1);
    } else if !HiddenSingleAt(s, row, num) {
      FirstHiddenFromSpec(s, row, num + 1);
    }
  }

  /** The first hidden single in scan order is the search's answer. */
  lemma FirstHiddenIs(s: seq<seq<int>>, r: int, n: int)
    requires IsBoard(s) && 0 <= r < 9 && HiddenSingleAt(s, r, n) && NoHiddenSingleBefore(s, r, n)
    ensures FirstHidden(s) == Some((r, n))
  {
    FirstHiddenFromSpec(s, 0, 1);
    var r2, n2 := FirstHidden(s).value.0, FirstHidden(s).value.1;
    assert !(r2 < r || (r2 == r && n2 < n));
    assert !(r < r2 || (r == r2 && n < n2));
  }

  /** One application of `applyHiddenSingles` as a function of the grid: the
      first row hidden single written into its only place, or the grid
      itself when there is none. */
  ghost function HiddenStep(s: seq<seq<int>>): (t: seq<seq<int>>)
    requires IsBoard(s)
    ensures IsBoard(t)
  {
    FirstHiddenFromSpec(s, 0, 1);
    match FirstHidden(s)
    case None => s
    case Some((r, n)) => Update(s, r, RowSlots(s, r, n)[0], n)
  }

  /** A hidden-single step changes the grid exactly when there is a hidden
      single; it then fills one hole with a digit that can go there. */
  lemma HiddenStepFacts(s: seq<seq<int>>)
    requires IsBoard(s)
    ensures Extends(HiddenStep(s), s)
    ensures HiddenStep(s) != s <==> FirstHidden(s).Some?
    ensures HiddenStep(s) != s ==> Holes(HiddenStep(s), 0) < Holes(s, 0)
    ensures HiddenStep(s) == s ==> NoHiddenSingle(s)
    ensures UnitsDistinct(s, 0) ==> UnitsDistinct(HiddenStep(s), 0)
  {
    FirstHiddenFromSpec(s, 0, 1);
    if FirstHidden(s).Some? {
      var r, n := FirstHidden(s).value.0, FirstHidden(s).value.1;
      var c := RowSlots(s, r, n)[0];
      SlotsUpToSound(s, r, n, 9);
      FillStep(s, s, r, c, n);
    }
  }

  /** `applyHiddenSingles` (rows only, as in the source): fills the first
      hidden single in the order rows, then digits, and reports whether it
      found one; with none, the grid is unchanged. */
  method ApplyHiddenSingles(puzzle: array2<int>) returns (changed: bool, ghost row: int, ghost num: int)
    requires Is9x9(puzzle)
    modifies puzzle
    ensures changed ==>
      && 0 <= row < 9
      && HiddenSingleAt(old(Snapshot(puzzle)), row, num)
      && NoHiddenSingleBefore(old(Snapshot(puzzle)), row, num)
      && Snapshot(puzzle) == Update(old(Snapshot(puzzle)), row, RowSlots(old(Snapshot(puzzle)), row, num)[0], num)
    ensures !changed ==> Snapshot(puzzle) == old(Snapshot(puzzle)) && NoHiddenSingle(old(Snapshot(puzzle)))
    ensures changed <==> FirstHidden(old(Snapshot(puzzle))).Some?
    ensures Snapshot(puzzle) == HiddenStep(old(Snapshot(puzzle)))
  {
    ghost var s := Snapshot(puzzle);
    for r := 0 to 9
      invariant Snapshot(puzzle) == s && NoHiddenSingleBefore(s, r, 0)
    {
      for n := 1 to 10
        invariant Snapshot(puzzle) == s && NoHiddenSingleBefore(s, r, n)
      {
        var positions := [];
        for c := 0 to 9
          invariant Snapshot(puzzle) == s && positions == SlotsUpTo(s, r, n, c)
        {
          if puzzle[r, c] == 0 {
            var ok := IsValidPlacement(puzzle, r, c, n);
            if ok {
              positions := positions + [c];
            }
          }
        }
        if |positions| == 1 {
          puzzle[r, positions[0]] := n;
          SameBoard(Snapshot(puzzle), Update(s, r, positions[0], n));
          FirstHiddenIs(s, r, n);
          return true, r, n;
        }
      }
    }
    FirstHiddenFromSpec(s, 0, 1);
    return false, 0, 0;
  }

  /** Cell `(r, c)` is empty and has exactly one candidate: a naked single. */
  ghost predicate NakedSingleAt(s: seq<seq<int>>, r: int, c: int)
    requires IsBoard(s) && InGrid(r, c)
  {
    s[r][c] == 0 && |Candidates(s, r, c)| == 1
  }

  ghost predicate NoNakedSingleBefore(s: seq<seq<int>>, p: Position)
    requires IsBoard(s)
  {
    forall r, c :: InGrid(r, c) && Before(r, c, p) ==> !NakedSingleAt(s, r, c)
  }

  ghost predicate NoNakedSingle(s: seq<seq<int>>)
    requires IsBoard(s)
  {
    NoNakedSingleBefore(s, Position(9, 0))
  }

  lemma ExtendsTrans(a: seq<seq<int>>, b: seq<seq<int>>, c: seq<seq<int>>)
    requires IsBoard(a) && IsBoard(b) && IsBoard(c) && Extends(a, b) && Extends(b, c)
    ensures Extends(a, c)
  {
  }

  /** Gaining digits in empty cells never creates a hole. */
  lemma ExtendsHoles(t: seq<seq<int>>, s: seq<seq<int>>)
    requires IsBoard(t) && IsBoard(s) && Extends(t, s)
    ensures Holes(t, 0) <= Holes(s, 0)
  {
    forall p | p in Holes(t, 0)
      ensures p in Holes(s, 0)
    {
      assert InGrid(p.row, p.col);
    }
  }

  /** Writing a placeable digit into an empty cell: one hole fewer, the grid
      extends the old one, and a grid without repeats stays without repeats. */
  lemma FillStep(before: seq<seq<int>>, s0: seq<seq<int>>, r: int, c: int, v: int)
    requires IsBoard(before) && IsBoard(s0) && InGrid(r, c)
    requires before[r][c] == 0 && IsDigit(v) && !Occurs(before, r, c, v) && Extends(before, s0)
    ensures Holes(Update(before, r, c, v), 0) < Holes(before, 0)
    ensures Extends(Update(before, r, c, v), s0)
    ensures SweepInvariant(before, s0, false) ==> SweepInvariant(Update(before, r, c, v), s0, true)
    ensures UnitsDistinct(before, 0) ==> UnitsDistinct(Update(before, r, c, v), 0)
  {
    FillShrinksHoles(before, r, c, v, 0);
    ExtendsTrans(Update(before, r, c, v), before, s0);
    if UnitsDistinct(before, 0) {
      PlaceKeepsDistinct(before, r, c, v, 0);
    }
  }

  /** The sweep's effect on cell `(r, c)`: a naked single receives its only
      candidate; any other cell is left alone. */
  ghost function SweepCell(s: seq<seq<int>>, r: int, c: int): (t: seq<seq<int>>)
    requires IsBoard(s) && InGrid(r, c)
    ensures IsBoard(t)
  {
    if NakedSingleAt(s, r, c) then Update(s, r, c, Candidates(s, r, c)[0]) else s
  }

  /** The naked-single sweep from cell `(r, c)` to the end in row-major
      order, each cell judged on the grid as the sweep has left it so far. */
  ghost function SweepFrom(s: seq<seq<int>>, r: int, c: int): (t: seq<seq<int>>)
    requires IsBoard(s) && 0 <= r <= 9 && 0 <= c <= 9
    ensures IsBoard(t)
    decreases 9 - r, 9 - c
  {
    if r == 9 then s
    else if c == 9 then SweepFrom(s, r + 1, 0)
    else SweepFrom(SweepCell(s, r, c), r, c + 1)
  }

  /** One whole naked-single sweep (lines 382-392). */
  ghost function Sweep(s: seq<seq<int>>): (t: seq<seq<int>>)
    requires IsBoard(s)
    ensures IsBoard(t)
  {
    SweepFrom(s, 0, 0)
  }

  /** No cell at or after `p` in row-major order is a naked single. */
  ghost predicate NoNakedSingleFrom(s: seq<seq<int>>, p: Position)
    requires IsBoard(s)
  {
    forall r, c :: InGrid(r, c) && !Before(r, c, p) ==> !NakedSingleAt(s, r, c)
  }

  /** The sweep's step at one cell fills a hole with a placeable digit, or
      leaves the grid alone when the cell is no naked single. */
  lemma SweepCellFacts(s: seq<seq<int>>, r: int, c: int)
    requires IsBoard(s) && InGrid(r, c)
    ensures Extends(SweepCell(s, r, c), s)
    ensures SweepCell(s, r, c) != s ==> Holes(SweepCell(s, r, c), 0) < Holes(s, 0)
    ensures SweepCell(s, r, c) == s ==> !NakedSingleAt(s, r, c)
    ensures UnitsDistinct(s, 0) ==> UnitsDistinct(SweepCell(s, r, c), 0)
  {
    if NakedSingleAt(s, r, c) {
      CandidatesSpec(s, r, c);
      var v := Candidates(s, r, c)[0];
      assert v in Candidates(s, r, c);
      FillStep(s, s, r, c, v);
    }
  }

  lemma NoNakedFromStep(s: seq<seq<int>>, r: int, c: int)
    requires IsBoard(s) && InGrid(r, c) && !NakedSingleAt(s, r, c) && NoNakedSingleFrom(s, Position(r, c + 1))
    ensures NoNakedSingleFrom(s, Position(r, c))
  {
  }

  lemma NoNakedFromRowEnd(s: seq<seq<int>>, r: int)
    requires IsBoard(s) && 0 <= r < 9 && NoNakedSingleFrom(s, Position(r + 1, 0))
    ensures NoNakedSingleFrom(s, Position(r, 9))
  {
    assert forall i, j :: InGrid(i, j) ==> (Before(i, j, Position(r, 9)) <==> Before(i, j, Position(r + 1, 0)));
  }

  /** What a partial sweep does: it only fills holes with placeable digits,
      and it leaves the grid as it was only when no naked single lies ahead. */
  lemma {:induction false} SweepFromFacts(s: seq<seq<int>>, r: int, c: int)
    requires IsBoard(s) && 0 <= r <= 9 && 0 <= c <= 9
    ensures Extends(SweepFrom(s, r, c), s)
    ensures SweepFrom(s, r, c) != s ==> Holes(SweepFrom(s, r, c), 0) < Holes(s, 0)
    ensures SweepFrom(s, r, c) == s ==> NoNakedSingleFrom(s, Position(r, c))
    ensures UnitsDistinct(s, 0) ==> UnitsDistinct(SweepFrom(s, r, c), 0)
    decreases 9 - r, 9 - c
  {
    if r == 9 {
    } else if c == 9 {
      SweepFromFacts(s, r + 1, 0);
      if SweepFrom(s, r, c) == s {
        NoNakedFromRowEnd(s, r);
      }
    } else {
      var s1 := SweepCell(s, r, c);
      var t := SweepFrom(s1, r, c + 1);
      assert t == SweepFrom(s, r, c);
      SweepCellFacts(s, r, c);
      SweepFromFacts(s1, r, c + 1);
      ExtendsTrans(t, s1, s);
      ExtendsHoles(t, s1);
      if t == s {
        assert s1 == s;
        NoNakedFromStep(s, r, c);
      }
    }
  }

  /** A sweep only fills holes, changes the grid only by filling one, and
      leaves it as it was only when there is no naked single. */
  lemma SweepFacts(s: seq<seq<int>>)
    requires IsBoard(s)
    ensures Extends(Sweep(s), s)
    ensures Sweep(s) != s ==> Holes(Sweep(s), 0) < Holes(s, 0)
    ensures Sweep(s) == s ==> NoNakedSingle(s)
    ensures UnitsDistinct(s, 0) ==> UnitsDistinct(Sweep(s), 0)
  {
    SweepFromFacts(s, 0, 0);
  }

  /** One cell of the naked-single sweep: an empty cell with exactly one
      candidate receives it (`v`); otherwise nothing changes. */
  method FillNakedSingle(copy: array2<int>, r: int, c: int) returns (filled: bool, ghost v: int)
    requires Is9x9(copy) && InGrid(r, c)
    modifies copy
    ensures filled ==>
      && NakedSingleAt(old(Snapshot(copy)), r, c) && IsDigit(v)
      && !Occurs(old(Snapshot(copy)), r, c, v)
      && Snapshot(copy) == Update(old(Snapshot(copy)), r, c, v)
    ensures !filled ==> !NakedSingleAt(old(Snapshot(copy)), r, c) && Snapshot(copy) == old(Snapshot(copy))
    ensures Snapshot(copy) == SweepCell(old(Snapshot(copy)), r, c)
  {
    ghost var before := Snapshot(copy);
    if copy[r, c] == 0 {
      var possible := GetPossibleValues(copy, r, c);
      if |possible| == 1 {
        assert possible[0] in possible;
        copy[r, c] := possible[0];
        SameBoard(Snapshot(copy), Update(before, r, c, possible[0]));
        return true, possible[0];
      }
    }
    return false, 0;
  }

  /** The naked-single sweep of `canSolveWithBasicTechniques` (lines 382-392):
      the grid becomes `Sweep` of the old one, and `changed` says whether
      that differs from the old grid. */
  method NakedSinglesPass(copy: array2<int>) returns (changed: bool)
    requires Is9x9(copy)
    modifies copy
    ensures Snapshot(copy) == Sweep(old(Snapshot(copy)))
    ensures changed <==> Snapshot(copy) != old(Snapshot(copy))
  {
    ghost var s0 := Snapshot(copy);
    changed := false;
    for r := 0 to 9
      invariant SweepInvariant(Snapshot(copy), s0, changed)
      invariant !changed ==> Snapshot(copy) == s0
      invariant SweepFrom(Snapshot(copy), r, 0) == Sweep(s0)
    {
      for c := 0 to 9
        invariant SweepInvariant(Snapshot(copy), s0, changed)
        invariant !changed ==> Snapshot(copy) == s0
        invariant SweepFrom(Snapshot(copy), r, c) == Sweep(s0)
      {
        ghost var before := Snapshot(copy);
        var filled;
        ghost var v;
        filled, v := FillNakedSingle(copy, r, c);
        if filled {
          FillStep(before, s0, r, c, v);
          changed := true;
        }
      }
    }
  }

  /** What a sweep keeps between the grid `t` it has reached and the grid `s0` it began with. */
  ghost predicate SweepInvariant(t: seq<seq<int>>, s0: seq<seq<int>>, changed: bool)
    requires IsBoard(t) && IsBoard(s0)
  {
    && Extends(t, s0)
    && Holes(t, 0) <= Holes(s0, 0)
    && (changed ==> Holes(t, 0) < Holes(s0, 0))
    && (UnitsDistinct(s0, 0) ==> UnitsDistinct(t, 0))
  }

  /** The propagation loop of `canSolveWithBasicTechniques`: sweep naked
      singles while the sweep changes the grid; when it does not, fill one
      row hidden single; stop when neither applies. */
  ghost function Propagate(s: seq<seq<int>>): (t: seq<seq<int>>)
    requires IsBoard(s)
    ensures IsBoard(t)
    decreases Holes(s, 0)
  {
    SweepFacts(s);
    HiddenStepFacts(s);
    if Sweep(s) != s then Propagate(Sweep(s))
    else if HiddenStep(s) != s then Propagate(HiddenStep(s))
    else s
  }

  /** Propagation only fills holes, ends with no naked and no row hidden
      single left, and adds no repeat to a grid that had none. */
  lemma {:induction false} PropagateFacts(s: seq<seq<int>>)
    requires IsBoard(s)
    ensures Extends(Propagate(s), s)
    ensures NoNakedSingle(Propagate(s)) && NoHiddenSingle(Propagate(s))
    ensures UnitsDistinct(s, 0) ==> UnitsDistinct(Propagate(s), 0)
    decreases Holes(s, 0)
  {
    SweepFacts(s);
    HiddenStepFacts(s);
    if Sweep(s) != s {
      PropagateFacts(Sweep(s));
      ExtendsTrans(Propagate(s), Sweep(s), s);
    } else if HiddenStep(s) != s {
      PropagateFacts(HiddenStep(s));
      ExtendsTrans(Propagate(s), HiddenStep(s), s);
    }
  }

  /** `canSolveWithBasicTechniques`: propagates naked singles and (row)
      hidden singles on a private copy until neither applies, and reports
      whether that completed the grid. */
  method CanSolveWithBasicTechniques(puzzle: array2<int>) returns (solved: bool)
    requires Is9x9(puzzle)
    ensures solved <==> Complete(Propagate(Snapshot(puzzle)))
  {
    ghost var p := Snapshot(puzzle);
    var copy := FromRows(Snapshot(puzzle));
    var changed := true;
    while changed
      invariant Is9x9(copy) && Snapshot(puzzle) == p
      invariant changed ==> Propagate(Snapshot(copy)) == Propagate(p)
      invariant !changed ==> Snapshot(copy) == Propagate(p)
      decreases Holes(Snapshot(copy), 0), changed
    {
      ghost var start := Snapshot(copy);
      SweepFacts(start);
      HiddenStepFacts(start);
      changed := NakedSinglesPass(copy);
      if !changed {
        ghost var r, n;
        changed, r, n := ApplyHiddenSingles(copy);
      }
    }
    solved := IsSolved(copy);
  }

  /** `hasNakedSingles`: some empty cell has exactly one candidate. */
  method HasNakedSingles(puzzle: array2<int>) returns (found: bool)
    requires Is9x9(puzzle)
    ensures found <==> !NoNakedSingle(Snapshot(puzzle))
  {
    ghost var s := Snapshot(puzzle);
    for r := 0 to 9
      invariant NoNakedSingleBefore(s, Position(r, 0))
    {
      for c := 0 to 9
        invariant NoNakedSingleBefore(s, Position(r, c))
      {
        if puzzle[r, c] == 0 {
          var possible := GetPossibleValues(puzzle, r, c);
          if |possible| == 1 {
            assert NakedSingleAt(s, r, c) && Before(r, c, Position(9, 0));
            return true;
          }
        }
      }
    }
    return false;
  }

  // ---------------------------------------------------------------- X-Wing and importance

  /** Rows `r1` and `r2` each have exactly two cells that can take `n`, in the same two columns. */
  ghost predicate XWingPair(s: seq<seq<int>>, n: int, r1: int, r2: int)
    requires IsBoard(s) && 0 <= r1 < 9 && 0 <= r2 < 9
  {
    |RowSlots(s, r1, n)| == 2 && RowSlots(s, r1, n) == RowSlots(s, r2, n)
  }

  /** Two rows form an X-Wing pair for `n`. */
  ghost predicate XWingFor(s: seq<seq<int>>, n: int)
    requires IsBoard(s)
  {
    exists r1, r2 :: 0 <= r1 < r2 < 9 && XWingPair(s, n, r1, r2)
  }

  /** What `checkForXWingPotential` looks for: some digit with an X-Wing pair. */
  ghost predicate XWingPotential(s: seq<seq<int>>)
    requires IsBoard(s)
  {
    exists n :: IsDigit(n) && XWingFor(s, n)
  }

  /** The `positions` list for digit `n` after rows `0..k-1`: each row with exactly two slots, with them. */
  ghost function PairRowsUpTo(s: seq<seq<int>>, n: int, k: int): seq<(int, seq<int>)>
    requires IsBoard(s) && 0 <= k <= 9
  {
    if k == 0 then []
    else PairRowsUpTo(s, n, k - 1) + (if |RowSlots(s, k - 1, n)| == 2 then [(k - 1, RowSlots(s, k - 1, n))] else [])
  }

  /** The `positions` list holds, in increasing row order, exactly the rows
      with two slots, each with its slots. */
  lemma PairRowsSpec(s: seq<seq<int>>, n: int, k: int)
    requires IsBoard(s) && 0 <= k <= 9
    ensures forall i :: 0 <= i < |PairRowsUpTo(s, n, k)| ==>
      && 0 <= PairRowsUpTo(s, n, k)[i].0 < k
      && PairRowsUpTo(s, n, k)[i].1 == RowSlots(s, PairRowsUpTo(s, n, k)[i].0, n)
      && |PairRowsUpTo(s, n, k)[i].1| == 2
    ensures forall i, j :: 0 <= i < j < |PairRowsUpTo(s, n, k)| ==> PairRowsUpTo(s, n, k)[i].0 < PairRowsUpTo(s, n, k)[j].0
    ensures forall r :: 0 <= r < k && |RowSlots(s, r, n)| == 2 ==> (r, RowSlots(s, r, n)) in PairRowsUpTo(s, n, k)
  {
    PairRowsEntries(s, n, k);
    PairRowsAscending(s, n, k);
    PairRowsComplete(s, n, k);
  }

  /** Every entry is a row before `k` with exactly two slots, and its slots. */
  lemma {:induction false} PairRowsEntries(s: seq<seq<int>>, n: int, k: int)
    requires IsBoard(s) && 0 <= k <= 9
    ensures forall i :: 0 <= i < |PairRowsUpTo(s, n, k)| ==>
      && 0 <= PairRowsUpTo(s, n, k)[i].0 < k
      && PairRowsUpTo(s, n, k)[i].1 == RowSlots(s, PairRowsUpTo(s, n, k)[i].0, n)
      && |PairRowsUpTo(s, n, k)[i].1| == 2
  {
    if k > 0 {
      PairRowsEntries(s, n, k - 1);
    }
  }

  /** The entries' rows increase. */
  lemma {:induction false} PairRowsAscending(s: seq<seq<int>>, n: int, k: int)
    requires IsBoard(s) && 0 <= k <= 9
    ensures forall i, j :: 0 <= i < j < |PairRowsUpTo(s, n, k)| ==> PairRowsUpTo(s, n, k)[i].0 < PairRowsUpTo(s, n, k)[j].0
  {
    if k > 0 {
      PairRowsAscending(s, n, k - 1);
      PairRowsEntries(s, n, k - 1);
    }
  }

  /** Every row before `k` with exactly two slots has its entry. */
  lemma {:induction false} PairRowsComplete(s: seq<seq<int>>, n: int, k: int)
    requires IsBoard(s) && 0 <= k <= 9
    ensures forall r :: 0 <= r < k && |RowSlots(s, r, n)| == 2 ==> (r, RowSlots(s, r, n)) in PairRowsUpTo(s, n, k)
  {
    if k > 0 {
      PairRowsComplete(s, n, k - 1);
    }
  }

  /** Two entries of the `positions` list name the same two columns. */
  predicate SameCols(a: (int, seq<int>), b: (int, seq<int>))
    requires |a.1| == 2 && |b.1| == 2
  {
    a.1[0] == b.1[0] && a.1[1] == b.1[1]
  }

  ghost predicate HasMatch(t: seq<(int, seq<int>)>)
    requires forall i :: 0 <= i < |t| ==> |t[i].1| == 2
  {
    exists i, j :: 0 <= i < j < |t| && SameCols(t[i], t[j])
  }

  /** Matching entries of the `positions` list are exactly the X-Wing pairs for `n`. */
  lemma PairRowsMatchIff(s: seq<seq<int>>, n: int)
    requires IsBoard(s)
    ensures forall i :: 0 <= i < |PairRowsUpTo(s, n, 9)| ==> |PairRowsUpTo(s, n, 9)[i].1| == 2
    ensures HasMatch(PairRowsUpTo(s, n, 9)) <==> XWingFor(s, n)
  {
    PairRowsSpec(s, n, 9);
    if HasMatch(PairRowsUpTo(s, n, 9)) {
      PairFromMatch(s, n);
    }
    if r1, r2 :| 0 <= r1 < r2 < 9 && XWingPair(s, n, r1, r2) {
      MatchFromPair(s, n, r1, r2);
    }
  }

  lemma PairFromMatch(s: seq<seq<int>>, n: int)
    requires IsBoard(s)
    requires forall i :: 0 <= i < |PairRowsUpTo(s, n, 9)| ==> |PairRowsUpTo(s, n, 9)[i].1| == 2
    requires HasMatch(PairRowsUpTo(s, n, 9))
    ensures exists r1, r2 :: 0 <= r1 < r2 < 9 && XWingPair(s, n, r1, r2)
  {
    PairRowsSpec(s, n, 9);
    var t := PairRowsUpTo(s, n, 9);
    var i, j :| 0 <= i < j < |t| && SameCols(t[i], t[j]);
    var a, b := t[i], t[j];
    assert a.1 == RowSlots(s, a.0, n) && b.1 == RowSlots(s, b.0, n) && |a.1| == 2 && |b.1| == 2;
    assert a.1 == b.1;
    assert 0 <= a.0 < b.0 < 9;
    assert XWingPair(s, n, a.0, b.0);
  }

  lemma MatchFromPair(s: seq<seq<int>>, n: int, r1: int, r2: int)
    requires IsBoard(s) && 0 <= r1 < r2 < 9 && XWingPair(s, n, r1, r2)
    requires forall i :: 0 <= i < |PairRowsUpTo(s, n, 9)| ==> |PairRowsUpTo(s, n, 9)[i].1| == 2
    ensures HasMatch(PairRowsUpTo(s, n, 9))
  {
    PairRowsSpec(s, n, 9);
    var t := PairRowsUpTo(s, n, 9);
    assert (r1, RowSlots(s, r1, n)) in t;
    assert (r2, RowSlots(s, r2, n)) in t;
    var i :| 0 <= i < |t| && t[i] == (r1, RowSlots(s, r1, n));
    var j :| 0 <= j < |t| && t[j] == (r2, RowSlots(s, r2, n));
    SortedRowsIndex(t, i, j);
    assert SameCols(t[i], t[j]);
  }

  /** In a list sorted by strictly increasing row, a smaller row sits at a smaller index. */
  lemma SortedRowsIndex(t: seq<(int, seq<int>)>, i: int, j: int)
    requires forall a, b :: 0 <= a < b < |t| ==> t[a].0 < t[b].0
    requires 0 <= i < |t| && 0 <= j < |t| && t[i].0 < t[j].0
    ensures i < j
  {
  }

  /** The source's `rowPositions`/`positions` loop: the empty columns of row
      `r` that pass `isValidPlacement` for `num`, ascending. */
  method RowSlotsOf(puzzle: array2<int>, r: int, num: int) returns (slots: seq<int>)
    requires Is9x9(puzzle) && 0 <= r < 9
    ensures slots == RowSlots(Snapshot(puzzle), r, num)
  {
    ghost var s := Snapshot(puzzle);
    slots := [];
    for c := 0 to 9
      invariant slots == SlotsUpTo(s, r, num, c)
    {
      if puzzle[r, c] == 0 {
        var ok := IsValidPlacement(puzzle, r, c, num);
        if ok {
          slots := slots + [c];
        }
      }
    }
  }

  /** The pair search of `checkForXWingPotential` (lines 315-324). */
  method FindMatchingRows(positions: seq<(int, seq<int>)>) returns (found: bool)
    requires forall i :: 0 <= i < |positions| ==> |positions[i].1| == 2
    ensures found <==> HasMatch(positions)
  {
    if |positions| >= 2 {
      for i := 0 to |positions| - 1
        invariant forall i', j :: 0 <= i' < i && i' < j < |positions| ==> !SameCols(positions[i'], positions[j])
      {
        for j := i + 1 to |positions|
          invariant forall j' :: i < j' < j ==> !SameCols(positions[i], positions[j'])
        {
          if positions[i].1[0] == positions[j].1[0] && positions[i].1[1] == positions[j].1[1] {
            assert SameCols(positions[i], positions[j]);
            return true;
          }
        }
      }
    }
    return false;
  }

  /** One digit of `checkForXWingPotential` (lines 300-324). */
  method XWingForDigit(puzzle: array2<int>, num: int) returns (found: bool)
    requires Is9x9(puzzle)
    ensures found <==> XWingFor(Snapshot(puzzle), num)
  {
    ghost var s := Snapshot(puzzle);
    var positions := [];
    for r := 0 to 9
      invariant positions == PairRowsUpTo(s, num, r)
    {
      var rowPositions := RowSlotsOf(puzzle, r, num);
      if |rowPositions| == 2 {
        positions := positions + [(r, rowPositions)];
      }
    }
    PairRowsMatchIff(s, num);
    found := FindMatchingRows(positions);
  }

  /** `checkForXWingPotential`: some digit has two rows whose only two
      possible cells lie in the same two columns. */
  method CheckForXWingPotential(puzzle: array2<int>) returns (found: bool)
    requires Is9x9(puzzle)
    ensures found <==> XWingPotential(Snapshot(puzzle))
  {
    ghost var s := Snapshot(puzzle);
    for num := 1 to 10
      invariant forall n :: 1 <= n < num ==> !XWingFor(s, n)
    {
      found := XWingForDigit(puzzle, num);
      if found {
        return true;
      }
    }
    return false;
  }

  /** `createsAdvancedPattern`: whether emptying `(row, col)` gives an X-Wing
      potential; the cell is written back, so the grid ends as it began. */
  method CreatesAdvancedPattern(puzzle: array2<int>, row: int, col: int) returns (found: bool)
    requires Is9x9(puzzle) && InGrid(row, col)
    modifies puzzle
    ensures Snapshot(puzzle) == old(Snapshot(puzzle))
    ensures found <==> XWingPotential(Update(old(Snapshot(puzzle)), row, col, 0))
  {
    ghost var s := Snapshot(puzzle);
    var temp := puzzle[row, col];
    puzzle[row, col] := 0;
    SameBoard(Snapshot(puzzle), Update(s, row, col, 0));
    found := CheckForXWingPotential(puzzle);
    puzzle[row, col] := temp;
    SameBoard(Snapshot(puzzle), s);
  }

  /** The score `calculateCellImportance` gives `(row, col)`: the empty cells
      of its row, its column and its box (overlaps counted in each), plus 10
      when emptying the cell gives an X-Wing potential. */
  ghost function Importance(s: seq<seq<int>>, row: int, col: int): int
    requires IsBoard(s) && InGrid(row, col)
  {
    multiset(s[row])[0] + multiset(Col(s, col))[0] + multiset(Box(s, BoxStart(row), BoxStart(col)))[0] +
    (if XWingPotential(Update(s, row, col, 0)) then 10 else 0)
  }

  /** The importance of a filled cell is at most 34: each of its units has
      at most eight empty cells besides it. */
  lemma ImportanceOfFilledCell(s: seq<seq<int>>, row: int, col: int)
    requires IsBoard(s) && InGrid(row, col) && s[row][col] != 0
    ensures 0 <= Importance(s, row, col) <= 34
  {
    var br, bc := BoxStart(row), BoxStart(col);
    MissingLowersCount(s[row], 0, s[row][col]);
    assert Col(s, col)[row] == s[row][col];
    MissingLowersCount(Col(s, col), 0, s[row][col]);
    BoxAt(s, br, bc, row - br, col - bc);
    MissingLowersCount(Box(s, br, bc), 0, s[row][col]);
  }

  /** The row loop of `calculateCellImportance` (lines 254-256). */
  method EmptiesInRow(puzzle: array2<int>, row: int) returns (count: int)
    requires Is9x9(puzzle) && 0 <= row < 9
    ensures count == multiset(Snapshot(puzzle)[row])[0]
  {
    ghost var cells := Snapshot(puzzle)[row];
    count := 0;
    for c := 0 to 9
      invariant count == multiset(cells[..c])[0]
    {
      CountCellStep(cells, c, 0);
      if puzzle[row, c] == 0 {
        count := count + 1;
      }
    }
    assert cells[..9] == cells;
  }

  /** The column loop of `calculateCellImportance` (lines 259-261). */
  method EmptiesInCol(puzzle: array2<int>, col: int) returns (count: int)
    requires Is9x9(puzzle) && 0 <= col < 9
    ensures count == multiset(Col(Snapshot(puzzle), col))[0]
  {
    ghost var cells := Col(Snapshot(puzzle), col);
    count := 0;
    for r := 0 to 9
      invariant count == multiset(cells[..r])[0]
    {
      CountCellStep(cells, r, 0);
      if puzzle[r, col] == 0 {
        count := count + 1;
      }
    }
    assert cells[..9] == cells;
  }

  /** The box loops of `calculateCellImportance` (lines 264-270). */
  method EmptiesInBox(puzzle: array2<int>, row: int, col: int) returns (count: int)
    requires Is9x9(puzzle) && InGrid(row, col)
    ensures count == multiset(Box(Snapshot(puzzle), BoxStart(row), BoxStart(col)))[0]
  {
    ghost var s := Snapshot(puzzle);
    var boxRow, boxCol := BoxStart(row), BoxStart(col);
    ghost var box := Box(s, boxRow, boxCol);
    count := 0;
    ghost var k := 0;
    for r := boxRow to boxRow + 3
      invariant k == 3 * (r - boxRow) && count == multiset(box[..k])[0]
    {
      for c := boxCol to boxCol + 3
        invariant k == 3 * (r - boxRow) + (c - boxCol) && count == multiset(box[..k])[0]
      {
        BoxAt(s, boxRow, boxCol, r - boxRow, c - boxCol);
        assert 0 <= k < 9 && box[k] == s[r][c] == puzzle[r, c];
        CountCellStep(box, k, 0);
        if puzzle[r, c] == 0 {
          count := count + 1;
        }
        k := k + 1;
      }
    }
    assert box[..9] == box;
  }

  /** `calculateCellImportance`; it reaches the grid through
      `createsAdvancedPattern`, so it writes, but restores, one cell. */
  method CalculateCellImportance(puzzle: array2<int>, row: int, col: int) returns (score: int)
    requires Is9x9(puzzle) && InGrid(row, col)
    modifies puzzle
    ensures Snapshot(puzzle) == old(Snapshot(puzzle))
    ensures score == Importance(old(Snapshot(puzzle)), row, col)
  {
    var inRow := EmptiesInRow(puzzle, row);
    var inCol := EmptiesInCol(puzzle, col);
    var inBox := EmptiesInBox(puzzle, row, col);
    score := inRow + inCol + inBox;
    var pattern := CreatesAdvancedPattern(puzzle, row, col);
    if pattern {
      score := score + 10;
    }
  }

  /** The importance of every cell, as a table. */
  ghost function ImportanceTable(s: seq<seq<int>>): (w: seq<seq<int>>)
    requires IsBoard(s)
    ensures IsBoard(w)
  {
    seq(9, r requires 0 <= r < 9 => seq(9, c requires 0 <= c < 9 => Importance(s, r, c)))
  }

  /** `p` is a filled cell before `bound` of the highest weight `w` among the
      filled cells before `bound`, and the first such cell in row-major order. */
  ghost predicate FirstBestBefore(s: seq<seq<int>>, w: seq<seq<int>>, p: Position, bound: Position)
    requires IsBoard(s) && IsBoard(w)
  {
    && InGrid(p.row, p.col) && s[p.row][p.col] != 0 && Before(p.row, p.col, bound)
    && (forall r, c :: InGrid(r, c) && s[r][c] != 0 && Before(r, c, bound) ==> w[r][c] <= w[p.row][p.col])
    && (forall r, c :: InGrid(r, c) && s[r][c] != 0 && Before(r, c, p) ==> w[r][c] < w[p.row][p.col])
  }

  ghost predicate NoFilledBefore(s: seq<seq<int>>, bound: Position)
    requires IsBoard(s)
  {
    forall r, c :: InGrid(r, c) && Before(r, c, bound) ==> s[r][c] == 0
  }

  /** `cell` is the first best filled cell before `bound`, or none when no cell before `bound` is filled. */
  ghost predicate BestSoFar(s: seq<seq<int>>, w: seq<seq<int>>, cell: Option<Position>, bound: Position)
    requires IsBoard(s) && IsBoard(w)
  {
    && (cell.None? <==> NoFilledBefore(s, bound))
    && (cell.Some? ==> FirstBestBefore(s, w, cell.value, bound))
  }

  /** The running choice after looking at cell `(r, c)`. */
  ghost function NextBest(s: seq<seq<int>>, w: seq<seq<int>>, cell: Option<Position>, r: int, c: int): Option<Position>
    requires IsBoard(s) && IsBoard(w) && InGrid(r, c) && (cell.Some? ==> InGrid(cell.value.row, cell.value.col))
  {
    if s[r][c] == 0 then cell
    else if cell.None? || w[r][c] > w[cell.value.row][cell.value.col] then Some(Position(r, c))
    else cell
  }

  /** The chosen cell is a filled cell of the grid. */
  lemma BestIsCell(s: seq<seq<int>>, w: seq<seq<int>>, cell: Option<Position>)
    requires IsBoard(s) && IsBoard(w) && BestSoFar(s, w, cell, Position(9, 0)) && cell.Some?
    ensures InGrid(cell.value.row, cell.value.col) && s[cell.value.row][cell.value.col] != 0
  {
  }

  lemma BestStep(s: seq<seq<int>>, w: seq<seq<int>>, cell: Option<Position>, r: int, c: int)
    requires IsBoard(s) && IsBoard(w) && InGrid(r, c) && BestSoFar(s, w, cell, Position(r, c))
    ensures BestSoFar(s, w, NextBest(s, w, cell, r, c), Position(r, c + 1))
  {
  }

  lemma BestRowEnd(s: seq<seq<int>>, w: seq<seq<int>>, cell: Option<Position>, r: int)
    requires IsBoard(s) && IsBoard(w) && 0 <= r < 9 && BestSoFar(s, w, cell, Position(r, 9))
    ensures BestSoFar(s, w, cell, Position(r + 1, 0))
  {
    assert forall i, j :: InGrid(i, j) ==> (Before(i, j, Position(r, 9)) <==> Before(i, j, Position(r + 1, 0)));
  }

  /** `findStrategicRemoval`: the filled cell of highest importance, the
      first in row-major order among equals (the source sorts the filled
      cells by descending importance with a stable sort and takes the head;
      the model keeps the running first maximum instead), or none when every
      cell is empty. */
  method FindStrategicRemoval(puzzle: array2<int>) returns (cell: Option<Position>)
    requires Is9x9(puzzle)
    modifies puzzle
    ensures Snapshot(puzzle) == old(Snapshot(puzzle))
    ensures BestSoFar(Snapshot(puzzle), ImportanceTable(Snapshot(puzzle)), cell, Position(9, 0))
  {
    ghost var s := Snapshot(puzzle);
    ghost var w := ImportanceTable(s);
    cell := None;
    var bestScore := 0;
    for r := 0 to 9
      invariant Snapshot(puzzle) == s && BestSoFar(s, w, cell, Position(r, 0))
      invariant cell.Some? ==> bestScore == w[cell.value.row][cell.value.col]
    {
      for c := 0 to 9
        invariant Snapshot(puzzle) == s && BestSoFar(s, w, cell, Position(r, c))
        invariant cell.Some? ==> bestScore == w[cell.value.row][cell.value.col]
      {
        BestStep(s, w, cell, r, c);
        ghost var next := NextBest(s, w, cell, r, c);
        if puzzle[r, c] != 0 {
          var score := CalculateCellImportance(puzzle, r, c);
          assert score == w[r][c];
          if cell.None? || score > bestScore {
            cell, bestScore := Some(Position(r, c)), score;
          }
        }
        assert cell == next;
      }
      BestRowEnd(s, w, cell, r);
    }
  }
}
