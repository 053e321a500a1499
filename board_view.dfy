/** The logic inside the board component (sudoku-game/src/Board.js): the
    conflict check used to mark invalid cells, the digit counter behind the
    number pad, the clock text, and the rules that decide which cells are
    "related" to the selection and which carry a box border. */
module BoardView {
  import opened Wrappers
  import opened Grids
  import opened Strings

  /** A board cell: `null` or a number. */
  type Cell = Option<int>

  // ---------------------------------------------------------------- conflicts

  /** The filled cell `(row, col)` shares a unit with another cell holding
      the same value. */
  ghost predicate Conflict(s: seq<seq<Cell>>, row: int, col: int)
    requires IsBoard(s) && InGrid(row, col)
  {
    s[row][col].Some? &&
    exists r, c :: InGrid(r, c) && (r != row || c != col) && SameUnit(r, c, row, col) && s[r][c] == s[row][col]
  }

  /** `isValidInCurrentPosition`: true for an empty cell; otherwise the value
      is taken out of the board, looked for in the cell's row, column and
      box, and put back before every return. */
  method IsValidInCurrentPosition(board: array2<Cell>, row: int, col: int) returns (ok: bool)
    requires Is9x9(board) && InGrid(row, col)
    modifies board
    ensures Snapshot(board) == old(Snapshot(board))
    ensures ok <==> !Conflict(Snapshot(board), row, col)
  {
    ghost var s := Snapshot(board);
    var num := board[row, col];
    if num == None {
      return true;
    }
    board[row, col] := None;
    ghost var t := Snapshot(board);
    for c := 0 to 9
      invariant Snapshot(board) == t
      invariant forall k :: 0 <= k < c ==> t[row][k] != num
    {
      if board[row, c] == num {
        board[row, col] := num;
        SameBoard(Snapshot(board), s);
        assert c != col && SameUnit(row, c, row, col) && s[row][c] == s[row][col];
        return false;
      }
    }
    for r := 0 to 9
      invariant Snapshot(board) == t
      invariant forall k :: 0 <= k < r ==> t[k][col] != num
    {
      if board[r, col] == num {
        board[row, col] := num;
        SameBoard(Snapshot(board), s);
        assert r != row && SameUnit(r, col, row, col) && s[r][col] == s[row][col];
        return false;
      }
    }
    var boxRow, boxCol := BoxStart(row), BoxStart(col);
    for i := 0 to 3
      invariant Snapshot(board) == t
      invariant forall r, c :: boxRow <= r < boxRow + i && boxCol <= c < boxCol + 3 ==> t[r][c] != num
    {
      for j := 0 to 3
        invariant Snapshot(board) == t
        invariant forall r, c :: boxRow <= r <= boxRow + i && boxCol <= c < boxCol + 3 && (r < boxRow + i || c < boxCol + j) ==>
          t[r][c] != num
      {
        if board[boxRow + i, boxCol + j] == num {
          board[row, col] := num;
          SameBoard(Snapshot(board), s);
          var r, c := boxRow + i, boxCol + j;
          assert BoxStart(r) == boxRow && BoxStart(c) == boxCol;
          assert (r != row || c != col) && SameUnit(r, c, row, col) && s[r][c] == s[row][col];
          return false;
        }
      }
    }
    board[row, col] := num;
    SameBoard(Snapshot(board), s);
    forall r, c | InGrid(r, c) && (r != row || c != col) && SameUnit(r, c, row, col)
      ensures s[r][c] != num
    {
      assert t[r][c] != num;
    }
    return true;
  }

  // ---------------------------------------------------------------- number pad

  /** `countNumberOccurrences`: how many cells hold `num`, at most 81. */
  method CountNumberOccurrences(board: array2<Cell>, num: int) returns (count: nat)
    requires Is9x9(board)
    ensures count == Count(Snapshot(board), Some(num)) && count <= 81
  {
    ghost var s := Snapshot(board);
    count := 0;
    for row := 0 to 9
      invariant count == multiset(Flat(s[..row]))[Some(num)]
    {
      for col := 0 to 9
        invariant count == multiset(Flat(s[..row]))[Some(num)] + multiset(s[row][..col])[Some(num)]
      {
        CountCellStep(s[row], col, Some(num));
        if board[row, col] == Some(num) {
          count := count + 1;
        }
      }
      assert s[row][..9] == s[row];
      CountRowStep(s, row, Some(num));
    }
    CountAllRows(s, Some(num));
    CountAtMost81(s, Some(num));
  }

  /** A sequence without repeats holds a non-blank value at most once. */
  lemma {:induction false} AtMostOnce<T>(xs: seq<T>, x: T, blank: T)
    requires NoRepeat(xs, blank) && x != blank
    ensures multiset(xs)[x] <= 1
  {
    if xs != [] {
      var init := xs[..|xs| - 1];
      assert xs == init + [xs[|xs| - 1]];
      assert NoRepeat(init, blank) by {
        forall i, j | 0 <= i < j < |init| && init[i] != blank
          ensures init[i] != init[j]
        {
          assert init[i] == xs[i] && init[j] == xs[j];
        }
      }
      AtMostOnce(init, x, blank);
    }
  }

  /** On a board whose rows repeat nothing, a digit is placed at most nine
      times, so the pad's "remaining" figure `9 - count` is never negative
      and `count >= 9` means the digit is used up. */
  lemma CountAtMostNine(s: seq<seq<Cell>>, num: int)
    requires IsBoard(s) && forall r :: 0 <= r < 9 ==> NoRepeat(s[r], None)
    ensures Count(s, Some(num)) <= 9
  {
    for r := 0 to 9
      invariant multiset(Flat(s[..r]))[Some(num)] <= r
    {
      CountRowStep(s, r, Some(num));
      AtMostOnce(s[r], Some(num), None);
    }
    CountAllRows(s, Some(num));
  }

  // ---------------------------------------------------------------- clock

  /** JavaScript's `%` on integers: the remainder takes the dividend's sign. */
  function JsRem(a: int, b: int): (r: int)
    requires b > 0
    ensures -b < r < b
    ensures (a > 0 ==> r >= 0) && (a < 0 ==> r <= 0)
    ensures a >= 0 ==> r == a % b
  {
    if a >= 0 then a % b else -((-a) % b)
  }

  /** Negating the dividend negates the remainder, so with its agreement with
      `%` on non-negative numbers this fixes `JsRem` on all integers. */
  lemma JsRemOdd(a: int, b: int)
    requires b > 0
    ensures JsRem(-a, b) == -JsRem(a, b)
  {
  }

  /** `formatTime`: whole minutes (`Math.floor(seconds / 60)`, which is
      Dafny's `/` for a positive divisor), a colon, and the JavaScript
      remainder of the seconds, padded to two characters with `'0'`. */
  function FormatTime(seconds: int): string {
    IntToString(seconds / 60) + ":" + PadStart(IntToString(JsRem(seconds, 60)), 2, '0')
  }

  /** The first index holding `ch`, or `|s|` when there is none. */
  function IndexOf(s: string, ch: char): (i: nat)
    ensures i <= |s| && (i < |s| ==> s[i] == ch)
    ensures forall j :: 0 <= j < i ==> s[j] != ch
  {
    if s == [] then 0 else if s[0] == ch then 0 else 1 + IndexOf(s[1..], ch)
  }

  /** Reads `m:ss` back as a number of seconds. */
  function ParseClock(t: string): Option<nat> {
    var i := IndexOf(t, ':');
    if i < |t| && AllDigits(t[..i]) && AllDigits(t[i + 1..]) && |t[i + 1..]| == 2
    then Some(ParseNat(t[..i]) * 60 + ParseNat(t[i + 1..]))
    else None
  }

  /** For a non-negative time the clock text is exact: the seconds part is
      always two digits and reading the text back gives the time. */
  lemma FormatTimeRoundTrip(seconds: nat)
    ensures ParseClock(FormatTime(seconds)) == Some(seconds)
  {
    var m := NatToString(seconds / 60);
    var p := PadStart(NatToString(seconds % 60), 2, '0');
    var t := FormatTime(seconds);
    assert t == m + ":" + p;
    TwoDigits(seconds % 60);
    ColonAfterDigits(m, p);
    assert t[..|m|] == m && t[|m| + 1..] == p;
    ParseNatToString(seconds / 60);
  }

  /** Seconds below 60, padded, are two digits that read back as themselves. */
  lemma TwoDigits(secs: nat)
    requires secs < 60
    ensures var p := PadStart(NatToString(secs), 2, '0'); |p| == 2 && AllDigits(p) && ParseNat(p) == secs
  {
    ParseNatToString(secs);
    if secs < 10 {
      assert PadStart(NatToString(secs), 2, '0') == "0" + NatToString(secs);
      ParseNatLeadingZero(NatToString(secs));
    }
  }

  /** The first colon after a run of digits is the one that ends it. */
  lemma ColonAfterDigits(m: string, rest: string)
    requires AllDigits(m)
    ensures IndexOf(m + ":" + rest, ':') == |m|
  {
    var t := m + ":" + rest;
    var i := IndexOf(t, ':');
    assert t[|m|] == ':';
  }

  // ---------------------------------------------------------------- cell classes

  /** The `box-right` rule for a column, and the `box-bottom` rule for a row:
      index `2` or `5` within the board. */
  predicate BoxBorderAfter(i: int) {
    i % 3 == 2 && i != 8
  }

  /** A border is drawn after index `i` exactly when the next index starts a
      new box. */
  lemma BoxBorderAfterIff(i: int)
    requires 0 <= i < 9
    ensures BoxBorderAfter(i) <==> i + 1 < 9 && BoxStart(i + 1) != BoxStart(i)
    ensures BoxBorderAfter(i) <==> i == 2 || i == 5
  {
  }

  /** The `related` rule: there is a selection, and the cell shares its row,
      its column or its box (box number `Math.floor(i / 3)`). */
  predicate Related(selected: Option<Position>, row: int, col: int) {
    && selected.Some?
    && (|| row == selected.value.row
        || col == selected.value.col
        || (row / 3 == selected.value.row / 3 && col / 3 == selected.value.col / 3))
  }

  /** On the board, a cell is related to the selection exactly when it
      shares a unit with the selected cell. */
  lemma RelatedIffSameUnit(selected: Option<Position>, row: int, col: int)
    requires InGrid(row, col)
    requires selected.Some? ==> InGrid(selected.value.row, selected.value.col)
    ensures Related(selected, row, col) <==>
      selected.Some? && SameUnit(row, col, selected.value.row, selected.value.col)
  {
  }
}
