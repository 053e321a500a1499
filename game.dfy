/** The game (sudoku-game/src/Game.js): the state set up for a new game,
    the moves, the note clean-up after a placement, the end-of-game summary
    and the score.  Each move is specified by a transition function on the
    whole state (`GameState`); `SudokuGame` holds the same state in fields,
    with the cells in place, and each of its methods is proved to perform
    exactly its move's transition. */
module Game {
  import opened Wrappers
  import opened Grids
  import opened Strings
  import opened Randomness
  import SimpleGenerator
  import BoardView

  /** A board cell: `null` or a number. */
  type Cell = Option<int>

  /** The pencil marks of every cell. */
  type Notes = seq<seq<set<int>>>

  /** One undo entry: copies of the cells, the notes and the mistake count. */
  datatype HistoryEntry = HistoryEntry(cells: seq<seq<Cell>>, notes: Notes, mistakes: int)

  /** The fields of the game object `G`. */
  datatype GameState = GameState(
    cells: seq<seq<Cell>>,
    solution: seq<seq<Cell>>,
    initialBoard: seq<seq<Cell>>,
    selectedCell: Option<Position>,
    notes: Notes,
    hints: int,
    mistakes: int,
    startTime: int,
    endTime: Option<int>,
    difficulty: string,
    history: seq<HistoryEntry>,
    noteMode: bool,
    highlightNumber: Cell,
    paused: bool)

  const StartingHints: int := 3

  /** A fresh notes grid: an empty set in every cell. */
  function EmptyNotes(): (n: Notes)
    ensures IsBoard(n) && forall r, c :: InGrid(r, c) ==> n[r][c] == {}
  {
    seq(9, r => seq(9, c => {}))
  }

  // ---------------------------------------------------------------- invariant

  /** The cells agree with the puzzle's givens. */
  ghost predicate GivensKept(cells: seq<seq<Cell>>, initial: seq<seq<Cell>>)
    requires IsBoard(cells) && IsBoard(initial)
  {
    forall r, c :: InGrid(r, c) && initial[r][c].Some? ==> cells[r][c] == initial[r][c]
  }

  ghost predicate EntryOk(h: HistoryEntry, initial: seq<seq<Cell>>)
    requires IsBoard(initial)
  {
    IsBoard(h.cells) && IsBoard(h.notes) && h.mistakes >= 0 && GivensKept(h.cells, initial)
  }

  /** The grids are 9x9. */
  ghost predicate Shaped(st: GameState) {
    IsBoard(st.cells) && IsBoard(st.solution) && IsBoard(st.initialBoard) && IsBoard(st.notes)
  }

  /** What every move keeps: the shapes, a selection on the board, hints in
      `0..3`, no negative mistake count, and givens that stay put, in the
      cells and in every undo entry. */
  ghost predicate Inv(st: GameState) {
    && Shaped(st)
    && (st.selectedCell.Some? ==> InGrid(st.selectedCell.value.row, st.selectedCell.value.col))
    && 0 <= st.hints <= StartingHints && st.mistakes >= 0
    && GivensKept(st.cells, st.initialBoard)
    && forall i :: 0 <= i < |st.history| ==> EntryOk(st.history[i], st.initialBoard)
  }

  // ---------------------------------------------------------------- moves as transitions

  /** The guard shared by the moves: the game is paused or over. */
  predicate Halted(st: GameState) {
    st.paused || st.endTime.Some?
  }

  function Entry(st: GameState): HistoryEntry {
    HistoryEntry(st.cells, st.notes, st.mistakes)
  }

  /** The state with its undo entry pushed. */
  function Pushed(st: GameState): GameState {
    st.(history := st.history + [Entry(st)])
  }

  /** `selectCell`. */
  ghost function SelectCellSpec(st: GameState, row: int, col: int): (t: GameState)
    requires Inv(st) && InGrid(row, col)
    ensures Inv(t)
  {
    if Halted(st) then st
    else st.(selectedCell := Some(Position(row, col)), highlightNumber := st.cells[row][col])
  }

  /** A note set with `x` switched on or off. */
  function Toggle(s: set<int>, x: int): (t: set<int>)
    ensures x in t <==> x !in s
    ensures forall y :: y != x ==> (y in t <==> y in s)
  {
    if x in s then s - {x} else s + {x}
  }

  /** The notes after `n` is placed at `(row, col)`: `n` is struck from every
      cell sharing a unit with it. */
  ghost function ClearedNotes(notes: Notes, row: int, col: int, n: int): (t: Notes)
    requires IsBoard(notes) && InGrid(row, col)
    ensures IsBoard(t)
    ensures forall r, c :: InGrid(r, c) && SameUnit(r, c, row, col) ==> n !in t[r][c] && t[r][c] + {n} >= notes[r][c] >= t[r][c]
    ensures forall r, c :: InGrid(r, c) && !SameUnit(r, c, row, col) ==> t[r][c] == notes[r][c]
  {
    seq(9, r requires 0 <= r < 9 =>
      seq(9, c requires 0 <= c < 9 => if SameUnit(r, c, row, col) then notes[r][c] - {n} else notes[r][c]))
  }

  /** The end-of-move completeness check: a full, valid board ends the game now. */
  ghost function CheckComplete(st: GameState, now: int): GameState
    requires IsBoard(st.cells)
  {
    if SimpleGenerator.NoEmpty(st.cells) && UnitsDistinct(st.cells, None) then st.(endTime := Some(now)) else st
  }

  /** The write of `placeNumber` at `(r, c)`: a note toggle that empties the
      cell, a valid number with the notes cleaned up, or an invalid number
      written anyway and counted as a mistake. */
  ghost function WriteNumber(st: GameState, r: int, c: int, number: int): GameState
    requires Shaped(st) && InGrid(r, c)
  {
    if st.noteMode then
      st.(notes := Update(st.notes, r, c, Toggle(st.notes[r][c], number)), cells := Update(st.cells, r, c, None))
    else if !Occurs(st.cells, r, c, Some(number)) then
      st.(cells := Update(st.cells, r, c, Some(number)), notes := ClearedNotes(Update(st.notes, r, c, {}), r, c, number))
    else
      st.(cells := Update(st.cells, r, c, Some(number)), mistakes := st.mistakes + 1)
  }

  /** `placeNumber`. */
  ghost function PlaceNumberSpec(st: GameState, number: int, now: int): (t: GameState)
    requires Inv(st)
    ensures Inv(t)
  {
    if Halted(st) || st.selectedCell.None? then st
    else
      var r, c := st.selectedCell.value.row, st.selectedCell.value.col;
      if st.initialBoard[r][c].Some? then st
      else
        assert EntryOk(Entry(st), st.initialBoard);
        CheckComplete(WriteNumber(Pushed(st), r, c, number), now)
  }

  /** `clearCell`. */
  ghost function ClearCellSpec(st: GameState): (t: GameState)
    requires Inv(st)
    ensures Inv(t)
  {
    if Halted(st) || st.selectedCell.None? then st
    else
      var r, c := st.selectedCell.value.row, st.selectedCell.value.col;
      if st.initialBoard[r][c].Some? then st
      else
        assert EntryOk(Entry(st), st.initialBoard);
        Pushed(st).(cells := Update(st.cells, r, c, None), notes := Update(st.notes, r, c, {}))
  }

  /** `toggleNoteMode`. */
  ghost function ToggleNoteModeSpec(st: GameState): (t: GameState)
    requires Inv(st)
    ensures Inv(t)
  {
    if Halted(st) then st else st.(noteMode := !st.noteMode)
  }

  /** `useHint`: the solution's value, notes cleaned as for a placement
      (striking `null` from the note sets, as the source does for an empty
      solution cell, changes nothing). */
  ghost function UseHintSpec(st: GameState): (t: GameState)
    requires Inv(st)
    ensures Inv(t)
  {
    if Halted(st) || st.hints <= 0 || st.selectedCell.None? then st
    else
      var r, c := st.selectedCell.value.row, st.selectedCell.value.col;
      if st.cells[r][c].Some? then st
      else
        var v := st.solution[r][c];
        var cleared := Update(st.notes, r, c, {});
        assert EntryOk(Entry(st), st.initialBoard);
        Pushed(st).(
          cells := Update(st.cells, r, c, v),
          notes := if v.Some? then ClearedNotes(cleared, r, c, v.value) else cleared,
          hints := st.hints - 1)
  }

  /** `undo`. */
  ghost function UndoSpec(st: GameState): (t: GameState)
    requires Inv(st)
    ensures Inv(t)
  {
    if Halted(st) || |st.history| == 0 then st
    else
      var prev := st.history[|st.history| - 1];
      st.(cells := prev.cells, notes := prev.notes, mistakes := prev.mistakes,
          history := st.history[..|st.history| - 1])
  }

  /** `togglePause`. */
  ghost function TogglePauseSpec(st: GameState): (t: GameState)
    requires Inv(st)
    ensures Inv(t)
  {
    if st.endTime.Some? then st else st.(paused := !st.paused)
  }

  /** JavaScript's `requested || fallback` on an optional difficulty name:
      a missing or empty name falls back. */
  function ChosenDifficulty(requested: Option<string>, fallback: string): string {
    if requested.Some? && requested.value != "" then requested.value else fallback
  }

  /** The state of a just-dealt game. */
  ghost function Fresh(puzzle: seq<seq<Cell>>, solution: seq<seq<Cell>>, difficulty: string, now: int): (t: GameState)
    requires IsBoard(puzzle) && IsBoard(solution)
    ensures Inv(t) && !Halted(t)
  {
    GameState(puzzle, solution, puzzle, None, EmptyNotes(), StartingHints, 0, now, None, difficulty, [], false, None, false)
  }

  /** `setup`: the requested difficulty, `"medium"` by default. */
  ghost function SetupSpec(requested: Option<string>, puzzle: seq<seq<Cell>>, solution: seq<seq<Cell>>, now: int): GameState
    requires IsBoard(puzzle) && IsBoard(solution)
  {
    Fresh(puzzle, solution, ChosenDifficulty(requested, "medium"), now)
  }

  /** `newGame`: unguarded; the current difficulty by default. */
  ghost function NewGameSpec(st: GameState, requested: Option<string>, puzzle: seq<seq<Cell>>, solution: seq<seq<Cell>>, now: int): GameState
    requires IsBoard(puzzle) && IsBoard(solution)
  {
    Fresh(puzzle, solution, ChosenDifficulty(requested, st.difficulty), now)
  }

  /** `key >= '1' && key <= '9'` on JavaScript strings. */
  predicate IsDigitKey(key: string) {
    LexLe("1", key) && LexLe(key, "9")
  }

  /** `parseInt(key)` for a key that starts with a digit. */
  function KeyNumber(key: string): nat {
    ParseNat(DigitPrefix(key))
  }

  /** `handleKeyPress`.  Each `moves.x(...)` call of the source is taken to
      run move `x` on the same state, as a direct call would. */
  ghost function HandleKeyPressSpec(st: GameState, key: string, now: int): (t: GameState)
    requires Inv(st)
    ensures Inv(t)
  {
    if Halted(st) then st
    else if IsDigitKey(key) then PlaceNumberSpec(st, KeyNumber(key), now)
    else if key == "0" || key == "Delete" || key == "Backspace" then ClearCellSpec(st)
    else if key == "n" || key == "N" then ToggleNoteModeSpec(st)
    else if key == "h" || key == "H" then UseHintSpec(st)
    else if key == "u" || key == "U" then UndoSpec(st)
    else if key == "p" || key == "P" then TogglePauseSpec(st)
    else st
  }

  // ---------------------------------------------------------------- score and summary

  /** The base score of a difficulty name; 2000 for any other name. */
  function BaseScore(difficulty: string): int {
    if difficulty == "easy" then 1000
    else if difficulty == "medium" then 2000
    else if difficulty == "hard" then 3000
    else if difficulty == "expert" then 5000
    else 2000
  }

  function Max(a: int, b: int): int {
    if a >= b then a else b
  }

  /** `calculateScore`, with the clock readings as milliseconds. */
  function CalculateScore(difficulty: string, startTime: int, endTime: int, mistakes: int, hints: int): (score: int)
    ensures score >= 0
  {
    var time := (endTime - startTime) / 1000;
    var timeBonus := Max(0, 1000 - time);
    var mistakePenalty := mistakes * 50;
    var hintPenalty := (StartingHints - hints) * 100;
    Max(0, BaseScore(difficulty) + timeBonus - mistakePenalty - hintPenalty)
  }

  /** What `endIf` reports. */
  datatype GameOver = GameOver(winner: string, time: string, mistakes: int, hintsUsed: int, difficulty: string, score: int)

  /** `endIf`: a summary once the game has an end time, formatted as the
      board's clock formats it. */
  function EndIf(st: GameState, currentPlayer: string): (r: Option<GameOver>)
    ensures r.Some? <==> st.endTime.Some?
  {
    if st.endTime.None? then None
    else
      var time := (st.endTime.value - st.startTime) / 1000;
      Some(GameOver(currentPlayer, BoardView.FormatTime(time), st.mistakes, StartingHints - st.hints, st.difficulty,
                    CalculateScore(st.difficulty, st.startTime, st.endTime.value, st.mistakes, st.hints)))
  }

  // ---------------------------------------------------------------- the game object

  /** `clearNotesForPlacedNumber`: strikes `number` from the notes of the
      row, then the column, then the box of `(row, col)`. */
  method ClearNotesForPlacedNumber(notes: Notes, row: int, col: int, number: int) returns (result: Notes)
    requires IsBoard(notes) && InGrid(row, col)
    ensures result == ClearedNotes(notes, row, col, number)
  {
    result := notes;
    for c := 0 to 9
      invariant IsBoard(result)
      invariant forall i, j :: InGrid(i, j) ==>
        result[i][j] == if i == row && j < c then notes[i][j] - {number} else notes[i][j]
    {
      result := Update(result, row, c, result[row][c] - {number});
    }
    for r := 0 to 9
      invariant IsBoard(result)
      invariant forall i, j :: InGrid(i, j) ==>
        result[i][j] == if i == row || (j == col && i < r) then notes[i][j] - {number} else notes[i][j]
    {
      result := Update(result, r, col, result[r][col] - {number});
    }
    var boxRow, boxCol := BoxStart(row), BoxStart(col);
    for i := 0 to 3
      invariant IsBoard(result)
      invariant forall a, b :: InGrid(a, b) ==>
        result[a][b] == if a == row || b == col || (boxRow <= a < boxRow + i && boxCol <= b < boxCol + 3)
                        then notes[a][b] - {number} else notes[a][b]
    {
      for j := 0 to 3
        invariant IsBoard(result)
        invariant forall a, b :: InGrid(a, b) ==>
          result[a][b] == if || a == row || b == col || (boxRow <= a < boxRow + i && boxCol <= b < boxCol + 3)
                             || (a == boxRow + i && boxCol <= b < boxCol + j)
                          then notes[a][b] - {number} else notes[a][b]
      {
        result := Update(result, boxRow + i, boxCol + j, result[boxRow + i][boxCol + j] - {number});
      }
    }
    SameBoard(result, ClearedNotes(notes, row, col, number));
  }

  /** `const { puzzle, solution } = generateSudokuPuzzle(difficulty)`: the
      puzzle as a new board, the solution as its contents. */
  method Deal(difficulty: string, rng: Random) returns (puzzle: array2<Cell>, solution: seq<seq<Cell>>)
    modifies rng
    ensures fresh(puzzle) && Is9x9(puzzle) && IsBoard(solution)
    ensures SimpleGenerator.Dealt(Snapshot(puzzle), solution, difficulty)
  {
    var sol, level;
    ghost var perms;
    puzzle, sol, level, perms := SimpleGenerator.GenerateSudokuPuzzle(difficulty, rng);
    solution := Snapshot(sol);
  }

  class SudokuGame {
    var cells: array2<Cell>
    var solution: seq<seq<Cell>>
    var initialBoard: seq<seq<Cell>>
    var selectedCell: Option<Position>
    var notes: Notes
    var hints: int
    var mistakes: int
    var startTime: int
    var endTime: Option<int>
    var difficulty: string
    var history: seq<HistoryEntry>
    var noteMode: bool
    var highlightNumber: Cell
    var paused: bool
    /** The source of `Math.random` for dealing new puzzles. */
    const rng: Random

    /** The fields as a value, the cells read out of their array. */
    ghost function State(): GameState
      reads this, cells
      requires Is9x9(cells)
    {
      GameState(Snapshot(cells), solution, initialBoard, selectedCell, notes, hints, mistakes,
                startTime, endTime, difficulty, history, noteMode, highlightNumber, paused)
    }

    ghost predicate Valid()
      reads this, cells
    {
      Is9x9(cells) && Inv(State())
    }

    /** `setup`: deals a puzzle for the requested difficulty (default
        `"medium"`) at time `now`. */
    constructor(requested: Option<string>, rng: Random, now: int)
      modifies rng
      ensures Valid() && this.rng == rng && fresh(cells)
      ensures State() == SetupSpec(requested, State().cells, State().solution, now)
      ensures SimpleGenerator.Dealt(State().cells, State().solution, ChosenDifficulty(requested, "medium"))
    {
      var d := ChosenDifficulty(requested, "medium");
      var puzzle, sol := Deal(d, rng);
      cells := puzzle;
      this.rng := rng;
      new;
      Reset(puzzle, sol, d, now);
    }

    /** `this.history.push(...)`: copies of the cells, the notes and the
        mistake count. */
    method PushHistory()
      requires Is9x9(cells)
      modifies this
      ensures cells == old(cells) && State() == Pushed(old(State()))
    {
      history := history + [HistoryEntry(Snapshot(cells), notes, mistakes)];
    }

    /** The write of `placeNumber` at `(row, col)`. */
    method Write(row: int, col: int, number: int)
      requires Is9x9(cells) && Shaped(State()) && InGrid(row, col)
      modifies this, cells
      ensures cells == old(cells) && State() == WriteNumber(old(State()), row, col, number)
    {
      ghost var st := State();
      if noteMode {
        notes := Update(notes, row, col, Toggle(notes[row][col], number));
        cells[row, col] := None;
      } else {
        var valid := SimpleGenerator.IsValidMove(cells, row, col, number);
        cells[row, col] := Some(number);
        if valid {
          notes := Update(notes, row, col, {});
          notes := ClearNotesForPlacedNumber(notes, row, col, number);
        } else {
          mistakes := mistakes + 1;
        }
      }
      SameBoard(Snapshot(cells), WriteNumber(st, row, col, number).cells);
    }

    /** The write of `useHint` at the empty cell `(row, col)`. */
    method Hint(row: int, col: int)
      requires Is9x9(cells) && Shaped(State()) && InGrid(row, col)
      modifies this, cells
      ensures cells == old(cells)
      ensures var st := old(State()); var v := st.solution[row][col]; var cleared := Update(st.notes, row, col, {});
        State() == st.(cells := Update(st.cells, row, col, v),
                       notes := if v.Some? then ClearedNotes(cleared, row, col, v.value) else cleared,
                       hints := st.hints - 1)
    {
      ghost var before := Snapshot(cells);
      var v := solution[row][col];
      cells[row, col] := v;
      notes := Update(notes, row, col, {});
      hints := hints - 1;
      if v != None {
        notes := ClearNotesForPlacedNumber(notes, row, col, v.value);
      }
      SameBoard(Snapshot(cells), Update(before, row, col, v));
    }

    method SelectCell(row: int, col: int)
      requires Valid() && InGrid(row, col)
      modifies this
      ensures Valid() && cells == old(cells)
      ensures State() == SelectCellSpec(old(State()), row, col)
    {
      if paused || endTime.Some? {
        return;
      }
      selectedCell := Some(Position(row, col));
      if cells[row, col] != None {
        highlightNumber := cells[row, col];
      } else {
        highlightNumber := None;
      }
    }

    method PlaceNumber(number: int, now: int)
      requires Valid()
      modifies this, cells
      ensures Valid() && cells == old(cells)
      ensures State() == PlaceNumberSpec(old(State()), number, now)
    {
      if paused || endTime.Some? || selectedCell.None? {
        return;
      }
      var row, col := selectedCell.value.row, selectedCell.value.col;
      if initialBoard[row][col] != None {
        return;
      }
      ghost var st := State();
      ghost var t := PlaceNumberSpec(st, number, now);
      assert t == CheckComplete(WriteNumber(Pushed(st), row, col, number), now);
      PushHistory();
      Write(row, col, number);
      CheckCompletion(now);
      assert State() == t;
    }

    /** The end of `placeNumber`: a complete board records the end time. */
    method CheckCompletion(now: int)
      requires Is9x9(cells)
      modifies this
      ensures cells == old(cells) && State() == CheckComplete(old(State()), now)
    {
      var complete := SimpleGenerator.IsBoardComplete(cells);
      if complete {
        endTime := Some(now);
      }
    }

    method ClearCell()
      requires Valid()
      modifies this, cells
      ensures Valid() && cells == old(cells)
      ensures State() == ClearCellSpec(old(State()))
    {
      if paused || endTime.Some? || selectedCell.None? {
        return;
      }
      var row, col := selectedCell.value.row, selectedCell.value.col;
      if initialBoard[row][col] != None {
        return;
      }
      ghost var st := State();
      ghost var t := ClearCellSpec(st);
      assert t == Pushed(st).(cells := Update(st.cells, row, col, None), notes := Update(st.notes, row, col, {}));
      PushHistory();
      cells[row, col] := None;
      notes := Update(notes, row, col, {});
      SameBoard(Snapshot(cells), t.cells);
      assert State() == t;
    }

    method ToggleNoteMode()
      requires Valid()
      modifies this
      ensures Valid() && cells == old(cells)
      ensures State() == ToggleNoteModeSpec(old(State()))
    {
      if paused || endTime.Some? {
        return;
      }
      noteMode := !noteMode;
    }

    method UseHint()
      requires Valid()
      modifies this, cells
      ensures Valid() && cells == old(cells)
      ensures State() == UseHintSpec(old(State()))
    {
      if paused || endTime.Some? || hints <= 0 || selectedCell.None? {
        return;
      }
      var row, col := selectedCell.value.row, selectedCell.value.col;
      if cells[row, col] != None {
        return;
      }
      ghost var st := State();
      ghost var t := UseHintSpec(st);
      PushHistory();
      Hint(row, col);
      assert State() == t;
    }

    method Undo()
      requires Valid()
      modifies this
      ensures Valid() && (cells == old(cells) || fresh(cells))
      ensures State() == UndoSpec(old(State()))
    {
      if paused || endTime.Some? || |history| == 0 {
        return;
      }
      ghost var t := UndoSpec(State());
      var previousState := history[|history| - 1];
      history := history[..|history| - 1];
      cells := FromRows(previousState.cells);
      notes := previousState.notes;
      mistakes := previousState.mistakes;
      assert State() == t;
    }

    method TogglePause()
      requires Valid()
      modifies this
      ensures Valid() && cells == old(cells)
      ensures State() == TogglePauseSpec(old(State()))
    {
      if endTime.Some? {
        return;
      }
      paused := !paused;
    }

    /** `newGame`: deals a puzzle for the requested difficulty (default:
        the current one) and resets everything else. */
    method NewGame(requested: Option<string>, now: int)
      requires Valid()
      modifies this, rng
      ensures Valid() && fresh(cells)
      ensures State() == NewGameSpec(old(State()), requested, State().cells, State().solution, now)
      ensures SimpleGenerator.Dealt(State().cells, State().solution, ChosenDifficulty(requested, old(difficulty)))
    {
      var d := ChosenDifficulty(requested, difficulty);
      var puzzle, sol := Deal(d, rng);
      Reset(puzzle, sol, d, now);
    }

    /** The fields of a just-dealt game. */
    method Reset(puzzle: array2<Cell>, sol: seq<seq<Cell>>, d: string, now: int)
      requires Is9x9(puzzle) && IsBoard(sol)
      modifies this
      ensures cells == puzzle && State() == Fresh(Snapshot(puzzle), sol, d, now)
    {
      cells := puzzle;
      solution := sol;
      initialBoard := Snapshot(puzzle);
      selectedCell := None;
      notes := EmptyNotes();
      hints := StartingHints;
      mistakes := 0;
      startTime := now;
      endTime := None;
      difficulty := d;
      history := [];
      noteMode := false;
      highlightNumber := None;
      paused := false;
    }

    method HandleKeyPress(key: string, now: int)
      requires Valid()
      modifies this, cells
      ensures Valid() && (cells == old(cells) || fresh(cells))
      ensures State() == HandleKeyPressSpec(old(State()), key, now)
    {
      if paused || endTime.Some? {
        return;
      }
      if IsDigitKey(key) {
        PlaceNumber(KeyNumber(key), now);
      } else if key == "0" || key == "Delete" || key == "Backspace" {
        ClearCell();
      } else if key == "n" || key == "N" {
        ToggleNoteMode();
      } else if key == "h" || key == "H" {
        UseHint();
      } else if key == "u" || key == "U" {
        Undo();
      } else if key == "p" || key == "P" {
        TogglePause();
      }
    }
  }

  // ---------------------------------------------------------------- properties

  /** The selected cell of a game that is running and whose selection is
      not a given: the cell that `placeNumber` and `clearCell` act on. */
  ghost predicate Editable(st: GameState)
    requires Inv(st)
  {
    !Halted(st) && st.selectedCell.Some? && st.initialBoard[st.selectedCell.value.row][st.selectedCell.value.col].None?
  }

  /** The situation in which `useHint` acts: a running game, a hint left and
      an empty selected cell. */
  ghost predicate HintApplies(st: GameState)
    requires Inv(st)
  {
    !Halted(st) && st.hints > 0 && st.selectedCell.Some? && st.cells[st.selectedCell.value.row][st.selectedCell.value.col].None?
  }

  /** While the game is paused or over, every move except `togglePause` and
      `newGame` leaves the state alone; once it is over, so does
      `togglePause`. */
  lemma HaltedIsNoOp(st: GameState, row: int, col: int, number: int, key: string, now: int)
    requires Inv(st) && Halted(st) && InGrid(row, col)
    ensures SelectCellSpec(st, row, col) == st && PlaceNumberSpec(st, number, now) == st
    ensures ClearCellSpec(st) == st && ToggleNoteModeSpec(st) == st && UseHintSpec(st) == st
    ensures UndoSpec(st) == st && HandleKeyPressSpec(st, key, now) == st
    ensures st.endTime.Some? ==> TogglePauseSpec(st) == st
  {
  }

  /** The keyboard can pause a game but not resume it: while paused, the
      `p` key is ignored, where the pause button would resume. */
  lemma PauseKeyCannotResume(st: GameState, now: int)
    requires Inv(st) && st.paused && st.endTime.None?
    ensures HandleKeyPressSpec(st, "p", now) == st && HandleKeyPressSpec(st, "p", now).paused
    ensures !TogglePauseSpec(st).paused
  {
  }

  /** The puzzle, the solution, the difficulty and the start time are the
      game's own: only a new game changes them. */
  ghost predicate SamePuzzle(t: GameState, st: GameState) {
    t.initialBoard == st.initialBoard && t.solution == st.solution && t.difficulty == st.difficulty && t.startTime == st.startTime
  }

  /** No move changes the puzzle; with `Inv` of the result this means the
      givens never change. */
  lemma MovesKeepPuzzle(st: GameState, row: int, col: int, number: int, now: int)
    requires Inv(st) && InGrid(row, col)
    ensures SamePuzzle(SelectCellSpec(st, row, col), st) && SamePuzzle(PlaceNumberSpec(st, number, now), st)
    ensures SamePuzzle(ClearCellSpec(st), st) && SamePuzzle(ToggleNoteModeSpec(st), st)
    ensures SamePuzzle(UseHintSpec(st), st) && SamePuzzle(UndoSpec(st), st) && SamePuzzle(TogglePauseSpec(st), st)
  {
  }

  /** Nor does a key press. */
  lemma KeyPressKeepsPuzzle(st: GameState, key: string, now: int)
    requires Inv(st)
    ensures SamePuzzle(HandleKeyPressSpec(st, key, now), st)
  {
    MovesKeepPuzzle(st, 0, 0, KeyNumber(key), now);
    var t := HandleKeyPressSpec(st, key, now);
    assert || t == st || t == PlaceNumberSpec(st, KeyNumber(key), now) || t == ClearCellSpec(st)
           || t == ToggleNoteModeSpec(st) || t == UseHintSpec(st) || t == UndoSpec(st) || t == TogglePauseSpec(st);
  }

  /** Only `placeNumber` ends a game: no other move sets the end time (a
      hint that completes the board does not end it). */
  lemma OnlyPlacementEnds(st: GameState, row: int, col: int)
    requires Inv(st) && InGrid(row, col)
    ensures SelectCellSpec(st, row, col).endTime == st.endTime && ClearCellSpec(st).endTime == st.endTime
    ensures ToggleNoteModeSpec(st).endTime == st.endTime && UseHintSpec(st).endTime == st.endTime
    ensures UndoSpec(st).endTime == st.endTime && TogglePauseSpec(st).endTime == st.endTime
  {
  }

  /** A number placed outside note mode is written into the selected cell.
      It is a mistake exactly when the cell's row, column or box already
      holds it; otherwise the cell's notes are emptied and the number is
      struck from the notes of every cell sharing a unit with it.  The
      game ends, at `now`, exactly when the board is then full and valid. */
  lemma PlaceNumberOutcome(st: GameState, number: int, now: int)
    requires Inv(st) && Editable(st) && !st.noteMode
    ensures var r, c, t := st.selectedCell.value.row, st.selectedCell.value.col, PlaceNumberSpec(st, number, now);
      && t.cells[r][c] == Some(number)
      && (forall i, j :: InGrid(i, j) && (i != r || j != c) ==> t.cells[i][j] == st.cells[i][j])
      && t.history == st.history + [Entry(st)]
      && (Occurs(st.cells, r, c, Some(number)) ==> t.mistakes == st.mistakes + 1 && t.notes == st.notes)
      && (!Occurs(st.cells, r, c, Some(number)) ==>
            t.mistakes == st.mistakes && t.notes[r][c] == {} &&
            forall i, j :: InGrid(i, j) && SameUnit(i, j, r, c) ==> number !in t.notes[i][j])
      && (t.endTime.Some? <==> SimpleGenerator.NoEmpty(t.cells) && UnitsDistinct(t.cells, None))
      && (t.endTime.Some? ==> t.endTime == Some(now))
  {
  }

  /** In note mode the number's note in the selected cell is switched, the
      cell is emptied, nothing else changes, and the game cannot end. */
  lemma NoteModeOutcome(st: GameState, number: int, now: int)
    requires Inv(st) && Editable(st) && st.noteMode
    ensures var r, c, t := st.selectedCell.value.row, st.selectedCell.value.col, PlaceNumberSpec(st, number, now);
      && t.cells[r][c] == None
      && (forall i, j :: InGrid(i, j) && (i != r || j != c) ==> t.cells[i][j] == st.cells[i][j] && t.notes[i][j] == st.notes[i][j])
      && (number in t.notes[r][c] <==> number !in st.notes[r][c])
      && (forall x :: x != number ==> (x in t.notes[r][c] <==> x in st.notes[r][c]))
      && t.mistakes == st.mistakes && t.endTime.None?
      && t.history == st.history + [Entry(st)]
  {
    var r, c, t := st.selectedCell.value.row, st.selectedCell.value.col, PlaceNumberSpec(st, number, now);
    assert !SimpleGenerator.NoEmpty(WriteNumber(Pushed(st), r, c, number).cells) by {
      assert WriteNumber(Pushed(st), r, c, number).cells[r][c] == None;
    }
  }

  /** A hint writes the solution's value into the empty selected cell,
      spends one hint (never going below zero), strikes the value from the
      notes of the cell's units and costs no mistake. */
  lemma UseHintOutcome(st: GameState)
    requires Inv(st) && HintApplies(st)
    ensures var r, c, t := st.selectedCell.value.row, st.selectedCell.value.col, UseHintSpec(st);
      && t.cells[r][c] == st.solution[r][c]
      && (forall i, j :: InGrid(i, j) && (i != r || j != c) ==> t.cells[i][j] == st.cells[i][j])
      && t.hints == st.hints - 1 >= 0 && t.mistakes == st.mistakes
      && t.notes[r][c] == {}
      && (st.solution[r][c].Some? ==>
            forall i, j :: InGrid(i, j) && SameUnit(i, j, r, c) ==> st.solution[r][c].value !in t.notes[i][j])
      && t.history == st.history + [Entry(st)]
  {
  }

  /** The guards are exact: `placeNumber` and `clearCell` change the state
      exactly on an editable selection, and `useHint` exactly when a hint
      applies (each acting move grows the history). */
  lemma ActsIff(st: GameState, number: int, now: int)
    requires Inv(st)
    ensures PlaceNumberSpec(st, number, now) != st <==> Editable(st)
    ensures ClearCellSpec(st) != st <==> Editable(st)
    ensures UseHintSpec(st) != st <==> HintApplies(st)
  {
    if Editable(st) {
      assert |PlaceNumberSpec(st, number, now).history| == |st.history| + 1;
      assert |ClearCellSpec(st).history| == |st.history| + 1;
    }
    if HintApplies(st) {
      assert |UseHintSpec(st).history| == |st.history| + 1;
    }
  }

  /** A new game starts from the dealt puzzle with a full set of hints, no
      mistakes, no history, no selection, no highlight, no end time and
      empty notes, and it is running. */
  lemma NewGameResets(st: GameState, requested: Option<string>, puzzle: seq<seq<Cell>>, solution: seq<seq<Cell>>, now: int)
    requires IsBoard(puzzle) && IsBoard(solution)
    ensures var t := NewGameSpec(st, requested, puzzle, solution, now);
      && t.cells == puzzle && t.initialBoard == puzzle && t.solution == solution
      && t.hints == StartingHints && t.mistakes == 0 && t.history == []
      && t.selectedCell.None? && t.highlightNumber.None? && t.endTime.None? && t.startTime == now
      && !t.paused && !t.noteMode && (forall r, c :: InGrid(r, c) ==> t.notes[r][c] == {})
      && t.difficulty == (if requested.Some? && requested.value != "" then requested.value else st.difficulty)
      && Inv(t)
  {
  }

  /** Undo takes back a cleared cell completely. */
  lemma UndoInvertsClearCell(st: GameState)
    requires Inv(st) && Editable(st)
    ensures UndoSpec(ClearCellSpec(st)) == st
  {
    var h := st.history;
    assert (h + [Entry(st)])[..|h|] == h;
  }

  /** Undo takes back a placement that did not end the game (once over, the
      game ignores undo). */
  lemma UndoInvertsPlaceNumber(st: GameState, number: int, now: int)
    requires Inv(st) && Editable(st) && PlaceNumberSpec(st, number, now).endTime.None?
    ensures UndoSpec(PlaceNumberSpec(st, number, now)) == st
  {
    var h := st.history;
    assert (h + [Entry(st)])[..|h|] == h;
  }

  /** Undo takes back a hint's cells and notes but not the hint spent. */
  lemma UndoAfterHint(st: GameState)
    requires Inv(st) && HintApplies(st)
    ensures UndoSpec(UseHintSpec(st)) == st.(hints := st.hints - 1)
  {
    var h := st.history;
    assert (h + [Entry(st)])[..|h|] == h;
  }

  /** Selecting a cell of a running game makes it the selection and
      highlights its number (none for an empty cell). */
  lemma SelectCellOutcome(st: GameState, row: int, col: int)
    requires Inv(st) && !Halted(st) && InGrid(row, col)
    ensures var t := SelectCellSpec(st, row, col);
      t.selectedCell == Some(Position(row, col)) && t.highlightNumber == st.cells[row][col] &&
      t == st.(selectedCell := t.selectedCell, highlightNumber := t.highlightNumber)
  {
  }

  /** The keys `handleKeyPress` treats as digits: a first character from
      `1` to `8`, or exactly `9` (JavaScript compares strings character by
      character). */
  lemma DigitKeyIff(key: string)
    ensures IsDigitKey(key) <==> |key| >= 1 && ('1' <= key[0] < '9' || key == "9")
  {
    assert LexLe("1", key) <==> key != [] && key[0] >= '1' by {
      if key != [] && key[0] == '1' {
        assert LexLe("1"[1..], key[1..]);
      }
    }
    if key != [] && key[0] == '9' {
      assert LexLe(key, "9") <==> LexLe(key[1..], "9"[1..]);
      assert LexLe(key[1..], []) <==> key[1..] == [];
      assert key[1..] == [] <==> key == "9";
    }
  }

  /** A single digit key places that digit. */
  lemma DigitKeyNumber(key: string)
    requires |key| == 1 && IsDigitKey(key)
    ensures 1 <= KeyNumber(key) <= 9 && KeyNumber(key) == key[0] as int - '0' as int
  {
    DigitKeyIff(key);
    var ch := key[0];
    assert '1' <= ch <= '9' by {
      if key == "9" {
        assert ch == '9';
      }
    }
    assert IsDigitChar(ch);
    assert key == [ch] && key[1..] == [];
    assert DigitPrefix(key) == [ch] + DigitPrefix(key[1..]);
    assert DigitPrefix(key) == key;
    assert key[..0] == [];
    assert ParseNat(key) == ParseNat(key[..0]) * 10 + DigitValue(ch);
  }

  /** The score is never negative and never above the difficulty's base
      plus the full time bonus. */
  lemma ScoreBounds(difficulty: string, startTime: int, endTime: int, mistakes: int, hints: int)
    requires startTime <= endTime && mistakes >= 0 && 0 <= hints <= StartingHints
    ensures 0 <= CalculateScore(difficulty, startTime, endTime, mistakes, hints) <= BaseScore(difficulty) + 1000
  {
  }

  /** A slower game, more mistakes or fewer hints left never score more. */
  lemma ScoreMonotone(difficulty: string, startTime: int, endTime: int, endTime': int,
                      mistakes: int, mistakes': int, hints: int, hints': int)
    requires endTime <= endTime' && mistakes <= mistakes' && hints' <= hints
    ensures CalculateScore(difficulty, startTime, endTime', mistakes', hints') <=
            CalculateScore(difficulty, startTime, endTime, mistakes, hints)
  {
    SecondsMonotone(endTime - startTime, endTime' - startTime);
  }

  /** Whole seconds, `Math.floor(ms / 1000)`, grow with the milliseconds. */
  lemma SecondsMonotone(a: int, b: int)
    requires a <= b
    ensures a / 1000 <= b / 1000
  {
    var q, p := a / 1000, b / 1000;
    assert a == 1000 * q + a % 1000 && 0 <= a % 1000 < 1000;
    assert b == 1000 * p + b % 1000 && 0 <= b % 1000 < 1000;
  }

  /** The summary of a finished game: its player, its time as clock text
      that reads back as the whole seconds played, its mistakes, the hints
      spent (`0..3`) and a score within the bounds above. */
  lemma EndIfSummary(st: GameState, currentPlayer: string)
    requires Inv(st) && st.endTime.Some? && st.startTime <= st.endTime.value
    ensures var r := EndIf(st, currentPlayer).value;
      && r.winner == currentPlayer && r.mistakes == st.mistakes && r.difficulty == st.difficulty
      && 0 <= r.hintsUsed <= StartingHints
      && BoardView.ParseClock(r.time) == Some((st.endTime.value - st.startTime) / 1000)
      && 0 <= r.score <= BaseScore(st.difficulty) + 1000
  {
    var time := (st.endTime.value - st.startTime) / 1000;
    var score := CalculateScore(st.difficulty, st.startTime, st.endTime.value, st.mistakes, st.hints);
    assert EndIf(st, currentPlayer).value ==
      GameOver(currentPlayer, BoardView.FormatTime(time), st.mistakes, StartingHints - st.hints, st.difficulty, score);
    ScoreBounds(st.difficulty, st.startTime, st.endTime.value, st.mistakes, st.hints);
    BoardView.FormatTimeRoundTrip(time);
  }
}
