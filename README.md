# Vibedoku engine, game and board helpers in Dafny

This project models the core of vibedoku, a browser Sudoku game, and proves
properties of the model. It covers four parts:

- **The expert generator** (`sudoku-expert-generator.js`). It works on a 9x9
  grid of digits with `0` for an empty cell. It has a placement check, a
  backtracking filler, a memoized solution counter, a removal loop that keeps
  a removal only while the puzzle has one solution, a strategic removal order
  with a biased shuffle, a cell-importance and X-Wing heuristic, a
  naked/hidden-single propagator, and a weighted difficulty score with a
  rating table.
- **The simple generator** (`sudoku-game/src/sudokuGenerator.js`). It uses
  `null` for an empty cell. It has the move check and the solver, the seeding
  of the three diagonal boxes, random removal of a set number of cells, and the
  whole-board validity and completeness checks.
- **The game** (`sudoku-game/src/Game.js`). This covers the state built by
  `setup`, every move, the note clean-up after a placement, the end-of-game
  summary and the score.
- **The board helpers** (`sudoku-game/src/Board.js`). These are the
  conflict check, the digit counter, the clock text, and the box-border and
  "related" rules.

## How the model is built

Grids that the source changes in place are `array2`s. Each contract reads an
array through `Grids.Snapshot`, which gives its contents as a
`seq<seq<T>>`.

The operations that loop or write in place are methods. Each method is proved
against a function or predicate that says what it computes:

- `Grids.Occurs` says whether a value occurs in a cell's row, column or box.
- `Grids.UnitsDistinct` says no row, column or box repeats a value.
- `Grids.Count` counts the cells that hold a value.
- `ExpertSolver.Candidates` lists the digits a cell can still take.
- `ExpertSolver.Importance` is a cell's importance score.
- `ExpertDifficulty.Score` is the difficulty score.
- `Game.GameState` is the whole game state as a value. There is one transition
  function per move: `Game.PlaceNumberSpec`, `Game.UseHintSpec` and so on.

The game object is `Game.SudokuGame`. It keeps the cells in an `array2` and
the other fields as values. Each move method is proved to perform its
transition exactly: the ensures is `State() == XSpec(old(State()), …)`. Every
transition keeps `Game.Inv`, and lemmas state what the moves promise.

The model handles randomness and time as follows:

- **Randomness.** `Math.random` becomes an oracle object, `Randomness.Random`,
  that returns numbers from an arbitrary stream. The proofs hold for every
  stream.
- **Time.** `Date.now()` becomes an integer parameter `now`.

## Model

| member | source | states |
|---|---|---|
| ExpertSolver.IsValidPlacement | sudoku-expert-generator.js:508-529 | The check succeeds exactly when the number is absent from the cell's row, column and box. The box has origin `(3*(r/3), 3*(c/3))`. The grid is not modified. |
| ExpertSolver.CandidatesSpec | sudoku-expert-generator.js:531-539 | The candidate list is strictly ascending. It holds exactly the digits 1..9 that pass the placement check. A filled cell is not treated specially. |
| ExpertSolver.GetPossibleValues | sudoku-expert-generator.js:531-539 | The loop returns the candidate list: ascending, and exactly the digits that pass the placement check. |
| ExpertSolver.FindEmptyCell | sudoku-expert-generator.js:499-506 | It returns nothing exactly when no cell is 0. Otherwise it returns a cell holding 0 with no 0 before it in row-major order. |
| ExpertSolver.IsSolved | sudoku-expert-generator.js:541-548 | True exactly when no cell is 0. |
| ExpertSolver.CountClues | sudoku-expert-generator.js:550-558 | The count of non-zero cells, at most 81. |
| ExpertSolver.ShuffleArray | sudoku-expert-generator.js:564-571 | The result is a permutation of the input: same length, same multiset. |
| ExpertSolver.DigitOrder | sudoku-expert-generator.js:76 | The order tried is a rearrangement of 1..9. Without shuffling it is exactly 1..9 in ascending order. |
| ExpertSolver.FillGridWithBacktracking | sudoku-expert-generator.js:71-91 | All or nothing. On true the grid has no 0 and every originally non-zero cell is unchanged. On false the grid equals its input exactly. A filling of a grid without repeats has no repeats. |
| ExpertSolver.TryDigits | sudoku-expert-generator.js:78-88 | Trying the digits in turn at the empty cell is all or nothing. On true the grid has no 0 and keeps every filled cell. On false it equals its input. |
| ExpertSolver.TryDigit | sudoku-expert-generator.js:79-87 | A digit that fails the placement check is not written. A valid one is written and the fill recurses; if that fails the cell is set back to 0, so the grid equals its input. |
| ExpertSolver.GenerateCompleteSolution | sudoku-expert-generator.js:59-66 | A fresh grid that is either a complete grid of digits without repeats or still all zeros. |
| ExpertSolver.SlotsUpToSound | sudoku-expert-generator.js:411-416 | Every column recorded for a digit is empty and accepts the digit. |
| ExpertSolver.SlotsUpToComplete | sudoku-expert-generator.js:411-416 | Every empty column of the row that accepts the digit is recorded. |
| ExpertSolver.ApplyHiddenSingles | sudoku-expert-generator.js:407-426 | It changes the board exactly when some row has a digit with a single place. It then writes the first such (row, digit), in scan order, into that place. Otherwise the board is unchanged and no row has a hidden single. Only rows are scanned. The new board is `HiddenStep` of the old one. |
| ExpertSolver.FirstHiddenFromSpec | sudoku-expert-generator.js:409-421 | The scan over rows, then digits, finds a hidden single with none before it in scan order, or finds none because there is none. |
| ExpertSolver.FirstHiddenIs | sudoku-expert-generator.js:409-421 | A hidden single with none before it in scan order is the one the scan finds. |
| ExpertSolver.HiddenStepFacts | sudoku-expert-generator.js:407-426 | The hidden-single step changes the grid exactly when there is a row hidden single. A change fills one hole with a digit and adds no repeat. No change means no row hidden single is left. |
| ExpertSolver.FillNakedSingle | sudoku-expert-generator.js:384-389 | An empty cell with exactly one candidate gets that candidate. Any other cell is left alone. |
| ExpertSolver.FillStep | sudoku-expert-generator.js:384-389 | Writing a legal digit into an empty cell lowers the hole count. The new grid still extends the start, and a grid without repeats keeps none. |
| ExpertSolver.NakedSinglesPass | sudoku-expert-generator.js:382-392 | The copy after one pass is `Sweep` of the copy before. The cells are visited in row-major order, and each naked single is filled with its one candidate when it is reached, so later cells see earlier fills. The pass reports a change exactly when the copy changed. |
| ExpertSolver.SweepCellFacts | sudoku-expert-generator.js:384-389 | Visiting one cell fills it only if it is a naked single, and then with its candidate. The grid is left alone exactly when the cell is not a naked single. |
| ExpertSolver.SweepFromFacts | sudoku-expert-generator.js:382-392 | The rest of a sweep only fills holes, lowers the hole count when it changes anything, and changes nothing only when no naked single lies ahead. No repeat is added. |
| ExpertSolver.SweepFacts | sudoku-expert-generator.js:382-392 | A whole sweep only fills holes with digits and adds no repeat. If it changes the grid the hole count drops. If not, no naked single is left. |
| ExpertSolver.PropagateFacts | sudoku-expert-generator.js:378-399 | Sweeping until a sweep changes nothing, then taking one hidden single, and again, ends in a grid that keeps every filled cell of the start. That grid has no naked single and no row hidden single left, and no repeat is added. |
| ExpertSolver.CanSolveWithBasicTechniques | sudoku-expert-generator.js:374-402 | The answer is true exactly when `Propagate` of the puzzle has no 0. That is, the copy is swept for naked singles until a sweep changes nothing, then one row hidden single is taken, over and over. The puzzle itself is untouched. |
| ExpertSolver.HasNakedSingles | sudoku-expert-generator.js:573-583 | True exactly when some empty cell has exactly one candidate. |
| ExpertSolver.PairRowsSpec | sudoku-expert-generator.js:300-312 | The recorded rows are ascending, and each has exactly two candidate columns for the digit. Every such row is recorded. |
| ExpertSolver.PairRowsMatchIff | sudoku-expert-generator.js:315-324 | A match among the recorded rows exists exactly when two rows have the same two candidate columns. |
| ExpertSolver.FindMatchingRows | sudoku-expert-generator.js:315-323 | The pairwise search finds a match exactly when one exists. |
| ExpertSolver.XWingForDigit | sudoku-expert-generator.js:299-324 | True exactly when two rows share the same two candidate columns for the digit. |
| ExpertSolver.CheckForXWingPotential | sudoku-expert-generator.js:297-328 | True exactly when some digit 1..9 has such a row pair. |
| ExpertSolver.CreatesAdvancedPattern | sudoku-expert-generator.js:283-292 | The check is run on the grid with the cell emptied, and the grid is restored afterwards. |
| ExpertSolver.EmptiesInRow | sudoku-expert-generator.js:254-256 | The number of empty cells in the row. |
| ExpertSolver.EmptiesInCol | sudoku-expert-generator.js:259-261 | The number of empty cells in the column. |
| ExpertSolver.EmptiesInBox | sudoku-expert-generator.js:264-270 | The number of empty cells in the cell's box. |
| ExpertSolver.CalculateCellImportance | sudoku-expert-generator.js:249-278 | Empties in the row, column and box, plus 10 when emptying the cell gives an X-Wing pair. The grid is unchanged. |
| ExpertSolver.ImportanceOfFilledCell | sudoku-expert-generator.js:249-278 | A filled cell's importance lies in 0..34. |
| ExpertSolver.BestStep | sudoku-expert-generator.js:231-243 | Scanning one more cell keeps "the first filled cell of highest importance so far". |
| ExpertSolver.FindStrategicRemoval | sudoku-expert-generator.js:228-244 | It returns nothing exactly when no cell is filled. Otherwise it returns the first filled cell, in row-major order, of highest importance: what a stable descending sort puts first. The grid is unchanged. |
| ExpertDifficulty.ScoreTableRange | sudoku-expert-generator.js:9-31 | Every technique weight lies in 1..50. Only a naked single weighs 1 and only guessing weighs 50. |
| ExpertDifficulty.TechniquesFoundShape | sudoku-expert-generator.js:451-467 | Every count in the technique table is 1, and no technique appears twice. |
| ExpertDifficulty.TechniquesFoundKeys | sudoku-expert-generator.js:451-467 | The table has a naked single exactly when there is one, and always a hidden single. It has an X-Wing exactly below 25 clues and guessing exactly below 20 clues. Nothing else appears. |
| ExpertDifficulty.ClueBonus | sudoku-expert-generator.js:440-443 | The bonus is one of 0, 20, 30 or 50. |
| ExpertDifficulty.WeightedSumAppend | sudoku-expert-generator.js:435-437 | The weighted sum over two blocks of the table is the sum of their sums. |
| ExpertDifficulty.TechniqueSum | sudoku-expert-generator.js:431-437 | The weighted sum is 1 for a naked single, plus 2, plus 10 below 25 clues, plus 50 below 20 clues. |
| ExpertDifficulty.ScoreBounds | sudoku-expert-generator.js:431-446 | The difficulty score lies in 2..113. It reaches 113 exactly with a naked single and fewer than 20 clues. |
| ExpertDifficulty.ScoreAntitone | sudoku-expert-generator.js:431-446 | Fewer clues never lower the score. |
| ExpertDifficulty.NakedSingleAddsOne | sudoku-expert-generator.js:459 | A naked single adds exactly 1 to the score. |
| ExpertDifficulty.GetRating | sudoku-expert-generator.js:488-495 | The rating is the highest one whose threshold (200/150/100/70/40/0) the score reaches, and Easy below 40. |
| ExpertDifficulty.RatingNamesDistinct | sudoku-expert-generator.js:488-495 | Different ratings have different names. |
| ExpertDifficulty.RatingMonotone | sudoku-expert-generator.js:488-495 | A higher score never gives a lower rating. |
| ExpertDifficulty.RatingExamples | sudoku-expert-generator.js:488-495 | 200 is Diabolical, 199 and 150 are Fiendish, 149 is Expert, 99 is Hard, 69 is Medium, and 39 and 0 are Easy. |
| ExpertDifficulty.ExpertRatingByClues | sudoku-expert-generator.js:431-495 | A puzzle is rated Expert exactly with fewer than 20 clues, Medium with 20..23, and Easy with 24 or more. No other rating occurs. |
| ExpertDifficulty.AnalyzeSolvingTechniques | sudoku-expert-generator.js:451-467 | The technique table is built from the naked-single check and the clue count. The three other checks are stubs of the source. |
| ExpertDifficulty.CalculateDifficultyScore | sudoku-expert-generator.js:431-446 | The weighted sum of the technique table plus the clue bonus. |
| ExpertDifficulty.AnalyzeDifficulty | sudoku-expert-generator.js:472-483 | The report's clue count, score and technique table. Its rating is the score's rating, and is always Easy, Medium or Expert. |
| ExpertGenerator.PuzzleKey | sudoku-expert-generator.js:560-562 | On a grid of single digits the key is 81 characters long, and the character at `9 * r + c` is the digit in row `r`, column `c`. |
| ExpertGenerator.JoinSingleDigits | sudoku-expert-generator.js:560-562 | For single-digit cells, the key has one character per cell: that cell's digit. |
| ExpertGenerator.KeyInjective | sudoku-expert-generator.js:560-562 | Two grids of single-digit cells with the same key are equal, so the cache never confuses two such grids. |
| ExpertGenerator.JoinAmbiguousBeyondDigits | sudoku-expert-generator.js:560-562 | Outside single digits the key is ambiguous: `[1, 23]` and `[12, 3]` both give `"123"`. |
| ExpertGenerator.Solve | sudoku-expert-generator.js:343-360 | The counter restores its copy and never moves the count past the limit. A count that already reached the limit stays as it is. A complete grid adds exactly one. |
| ExpertGenerator.PatternsShape | sudoku-expert-generator.js:171-182 | There are 21 pattern cells, all distinct and on the grid. |
| ExpertGenerator.ScatterCells | sudoku-expert-generator.js:188-194 | The remaining cells are listed in row-major order: every non-pattern cell once, and no pattern cell. |
| ExpertGenerator.BaseOrderEachCellOnce | sudoku-expert-generator.js:166-194 | The pattern cells followed by the remaining cells list each of the 81 cells exactly once. |
| ExpertGenerator.SelectAppend | sudoku-expert-generator.js:212-220 | Selecting the entries taken from the kept prefix distributes over appending. |
| ExpertGenerator.TakeKept | sudoku-expert-generator.js:213-214 | Taking the next kept entry keeps the interleaving invariant. |
| ExpertGenerator.TakeShuffled | sudoku-expert-generator.js:215-216 | Taking the next shuffled entry keeps the interleaving invariant. |
| ExpertGenerator.ProgressKeepsUnderCacheGrowth | sudoku-expert-generator.js:335-366 | Growing the cache keeps what the removal loop knows. |
| ExpertGenerator.ProgressAfterRemoval | sudoku-expert-generator.js:129-136 | Emptying a cell whose emptied key is cached as unique, and recording it, keeps the removal invariant. Part of that invariant is that the empty cells are the solution's together with the recorded ones. |
| ExpertGenerator.HolesAfterEmpty | sudoku-expert-generator.js:130 | Emptying a cell adds exactly that cell to the empty cells. |
| ExpertGenerator.RemovedAtAppend | sudoku-expert-generator.js:136 | Recording a removal adds exactly its cell to the recorded cells. |
| ExpertGenerator.ExpertSudokuGenerator.CountSolutions | sudoku-expert-generator.js:333-369 | A cached key returns the cached count and leaves the cache alone, whatever the limit. Otherwise the count is at most the limit and is stored under the key. A complete grid counts 1. The puzzle is not modified. |
| ExpertGenerator.ExpertSudokuGenerator.StrategicShuffle | sudoku-expert-generator.js:203-223 | The result is a permutation of the input. The entries taken from the first 20 form exactly those 20, in their order. |
| ExpertGenerator.ExpertSudokuGenerator.GetStrategicRemovalOrder | sudoku-expert-generator.js:166-198 | Every cell appears exactly once. The first 20 pattern cells keep their relative order. |
| ExpertGenerator.ExpertSudokuGenerator.TryRemoval | sudoku-expert-generator.js:126-157 | The cell is removed under the same rule as `RemoveIfUnique`. Only when that removal is kept does the strategic removal follow, on the result. The removal invariant is kept and at most two removals are recorded. |
| ExpertGenerator.ExpertSudokuGenerator.TryStrategicRemoval | sudoku-expert-generator.js:139-153 | When singles alone do not complete the puzzle, nothing changes. Otherwise the cell picked is the first filled cell of highest importance, and it is removed under the `RemoveIfUnique` rule. With no filled cell nothing changes. The invariant is kept. |
| ExpertGenerator.ExpertSudokuGenerator.RemoveIfUnique | sudoku-expert-generator.js:143-151 | The key of the grid with the cell emptied is now in the cache, and nothing else is added to it. If its count is 1, the cell is empty and recorded with its old value. Otherwise the puzzle and the list are exactly as before. |
| ExpertGenerator.ExpertSudokuGenerator.AttemptDifficultPuzzle | sudoku-expert-generator.js:118-161 | A fresh puzzle, started from a copy of the solution. The order tried is the strategic order: every cell once, with the first 20 pattern cells in their own order. Its cells are tried one at a time, each as `TryRemoval` does, while fewer than 64 removals are recorded. The run stops before the end of the order only once 64 are recorded. The puzzle agrees with the solution, and its empty cells are the solution's together with the recorded ones. With any removal, the puzzle is cached as having one solution. At most 65 removals are recorded. |
| ExpertGenerator.ExpertSudokuGenerator.CreateDifficultPuzzle | sudoku-expert-generator.js:96-113 | Ten attempts are made. Each attempt agrees with the solution. Its empty cells are the solution's together with its recorded removals, of which there are at most 65. With any removal it is cached as having one solution. It carries its score. The result is one of them: no attempt scores higher, and every attempt before it scores strictly less. |
| ExpertGenerator.FirstHighestStep | sudoku-expert-generator.js:105-108 | A new score above the best so far becomes the best. Any other score leaves the best where it was. |
| ExpertGenerator.ExpertSudokuGenerator.GenerateExpertPuzzle | sudoku-expert-generator.js:40-54 | A fresh puzzle and solution that agree cell by cell. The puzzle is the first of ten scored attempts with the highest score, and the report carries that score, the clue count and the score's rating. |
| SimpleGenerator.IsValidMove | sudoku-game/src/sudokuGenerator.js:4-25 | False exactly when the number is already in the cell's row, column or box. |
| SimpleGenerator.SolveSudoku | sudoku-game/src/sudokuGenerator.js:28-44 | All or nothing. On true the board has no `null` and every filled cell is unchanged. On false the board is its input. A board without repeats keeps none. |
| SimpleGenerator.KeepsAfterFill | sudoku-game/src/sudokuGenerator.js:34-37 | A board that keeps a filled-in board also keeps the board before the fill. |
| SimpleGenerator.RearrangedDigits | sudoku-game/src/sudokuGenerator.js:52-57 | Any rearrangement of 1..9 is nine distinct digits. |
| SimpleGenerator.ShuffleDigits | sudoku-game/src/sudokuGenerator.js:52-57 | The shuffle is nine distinct digits 1..9. |
| SimpleGenerator.SeedBox | sudoku-game/src/sudokuGenerator.js:59-64 | The box at the given diagonal origin gets the shuffle, row by row. Every other cell is unchanged. |
| SimpleGenerator.SeededShape | sudoku-game/src/sudokuGenerator.js:51-65 | After seeding, a cell is filled exactly when it lies in a diagonal box. Each diagonal box is its shuffle. |
| SimpleGenerator.SeededDistinct | sudoku-game/src/sudokuGenerator.js:51-65 | The seeded board repeats nothing in any row, column or box. |
| SimpleGenerator.GenerateCompleteBoard | sudoku-game/src/sudokuGenerator.js:47-70 | A fresh board. It is either a full, valid board that keeps the seeded boxes, or the seeded board itself. |
| SimpleGenerator.CellsToRemoveTable | sudoku-game/src/sudokuGenerator.js:78-83 | The count is 35/45/55/64, is 45 for any unknown name, and grows with the tier. |
| SimpleGenerator.FilledCells | sudoku-game/src/sudokuGenerator.js:88-92 | Exactly the filled cells are listed. |
| SimpleGenerator.RemoveCells | sudoku-game/src/sudokuGenerator.js:85-98 | It empties exactly the requested number of further cells, or all of them if fewer are filled. Filled cells keep their values. |
| SimpleGenerator.GenerateSudokuPuzzle | sudoku-game/src/sudokuGenerator.js:73-105 | A fresh puzzle and a separate fresh solution, with the difficulty passed through. Every filled puzzle cell equals the solution's. The puzzle has `CellsToRemove` more empty cells than the solution, capped at 81. |
| SimpleGenerator.SeenStep | sudoku-game/src/sudokuGenerator.js:123-127 | Seeing a value again means a repeat. Otherwise the seen set grows by the value. |
| SimpleGenerator.ScanRow | sudoku-game/src/sudokuGenerator.js:120-129 | True exactly when the row repeats no value. |
| SimpleGenerator.ScanCol | sudoku-game/src/sudokuGenerator.js:132-141 | True exactly when the column repeats no value. |
| SimpleGenerator.ScanBox | sudoku-game/src/sudokuGenerator.js:144-157 | True exactly when the box repeats no value. |
| SimpleGenerator.IsBoardValid | sudoku-game/src/sudokuGenerator.js:118-160 | True exactly when no row, column or box repeats a non-null value. |
| SimpleGenerator.IsBoardComplete | sudoku-game/src/sudokuGenerator.js:108-115 | True exactly when no cell is `null` and the board is valid. |
| SimpleGenerator.GetPossibleValues | sudoku-game/src/sudokuGenerator.js:163-173 | `[]` for a filled cell. For an empty cell, an ascending list of exactly the digits that pass the move check. |
| SimpleGenerator.CountEmptyCells | sudoku-game/src/sudokuGenerator.js:176-184 | The number of `null` cells, at most 81. |
| Grids.DistinctIffPeersDiffer | sudoku-game/src/sudokuGenerator.js:118-160 | No unit repeats a value exactly when no two different cells sharing a unit hold the same value. |
| Grids.PlaceKeepsDistinct | sudoku-game/src/sudokuGenerator.js:32-33 | Writing a value that passes the move check into an empty cell keeps a board without repeats. |
| Grids.CountUpdate | sudoku-game/src/sudokuGenerator.js:94-95 | Changing one cell changes each value's count by that cell alone. |
| BoardView.IsValidInCurrentPosition | sudoku-game/src/Board.js:245-282 | The board is the same on every return. The result is true exactly when the cell is empty or no other cell sharing a unit holds its value. |
| BoardView.CountNumberOccurrences | sudoku-game/src/Board.js:284-292 | The number of cells holding the digit, at most 81. |
| BoardView.CountAtMostNine | sudoku-game/src/Board.js:108-119 | On a board whose rows repeat nothing, a digit occurs at most nine times, so the pad's `9 - count` is never negative. |
| BoardView.JsRem | sudoku-game/src/Board.js:30 | JavaScript's `%`: less than the divisor in size, and with the sign of the dividend. For a non-negative dividend it equals Dafny's `%`. |
| BoardView.JsRemOdd | sudoku-game/src/Board.js:30 | Negating the dividend negates the remainder. |
| BoardView.IndexOf | sudoku-game/src/Board.js:28-32 | The first position of the character, or the length of the string. |
| BoardView.FormatTimeRoundTrip | sudoku-game/src/Board.js:28-32 | For a non-negative time the text is the minutes, a colon and two digits of seconds. Reading it back gives the time. |
| BoardView.TwoDigits | sudoku-game/src/Board.js:31 | Seconds below 60, padded with `'0'`, are two digits that read back as themselves. |
| BoardView.BoxBorderAfterIff | sudoku-game/src/Board.js:73-74 | A border is drawn after an index exactly when the next index starts a new box, which means exactly after 2 and 5. |
| BoardView.RelatedIffSameUnit | sudoku-game/src/Board.js:58-70 | A cell is related exactly when there is a selection and the cell shares a row, column or box with it. |
| Strings.ParseNatToString | sudoku-game/src/Board.js:31 | Decimal text reads back as its number. |
| Game.EmptyNotes | sudoku-game/src/Game.js:22-24 | Nine by nine empty note sets. |
| Game.SelectCellSpec | sudoku-game/src/Game.js:38-49 | The invariant is kept. |
| Game.Toggle | sudoku-game/src/Game.js:68-72 | The number's note is switched and every other number's note is kept. |
| Game.ClearedNotes | sudoku-game/src/Game.js:220-239 | The number is struck from every cell sharing a unit, and nothing else is removed there. Other cells' sets are untouched. |
| Game.PlaceNumberSpec | sudoku-game/src/Game.js:51-96 | The invariant is kept: shapes, selection on the board, hints in 0..3, no negative mistakes, and the givens fixed in the cells and in every undo entry. |
| Game.ClearCellSpec | sudoku-game/src/Game.js:98-115 | The invariant is kept. |
| Game.ToggleNoteModeSpec | sudoku-game/src/Game.js:117-120 | The invariant is kept. |
| Game.UseHintSpec | sudoku-game/src/Game.js:122-144 | The invariant is kept. In particular the hints stay in 0..3. |
| Game.UndoSpec | sudoku-game/src/Game.js:146-153 | The invariant is kept, because a popped entry keeps the givens. |
| Game.TogglePauseSpec | sudoku-game/src/Game.js:155-158 | The invariant is kept. |
| Game.Fresh | sudoku-game/src/Game.js:17-34 | A dealt game satisfies the invariant and is running. |
| Game.HandleKeyPressSpec | sudoku-game/src/Game.js:182-198 | The invariant is kept. |
| Game.CalculateScore | sudoku-game/src/Game.js:242-256 | The score is never negative. |
| Game.EndIf | sudoku-game/src/Game.js:201-216 | A summary exists exactly when the game has an end time. |
| Game.ClearNotesForPlacedNumber | sudoku-game/src/Game.js:220-239 | The row, column and box loops produce exactly the cleared notes. |
| Game.Deal | sudoku-game/src/Game.js:15 | The puzzle is a fresh board whose filled cells agree with the solution, with the tier's number of cells removed (capped at 81). |
| Game.SudokuGame.constructor | sudoku-game/src/Game.js:13-35 | The fields are the state of a game dealt for the requested difficulty, `"medium"` by default. |
| Game.SudokuGame.SelectCell | sudoku-game/src/Game.js:38-49 | Performs the select transition. |
| Game.SudokuGame.PlaceNumber | sudoku-game/src/Game.js:51-96 | Performs the place transition in the same array. |
| Game.SudokuGame.ClearCell | sudoku-game/src/Game.js:98-115 | Performs the clear transition in the same array. |
| Game.SudokuGame.ToggleNoteMode | sudoku-game/src/Game.js:117-120 | Performs the note-mode transition. |
| Game.SudokuGame.UseHint | sudoku-game/src/Game.js:122-144 | Performs the hint transition in the same array. |
| Game.SudokuGame.Undo | sudoku-game/src/Game.js:146-153 | Performs the undo transition. The restored cells are a new array. |
| Game.SudokuGame.TogglePause | sudoku-game/src/Game.js:155-158 | Performs the pause transition. |
| Game.SudokuGame.NewGame | sudoku-game/src/Game.js:160-179 | The fields are the state of a game dealt for the requested difficulty, the current one by default. |
| Game.SudokuGame.HandleKeyPress | sudoku-game/src/Game.js:182-198 | Performs the key-press transition. |
| Game.HaltedIsNoOp | sudoku-game/src/Game.js:39-183 | A paused or ended game ignores every move except `togglePause`, and an ended game ignores that too. |
| Game.PauseKeyCannotResume | sudoku-game/src/Game.js:183-196 | While paused, the `p` key does nothing, although `togglePause` would resume. |
| Game.MovesKeepPuzzle | sudoku-game/src/Game.js:38-158 | No move changes the givens, the solution, the difficulty or the start time. |
| Game.KeyPressKeepsPuzzle | sudoku-game/src/Game.js:182-198 | Nor does a key press. |
| Game.OnlyPlacementEnds | sudoku-game/src/Game.js:91-95 | No move except a placement sets the end time. A hint that fills the board does not end the game. |
| Game.PlaceNumberOutcome | sudoku-game/src/Game.js:76-95 | Outside note mode the number is always written and one undo entry is pushed. An invalid move adds exactly one mistake and leaves the notes alone. A valid move empties the cell's notes and strikes the number from every cell sharing a unit. The game ends, at `now`, exactly when the board is then full and valid. |
| Game.NoteModeOutcome | sudoku-game/src/Game.js:66-75 | In note mode the number's note is switched, the cell is emptied, nothing else changes and the game cannot end. |
| Game.UseHintOutcome | sudoku-game/src/Game.js:122-144 | A hint writes the solution's value and spends one hint without going below 0. It costs no mistake, empties the cell's notes and strikes the value from every cell sharing a unit. |
| Game.ActsIff | sudoku-game/src/Game.js:52-57 | Placing and clearing change the state exactly on an editable selection. A hint changes it exactly when it applies: running, a hint left, and an empty selected cell. |
| Game.UndoInvertsClearCell | sudoku-game/src/Game.js:146-153 | Undo after an acting clear gives back the state before it. |
| Game.UndoInvertsPlaceNumber | sudoku-game/src/Game.js:146-153 | Undo after a placement that did not end the game gives back the state before it. |
| Game.UndoAfterHint | sudoku-game/src/Game.js:146-153 | Undo after a hint gives back everything except the hint spent. |
| Game.SelectCellOutcome | sudoku-game/src/Game.js:41-48 | Selecting sets the selection and highlights the cell's value. Nothing else changes. |
| Game.NewGameResets | sudoku-game/src/Game.js:160-179 | A new game has a full set of hints, no mistakes, no history, no selection, no highlight, no end time and empty notes. Its givens are the new puzzle, and the difficulty falls back to the current one. |
| Game.DigitKeyIff | sudoku-game/src/Game.js:185 | A key counts as a digit exactly when its first character is `1` to `8`, or it is exactly `9`. |
| Game.DigitKeyNumber | sudoku-game/src/Game.js:186 | A one-character digit key places that digit. |
| Game.ScoreBounds | sudoku-game/src/Game.js:242-256 | The score lies between 0 and the base score plus 1000. |
| Game.ScoreMonotone | sudoku-game/src/Game.js:250-255 | A slower game, more mistakes or fewer hints left never score more. |
| Game.SecondsMonotone | sudoku-game/src/Game.js:250 | Whole seconds grow with the milliseconds. |
| Game.EndIfSummary | sudoku-game/src/Game.js:201-216 | The summary's clock text reads back as the whole seconds played. Hints used lie in 0..3, and the score is within its bounds. |

## Behaviour kept as written

- The expert score is at most 113 (`ExpertDifficulty.ScoreBounds`), so the
  expert engine never rates a puzzle "Hard", "Fiendish" or "Diabolical"
  (`ExpertDifficulty.AnalyzeDifficulty`).
- `applyHiddenSingles` only scans rows.
- `strategicShuffle` keeps the first 20 of the 21 pattern cells in order. The
  21st is shuffled with the rest.
- A score from 150 up rates "Fiendish", so 199 is Fiendish
  (sudoku-expert-generator.js:488-495, `ExpertDifficulty.RatingExamples`).
- The solution cache is never cleared (sudoku-expert-generator.js:34).
  `ExpertGenerator.ExpertSudokuGenerator` keeps one cache for the object's
  whole life.
- The main removal loop can reach a cell that an earlier strategic removal
  already emptied. That cell's key is the puzzle's own key, which is cached
  as 1, so the loop records the cell a second time, with value 0. This is
  why `RemovalProgress` allows a recorded value of 0.
- The keyboard can pause a game but never resume it
  (`Game.PauseKeyCannotResume`). This rests on the key handler's `moves`
  running each move on the same state, which is an assumption about
  boardgame.io (see `Game.HandleKeyPressSpec` under "## Left out").
- `useHint` runs no completeness check (`Game.OnlyPlacementEnds`).
- Placing the digit a cell already holds counts as a mistake, because the cell
  is in its own row.

## Left out

- The React rendering, effects, keyboard listener and interval timer of
  `Board.js`, and the whole of `App.js`. The HTTP and boardgame.io servers,
  `events.endGame` and `console.log`. These are presentation, I/O or framework
  calls.
- `Date.now()` becomes an integer parameter. JavaScript treats a clock reading
  of 0 as "no end time"; the model does not, because a real clock is never 0.
- Randomness.Random.Chance: the `Math.random() < 0.7` bias of
  `strategicShuffle` is not modelled. Any boolean the oracle gives is allowed.
- SimpleGenerator.RemoveCells: the source picks random cells until it has
  emptied enough filled ones. The model makes each pick among the currently
  filled cells through the oracle. It stops once no filled cell is left, where
  the source would loop forever.
- ExpertGenerator.ExpertSudokuGenerator.CountSolutions states bounds, caching
  and the complete-grid case. It does not state that the count equals the
  number of completions capped at the limit.
- ExpertSolver.GenerateCompleteSolution and
  SimpleGenerator.GenerateCompleteBoard do not promise that the fill succeeds.
  Whether every seeded or empty grid can be completed is not modelled.
- SimpleGenerator.GenerateSudokuPuzzle: the default `difficulty = 'medium'`
  (sudokuGenerator.js:73) is not modelled, because a Dafny string parameter
  is never missing. Every caller in the model passes a name.
- ExpertGenerator.ExpertSudokuGenerator.CreateDifficultPuzzle states, for each
  of the ten attempts, the removal invariant, the bound of 65 removals and the
  score. The try-by-try account of one attempt is stated by
  `AttemptDifficultPuzzle` and is not repeated for each of the ten, so the
  contract alone would also admit attempts that removed nothing.
- Game.HandleKeyPressSpec: `handleKeyPress` calls the other moves through the
  `moves` object of its own move context (sudoku-game/src/Game.js:181-197).
  That object comes from boardgame.io, which is not part of this model. The
  model assumes that each such call runs that move on the same game state `G`,
  as if it were called directly. If the framework passes no `moves`, those
  calls fail, and the facts about key presses do not hold.
- ExpertGenerator.ExpertSudokuGenerator.GenerateExpertPuzzle states, for each
  attempt, only that it agrees with the solution and what it scores.
- `hasHiddenSingles`, `hasXWingPattern` and `requiresGuessing` are modelled as
  the stubs they are: constant true and two clue-count thresholds.
- Difficulty names that are members of `Object.prototype` (such as
  `"toString"`) are not modelled. `CellsToRemove` and `BaseScore` treat them
  like any other unknown name.
- Game.DigitKeyIff compares characters as Unicode scalar values, whereas
  JavaScript compares UTF-16 code units. The two orders agree on every key the
  browser sends.
- Game.SudokuGame.Undo allocates a fresh array for the restored cells, as the
  source assigns the saved copy. Aliasing between history entries and the live
  board is not modelled, because the source's entries are deep copies.
- The cells of the game are an `array2`. Notes, history, solution and givens
  are value fields, so in-place mutation of individual note sets is modelled
  as replacing the notes grid.
