/** The `ExpertSudokuGenerator` object: the memoized solution counter, the
    strategic removal order and its biased shuffle, the uniqueness-gated clue
    remover, the best-of-ten selection and the top-level generation. */
module ExpertGenerator {
  import opened Wrappers
  import opened Grids
  import opened Randomness
  import opened Strings
  import opened ExpertSolver
  import opened ExpertDifficulty

  // ---------------------------------------------------------------- puzzle key

  /** `numbers.join('')`: the decimal texts of the numbers, one after another. */
  function Join(xs: seq<int>): string {
    if xs == [] then "" else Join(xs[..|xs| - 1]) + IntToString(xs[|xs| - 1])
  }

  /** `getPuzzleKey`: the grid flattened row after row and joined.  On a
      grid of single digits that is one digit character per cell, row after row. */
  function PuzzleKey(s: seq<seq<int>>): (key: string)
    ensures IsBoard(s) && SingleDigits(s) ==>
      |key| == 81 && forall r, c :: InGrid(r, c) ==> key[9 * r + c] == DigitChar(s[r][c])
  {
    assert IsBoard(s) && SingleDigits(s) ==>
      |Join(Flat(s))| == 81 && forall r, c :: InGrid(r, c) ==> Join(Flat(s))[9 * r + c] == DigitChar(s[r][c]) by {
      if IsBoard(s) && SingleDigits(s) {
        FlatLength(s);
        forall k | 0 <= k < 81
          ensures 0 <= Flat(s)[k] <= 9
        {
          FlatIndex(s, k);
        }
        JoinSingleDigits(Flat(s));
        forall r, c | InGrid(r, c)
          ensures Join(Flat(s))[9 * r + c] == DigitChar(s[r][c])
        {
          FlatIndex(s, 9 * r + c);
        }
      }
    }
    Join(Flat(s))
  }

  /** Every cell holds a single decimal digit (`0` for empty). */
  ghost predicate SingleDigits(s: seq<seq<int>>)
    requires IsBoard(s)
  {
    forall r, c :: InGrid(r, c) ==> 0 <= s[r][c] <= 9
  }

  /** Joining single digits writes exactly one character per number. */
  lemma {:induction false} JoinSingleDigits(xs: seq<int>)
    requires forall i :: 0 <= i < |xs| ==> 0 <= xs[i] <= 9
    ensures |Join(xs)| == |xs|
    ensures forall i :: 0 <= i < |xs| ==> Join(xs)[i] == DigitChar(xs[i])
  {
    if xs != [] {
      JoinSingleDigits(xs[..|xs| - 1]);
    }
  }

  /** On single-digit grids, the key is injective: the cache never mixes up two grids. */
  lemma KeyInjective(s: seq<seq<int>>, t: seq<seq<int>>)
    requires IsBoard(s) && IsBoard(t) && SingleDigits(s) && SingleDigits(t)
    requires PuzzleKey(s) == PuzzleKey(t)
    ensures s == t
  {
    FlatLength(s);
    FlatLength(t);
    forall k | 0 <= k < 81
      ensures 0 <= Flat(s)[k] <= 9 && 0 <= Flat(t)[k] <= 9
    {
      FlatIndex(s, k);
      FlatIndex(t, k);
    }
    JoinSingleDigits(Flat(s));
    JoinSingleDigits(Flat(t));
    forall r, c | InGrid(r, c)
      ensures s[r][c] == t[r][c]
    {
      var k := 9 * r + c;
      FlatIndex(s, k);
      FlatIndex(t, k);
      assert DigitChar(s[r][c]) == DigitChar(t[r][c]);
    }
    SameBoard(s, t);
  }

  /** Without the single-digit condition the joined text is ambiguous:
      `[1, 23]` and `[12, 3]` both join to `"123"`. */
  lemma JoinAmbiguousBeyondDigits()
    ensures Join([1, 23]) == Join([12, 3]) == "123"
  {
    assert [1, 23][..1] == [1];
    assert [12, 3][..1] == [12];
    assert [1][..0] == [] && [12][..0] == [];
  }

  // ---------------------------------------------------------------- the solve closure

  /** The `solve` closure of `countSolutions`: counts completions of `copy`
      found by backtracking in cell order, stopping once `count` reaches
      `limit`.  The count only grows, never passes `limit` once below it, a
      complete grid adds exactly one, and the copy is left as it was. */
  method Solve(copy: array2<int>, limit: nat, count: nat) returns (result: nat)
    requires Is9x9(copy)
    modifies copy
    decreases Holes(Snapshot(copy), 0)
    ensures Snapshot(copy) == old(Snapshot(copy))
    ensures count <= result
    ensures count >= limit ==> result == count
    ensures count < limit ==> result <= limit
    ensures count < limit && Complete(old(Snapshot(copy))) ==> result == count + 1
  {
    if count >= limit {
      return count;
    }
    var empty := FindEmptyCell(copy);
    if empty.None? {
      return count + 1;
    }
    var row, col := empty.value.row, empty.value.col;
    ghost var s0 := Snapshot(copy);
    result := count;
    for num := 1 to 10
      invariant Snapshot(copy) == s0
      invariant count <= result <= limit
    {
      var valid := IsValidPlacement(copy, row, col, num);
      if valid {
        copy[row, col] := num;
        SameBoard(Snapshot(copy), Update(s0, row, col, num));
        FillShrinksHoles(s0, row, col, num, 0);
        result := Solve(copy, limit, result);
        copy[row, col] := 0;
        SameBoard(Snapshot(copy), s0);
      }
    }
  }

  // ---------------------------------------------------------------- removal order

  /** The 21 pattern cells, in the order they are tried first. */
  const Patterns: seq<Position> := [
    Position(0, 0), Position(0, 8), Position(8, 0), Position(8, 8),
    Position(0, 4), Position(4, 0), Position(4, 8), Position(8, 4),
    Position(4, 4), Position(2, 2), Position(2, 6), Position(6, 2), Position(6, 6),
    Position(1, 1), Position(1, 7), Position(7, 1), Position(7, 7),
    Position(3, 3), Position(3, 5), Position(5, 3), Position(5, 5)]

  predicate InGridCell(p: Position) {
    InGrid(p.row, p.col)
  }

  /** The row-major rank of a cell. */
  function Rank81(p: Position): int {
    9 * p.row + p.col
  }

  lemma PatternsShape()
    ensures |Patterns| == 21 && Distinct(Patterns)
    ensures forall i :: 0 <= i < |Patterns| ==> InGridCell(Patterns[i])
  {
  }

  /** The cells before `(r, c)` in row-major
      order that are not pattern cells, each once, ascending. */
  ghost predicate ScatterSoFar(rest: seq<Position>, r: int, c: int) {
    && (forall i :: 0 <= i < |rest| ==> InGridCell(rest[i]) && rest[i] !in Patterns && Rank81(rest[i]) < 9 * r + c)
    && (forall i, j :: 0 <= i < j < |rest| ==> Rank81(rest[i]) < Rank81(rest[j]))
    && (forall p :: InGridCell(p) && p !in Patterns && Rank81(p) < 9 * r + c ==> p in rest)
  }

  /** The remaining cells in row-major order (lines 188-194). */
  method ScatterCells() returns (rest: seq<Position>)
    ensures ScatterSoFar(rest, 9, 0)
  {
    rest := [];
    for r := 0 to 9
      invariant ScatterSoFar(rest, r, 0)
    {
      for c := 0 to 9
        invariant ScatterSoFar(rest, r, c)
      {
        ScatterStep(rest, r, c);
        if Position(r, c) !in Patterns {
          rest := rest + [Position(r, c)];
        }
      }
      ScatterRowEnd(rest, r);
    }
  }

  lemma ScatterStep(rest: seq<Position>, r: int, c: int)
    requires 0 <= r < 9 && 0 <= c < 9 && ScatterSoFar(rest, r, c)
    ensures ScatterSoFar(if Position(r, c) in Patterns then rest else rest + [Position(r, c)], r, c + 1)
  {
    var next := if Position(r, c) in Patterns then rest else rest + [Position(r, c)];
    forall p | InGridCell(p) && p !in Patterns && Rank81(p) < 9 * r + c + 1
      ensures p in next
    {
      if Rank81(p) == 9 * r + c {
        assert p == Position(r, c);
      }
    }
  }

  lemma ScatterRowEnd(rest: seq<Position>, r: int)
    requires ScatterSoFar(rest, r, 9)
    ensures ScatterSoFar(rest, r + 1, 0)
  {
  }

  /** Each cell of the grid occurs exactly once, and nothing else does. */
  ghost predicate EachCellOnce(order: seq<Position>) {
    forall p :: multiset(order)[p] == if InGridCell(p) then 1 else 0
  }

  /** Two lists of grid cells without repeats, sharing no cell and together
      covering the grid, list every cell once. */
  lemma CoverEachCellOnce(a: seq<Position>, b: seq<Position>)
    requires Distinct(a) && Distinct(b)
    requires forall i :: 0 <= i < |b| ==> b[i] !in a
    requires forall i :: 0 <= i < |a| ==> InGridCell(a[i])
    requires forall i :: 0 <= i < |b| ==> InGridCell(b[i])
    requires forall p :: InGridCell(p) ==> p in a || p in b
    ensures EachCellOnce(a + b)
  {
    var order := a + b;
    assert Distinct(order) by {
      forall i, j | 0 <= i < j < |order|
        ensures order[i] != order[j]
      {
        if i < |a| <= j {
          assert order[j] == b[j - |a|] && order[i] == a[i];
        }
      }
    }
    forall p
      ensures multiset(order)[p] == if InGridCell(p) then 1 else 0
    {
      DistinctCount(order, p);
      if p in order {
        var i :| 0 <= i < |order| && order[i] == p;
        if i >= |a| {
          assert order[i] == b[i - |a|];
        }
      }
    }
  }

  /** The pattern cells followed by the remaining ones list every cell once. */
  lemma BaseOrderEachCellOnce(rest: seq<Position>)
    requires ScatterSoFar(rest, 9, 0)
    ensures EachCellOnce(Patterns + rest)
  {
    PatternsShape();
    assert Distinct(rest) by {
      forall i, j | 0 <= i < j < |rest|
        ensures rest[i] != rest[j]
      {
        assert Rank81(rest[i]) < Rank81(rest[j]);
      }
    }
    forall p | InGridCell(p)
      ensures p in Patterns || p in rest
    {
      assert Rank81(p) < 81;
    }
    CoverEachCellOnce(Patterns, rest);
  }

  /** The entries of `xs` where `mask` holds, in order. */
  ghost function Select<T>(xs: seq<T>, mask: seq<bool>): seq<T>
    requires |mask| == |xs|
  {
    if xs == [] then [] else Select(xs[..|xs| - 1], mask[..|xs| - 1]) + (if mask[|xs| - 1] then [xs[|xs| - 1]] else [])
  }

  lemma SelectAppend<T>(xs: seq<T>, mask: seq<bool>, x: T, m: bool)
    requires |mask| == |xs|
    ensures Select(xs + [x], mask + [m]) == Select(xs, mask) + (if m then [x] else [])
  {
    assert (xs + [x])[..|xs|] == xs;
    assert (mask + [m])[..|xs|] == mask;
  }

  /** `result` interleaves the first `si` kept entries, in order at the
      places `mask` marks, with the first `ri` shuffled ones. */
  ghost predicate Interleaved<T>(result: seq<T>, mask: seq<bool>, kept: seq<T>, si: int, shuffled: seq<T>, ri: int) {
    && 0 <= si <= |kept| && 0 <= ri <= |shuffled|
    && |result| == si + ri && |mask| == |result|
    && multiset(result) == multiset(kept[..si]) + multiset(shuffled[..ri])
    && Select(result, mask) == kept[..si]
  }

  lemma TakeKept<T>(result: seq<T>, mask: seq<bool>, kept: seq<T>, si: int, shuffled: seq<T>, ri: int)
    requires Interleaved(result, mask, kept, si, shuffled, ri) && si < |kept|
    ensures Interleaved(result + [kept[si]], mask + [true], kept, si + 1, shuffled, ri)
  {
    SelectAppend(result, mask, kept[si], true);
    assert kept[..si + 1] == kept[..si] + [kept[si]];
    assert multiset(kept[..si + 1]) == multiset(kept[..si]) + multiset{kept[si]};
    assert multiset(result + [kept[si]]) == multiset(result) + multiset{kept[si]};
  }

  lemma TakeShuffled<T>(result: seq<T>, mask: seq<bool>, kept: seq<T>, si: int, shuffled: seq<T>, ri: int)
    requires Interleaved(result, mask, kept, si, shuffled, ri) && ri < |shuffled|
    ensures Interleaved(result + [shuffled[ri]], mask + [false], kept, si, shuffled, ri + 1)
  {
    SelectAppend(result, mask, shuffled[ri], false);
    assert shuffled[..ri + 1] == shuffled[..ri] + [shuffled[ri]];
    assert multiset(shuffled[..ri + 1]) == multiset(shuffled[..ri]) + multiset{shuffled[ri]};
    assert multiset(result + [shuffled[ri]]) == multiset(result) + multiset{shuffled[ri]};
  }

  // ---------------------------------------------------------------- clue removal

  /** One entry of `removedCells`. */
  datatype Removal = Removal(row: int, col: int, value: int)

  /** Every cell of `p` is empty or equal to the solution's. */
  ghost predicate AgreesWith(p: seq<seq<int>>, sol: seq<seq<int>>)
    requires IsBoard(p) && IsBoard(sol)
  {
    forall r, c :: InGrid(r, c) ==> p[r][c] == 0 || p[r][c] == sol[r][c]
  }

  /** Every entry of `before` is still in `cache`, with the same count. */
  ghost predicate CacheExtends(cache: map<string, nat>, before: map<string, nat>) {
    forall k :: k in before ==> k in cache && cache[k] == before[k]
  }

  /** The cells `removed` records. */
  ghost function RemovedAt(removed: seq<Removal>): set<Position> {
    set i | 0 <= i < |removed| :: Position(removed[i].row, removed[i].col)
  }

  lemma RemovedAtAppend(removed: seq<Removal>, x: Removal)
    ensures RemovedAt(removed + [x]) == RemovedAt(removed) + {Position(x.row, x.col)}
  {
    var rs := removed + [x];
    assert rs[|removed|] == x;
    forall p | p in RemovedAt(removed)
      ensures p in RemovedAt(rs)
    {
      var i :| 0 <= i < |removed| && p == Position(removed[i].row, removed[i].col);
      assert rs[i] == removed[i];
    }
  }

  /** Emptying a cell adds it to the empty cells and changes nothing else. */
  lemma HolesAfterEmpty(p: seq<seq<int>>, r: int, c: int)
    requires IsBoard(p) && InGrid(r, c)
    ensures Holes(Update(p, r, c, 0), 0) == Holes(p, 0) + {Position(r, c)}
  {
    var q := Update(p, r, c, 0);
    forall x | x in Holes(q, 0)
      ensures x in Holes(p, 0) + {Position(r, c)}
    {
      assert InGrid(x.row, x.col);
    }
    forall x | x in Holes(p, 0)
      ensures x in Holes(q, 0)
    {
      assert InGrid(x.row, x.col);
    }
  }

  /** What holds of the puzzle between two removal attempts: it agrees with
      the solution; its empty cells are the solution's together with the
      recorded ones; every recorded value was the solution's or already
      empty; with nothing removed it is the solution, and otherwise its key
      is cached as having one solution. */
  ghost predicate RemovalProgress(p: seq<seq<int>>, sol: seq<seq<int>>, removed: seq<Removal>, cache: map<string, nat>)
    requires IsBoard(p) && IsBoard(sol)
  {
    && AgreesWith(p, sol)
    && Holes(p, 0) == Holes(sol, 0) + RemovedAt(removed)
    && (forall i :: 0 <= i < |removed| ==>
          && InGrid(removed[i].row, removed[i].col)
          && (removed[i].value == 0 || removed[i].value == sol[removed[i].row][removed[i].col]))
    && (removed == [] ==> p == sol)
    && (removed != [] ==> PuzzleKey(p) in cache && cache[PuzzleKey(p)] == 1)
  }

  /** A recorded cell is empty. */
  lemma RemovedCellIsEmpty(p: seq<seq<int>>, sol: seq<seq<int>>, removed: seq<Removal>, cache: map<string, nat>, i: int)
    requires IsBoard(p) && IsBoard(sol) && RemovalProgress(p, sol, removed, cache) && 0 <= i < |removed|
    ensures p[removed[i].row][removed[i].col] == 0
  {
    assert Position(removed[i].row, removed[i].col) in RemovedAt(removed);
  }

  lemma ProgressKeepsUnderCacheGrowth(p: seq<seq<int>>, sol: seq<seq<int>>, removed: seq<Removal>,
                                      cache: map<string, nat>, before: map<string, nat>)
    requires IsBoard(p) && IsBoard(sol) && RemovalProgress(p, sol, removed, before) && CacheExtends(cache, before)
    ensures RemovalProgress(p, sol, removed, cache)
  {
  }

  /** Emptying a cell keeps agreement and the recorded empties, and records
      the removal; its key must be cached as uniquely solvable. */
  lemma ProgressAfterRemoval(p: seq<seq<int>>, sol: seq<seq<int>>, removed: seq<Removal>,
                             cache: map<string, nat>, r: int, c: int)
    requires IsBoard(p) && IsBoard(sol) && InGrid(r, c)
    requires RemovalProgress(p, sol, removed, cache)
    requires PuzzleKey(Update(p, r, c, 0)) in cache && cache[PuzzleKey(Update(p, r, c, 0))] == 1
    ensures RemovalProgress(Update(p, r, c, 0), sol, removed + [Removal(r, c, p[r][c])], cache)
  {
    var q := Update(p, r, c, 0);
    var x := Removal(r, c, p[r][c]);
    var rs := removed + [x];
    HolesAfterEmpty(p, r, c);
    RemovedAtAppend(removed, x);
    forall i | 0 <= i < |rs|
      ensures InGrid(rs[i].row, rs[i].col)
      ensures rs[i].value == 0 || rs[i].value == sol[rs[i].row][rs[i].col]
    {
      if i < |removed| {
        assert rs[i] == removed[i];
      }
    }
  }

  /** The state the clue remover works on: the puzzle, `removedCells` and the solution cache. */
  datatype RemovalState = RemovalState(grid: seq<seq<int>>, removed: seq<Removal>, cache: map<string, nat>)

  /** One gated removal of `(row, col)` (lines 129-135 and 143-151): the key
      of the grid with that cell emptied is now cached, nothing else is
      added to the cache, and when its count is 1 the cell is empty and
      recorded with its old value; otherwise puzzle and list are as before. */
  ghost predicate RemovalOutcome(before: RemovalState, row: int, col: int, after: RemovalState)
    requires IsBoard(before.grid) && InGrid(row, col)
  {
    var emptied := Update(before.grid, row, col, 0);
    var k := PuzzleKey(emptied);
    && k in after.cache
    && after.cache == before.cache[k := after.cache[k]]
    && (k in before.cache ==> after.cache[k] == before.cache[k])
    && (after.cache[k] == 1 ==>
          after.grid == emptied && after.removed == before.removed + [Removal(row, col, before.grid[row][col])])
    && (after.cache[k] != 1 ==> after.grid == before.grid && after.removed == before.removed)
  }

  /** The extra removal (lines 139-152): it is tried only when singles alone
      solve the puzzle, and then on the first most important filled cell
      (`pick`); without a pick nothing changes. */
  ghost predicate StrategicOutcome(before: RemovalState, pick: Option<Position>, after: RemovalState)
    requires IsBoard(before.grid)
  {
    var q := before.grid;
    && (Complete(Propagate(q)) ==> BestSoFar(q, ImportanceTable(q), pick, Position(9, 0)))
    && (pick.None? ==> after == before)
    && (pick.Some? ==>
          && Complete(Propagate(q)) && InGrid(pick.value.row, pick.value.col)
          && RemovalOutcome(before, pick.value.row, pick.value.col, after))
  }

  lemma StrategicSkipped(before: RemovalState)
    requires IsBoard(before.grid) && !Complete(Propagate(before.grid))
    ensures StrategicOutcome(before, None, before)
  {
  }

  lemma StrategicNoPick(before: RemovalState)
    requires IsBoard(before.grid) && BestSoFar(before.grid, ImportanceTable(before.grid), None, Position(9, 0))
    ensures StrategicOutcome(before, None, before)
  {
  }

  lemma StrategicPicked(before: RemovalState, pick: Position, after: RemovalState)
    requires IsBoard(before.grid) && Complete(Propagate(before.grid)) && InGrid(pick.row, pick.col)
    requires BestSoFar(before.grid, ImportanceTable(before.grid), Some(pick), Position(9, 0))
    requires RemovalOutcome(before, pick.row, pick.col, after)
    ensures StrategicOutcome(before, Some(pick), after)
  {
  }

  /** One iteration of the loop at lines 126-158 for cell `(row, col)`: the
      gated removal of that cell, reaching `mid`; then, only when it was
      kept, the extra removal. */
  ghost predicate TryOutcome(before: RemovalState, row: int, col: int, mid: RemovalState, pick: Option<Position>, after: RemovalState)
    requires IsBoard(before.grid) && InGrid(row, col)
  {
    && RemovalOutcome(before, row, col, mid)
    && IsBoard(mid.grid)
    && (mid.removed != before.removed ==> StrategicOutcome(mid, pick, after))
    && (mid.removed == before.removed ==> after == mid)
  }

  /** The cache after `countSolutions` on key `k` returned `count`. */
  lemma CountedCache(before: map<string, nat>, after: map<string, nat>, k: string, count: nat)
    requires k in before ==> count == before[k] && after == before
    requires k !in before ==> after == before[k := count]
    ensures k in after && after[k] == count && after == before[k := after[k]]
    ensures CacheExtends(after, before)
  {
  }

  lemma TryKept(before: RemovalState, row: int, col: int, mid: RemovalState, pick: Option<Position>, after: RemovalState)
    requires IsBoard(before.grid) && InGrid(row, col) && IsBoard(mid.grid)
    requires RemovalOutcome(before, row, col, mid) && mid.removed != before.removed
    requires StrategicOutcome(mid, pick, after)
    ensures TryOutcome(before, row, col, mid, pick, after)
  {
  }

  lemma TryRejected(before: RemovalState, row: int, col: int, mid: RemovalState)
    requires IsBoard(before.grid) && InGrid(row, col) && IsBoard(mid.grid)
    requires RemovalOutcome(before, row, col, mid) && mid.removed == before.removed
    ensures TryOutcome(before, row, col, mid, None, mid)
  {
  }

  /** The first `n` tries of a run of `attemptDifficultPuzzle`: try `j`
      works on cell `order[j]`, starts from `trace[j]` with fewer than 64
      removals recorded, passes through `mids[j]` and `picks[j]` and ends in
      `trace[j + 1]`. */
  ghost predicate TraceSteps(order: seq<Position>, trace: seq<RemovalState>, mids: seq<RemovalState>,
                             picks: seq<Option<Position>>, n: nat) {
    && n <= |order| && |trace| == n + 1 && |mids| == n && |picks| == n
    && forall j :: 0 <= j < n ==> TraceStepAt(order, trace, mids, picks, j)
  }

  /** A trace of `n` tries starts at `start` and ends at `final`. */
  ghost predicate TraceEnds(trace: seq<RemovalState>, n: nat, start: RemovalState, final: RemovalState) {
    n < |trace| && trace[0] == start && trace[n] == final
  }

  /** Try `j` of a trace: cell `order[j]`, tried while fewer than 64
      removals were recorded, takes `trace[j]` to `trace[j + 1]`. */
  ghost predicate TraceStepAt(order: seq<Position>, trace: seq<RemovalState>, mids: seq<RemovalState>,
                              picks: seq<Option<Position>>, j: nat)
    requires j < |order| && j + 1 < |trace| && j < |mids| && j < |picks|
  {
    && InGridCell(order[j]) && IsBoard(trace[j].grid) && |trace[j].removed| < 64
    && TryOutcome(trace[j], order[j].row, order[j].col, mids[j], picks[j], trace[j + 1])
  }

  lemma TraceStep(order: seq<Position>, trace: seq<RemovalState>, mids: seq<RemovalState>,
                  picks: seq<Option<Position>>, n: nat, mid: RemovalState, pick: Option<Position>, next: RemovalState)
    requires TraceSteps(order, trace, mids, picks, n) && n < |order|
    requires InGridCell(order[n]) && IsBoard(trace[n].grid) && |trace[n].removed| < 64
    requires TryOutcome(trace[n], order[n].row, order[n].col, mid, pick, next)
    ensures TraceSteps(order, trace + [next], mids + [mid], picks + [pick], n + 1)
  {
    var trace', mids', picks' := trace + [next], mids + [mid], picks + [pick];
    forall j | 0 <= j < n + 1
      ensures TraceStepAt(order, trace', mids', picks', j)
    {
      assert trace'[j] == trace[j] && trace'[j + 1] == (if j < n then trace[j + 1] else next);
      assert mids'[j] == (if j < n then mids[j] else mid) && picks'[j] == (if j < n then picks[j] else pick);
      if j < n {
        assert TraceStepAt(order, trace, mids, picks, j);
      }
    }
  }

  /** The first `n` attempts of `createDifficultPuzzle`: each agrees with
      `sol`, its empty cells are those of `sol` and its at most 65 recorded
      removals, it is cached as unique once anything was removed, and it
      carries its score. */
  ghost predicate AttemptsSoFar(attempts: seq<seq<seq<int>>>, removals: seq<seq<Removal>>, scores: seq<nat>,
                                sol: seq<seq<int>>, cache: map<string, nat>, n: nat)
    requires IsBoard(sol)
  {
    && |attempts| == n && |removals| == n && |scores| == n
    && forall i :: 0 <= i < n ==> AttemptAt(attempts, removals, scores, sol, cache, i)
  }

  /** Attempt `i`: its puzzle, its removal list and its score. */
  ghost predicate AttemptAt(attempts: seq<seq<seq<int>>>, removals: seq<seq<Removal>>, scores: seq<nat>,
                            sol: seq<seq<int>>, cache: map<string, nat>, i: nat)
    requires IsBoard(sol) && i < |attempts| && i < |removals| && i < |scores|
  {
    && IsBoard(attempts[i]) && |removals[i]| <= 65
    && RemovalProgress(attempts[i], sol, removals[i], cache)
    && scores[i] == Score(!NoNakedSingle(attempts[i]), Clues(attempts[i]))
  }

  lemma AttemptsUnderCacheGrowth(attempts: seq<seq<seq<int>>>, removals: seq<seq<Removal>>, scores: seq<nat>,
                                 sol: seq<seq<int>>, cache: map<string, nat>, before: map<string, nat>, n: nat)
    requires IsBoard(sol) && AttemptsSoFar(attempts, removals, scores, sol, before, n) && CacheExtends(cache, before)
    ensures AttemptsSoFar(attempts, removals, scores, sol, cache, n)
  {
    forall i | 0 <= i < n
      ensures AttemptAt(attempts, removals, scores, sol, cache, i)
    {
      assert AttemptAt(attempts, removals, scores, sol, before, i);
      ProgressKeepsUnderCacheGrowth(attempts[i], sol, removals[i], cache, before);
    }
  }

  lemma AttemptsStep(attempts: seq<seq<seq<int>>>, removals: seq<seq<Removal>>, scores: seq<nat>,
                     sol: seq<seq<int>>, cache: map<string, nat>, n: nat, p: seq<seq<int>>, removed: seq<Removal>, score: nat)
    requires IsBoard(sol) && AttemptsSoFar(attempts, removals, scores, sol, cache, n)
    requires IsBoard(p) && |removed| <= 65 && RemovalProgress(p, sol, removed, cache)
    requires score == Score(!NoNakedSingle(p), Clues(p))
    ensures AttemptsSoFar(attempts + [p], removals + [removed], scores + [score], sol, cache, n + 1)
  {
    var a', r', s' := attempts + [p], removals + [removed], scores + [score];
    forall i | 0 <= i < n + 1
      ensures AttemptAt(a', r', s', sol, cache, i)
    {
      if i < n {
        assert a'[i] == attempts[i] && r'[i] == removals[i] && s'[i] == scores[i];
        assert AttemptAt(attempts, removals, scores, sol, cache, i);
      } else {
        assert a'[i] == p && r'[i] == removed && s'[i] == score;
      }
    }
  }

  /** `top` is at least every score, and more than each one before `bestAt`. */
  ghost predicate FirstHighest(scores: seq<nat>, bestAt: nat, top: nat) {
    && (forall i :: 0 <= i < |scores| ==> scores[i] <= top)
    && (forall i :: 0 <= i < bestAt && i < |scores| ==> scores[i] < top)
  }

  /** The running best of `createDifficultPuzzle` after one more score `d`. */
  lemma FirstHighestStep(scores: seq<nat>, bestAt: nat, top: nat, d: nat)
    requires FirstHighest(scores, bestAt, top) && bestAt <= |scores|
    ensures d > top ==> FirstHighest(scores + [d], |scores|, d)
    ensures d <= top ==> FirstHighest(scores + [d], bestAt, top)
  {
    assert forall i :: 0 <= i < |scores| ==> (scores + [d])[i] == scores[i];
  }

  class ExpertSudokuGenerator {
    /** `solutionCache`: puzzle key to the count found for it; never cleared. */
    var solutionCache: map<string, nat>
    /** The `Math.random` the object draws from. */
    const rng: Random

    constructor (rng: Random)
      ensures solutionCache == map[] && this.rng == rng
    {
      solutionCache := map[];
      this.rng := rng;
    }

    /** `countSolutions`: a cached key returns the cached count whatever the
        limit; otherwise a private copy is searched, the count (at most
        `limit`) is cached under the key and returned.  The puzzle is never
        written, and a complete puzzle counts 1 for any positive limit. */
    method CountSolutions(puzzle: array2<int>, limit: nat) returns (count: nat)
      requires Is9x9(puzzle)
      modifies this
      ensures old(PuzzleKey(Snapshot(puzzle)) in solutionCache) ==>
        count == old(solutionCache[PuzzleKey(Snapshot(puzzle))]) && solutionCache == old(solutionCache)
      ensures old(PuzzleKey(Snapshot(puzzle)) !in solutionCache) ==>
        count <= limit && solutionCache == old(solutionCache)[PuzzleKey(Snapshot(puzzle)) := count] &&
        (Complete(Snapshot(puzzle)) && limit > 0 ==> count == 1)
      ensures PuzzleKey(Snapshot(puzzle)) in solutionCache && solutionCache[PuzzleKey(Snapshot(puzzle))] == count
    {
      var key := PuzzleKey(Snapshot(puzzle));
      if key in solutionCache {
        return solutionCache[key];
      }
      var copy := FromRows(Snapshot(puzzle));
      count := Solve(copy, limit, 0);
      solutionCache := solutionCache[key := count];
    }

    /** `strategicShuffle`: the first 20 entries (or all, if fewer) are kept
        in their order and interleaved with a shuffle of the rest, taking the
        next kept entry whenever a coin says so and the rest are not used up.
        The result is a permutation of the input; `mask` marks where the kept
        entries went. */
    method StrategicShuffle(order: seq<Position>) returns (result: seq<Position>, ghost mask: seq<bool>)
      modifies rng
      ensures |result| == |order| && multiset(result) == multiset(order)
      ensures |mask| == |result| && Select(result, mask) == order[..if |order| < 20 then |order| else 20]
    {
      var k := if |order| < 20 then |order| else 20;
      var strategic := order[..k];
      var remaining := ShuffleArray(order[k..], rng);
      assert order == strategic + order[k..];
      result := [];
      mask := [];
      var stratIndex, remIndex := 0, 0;
      while stratIndex < |strategic| || remIndex < |remaining|
        invariant 0 <= stratIndex <= |strategic| && 0 <= remIndex <= |remaining|
        invariant Interleaved(result, mask, strategic, stratIndex, remaining, remIndex)
        decreases |strategic| - stratIndex + |remaining| - remIndex
      {
        var coin := false;
        if stratIndex < |strategic| {
          coin := rng.Chance();
        }
        // the coin picks a kept entry; once the rest are used up, so does the last branch
        if (stratIndex < |strategic| && coin) || remIndex >= |remaining| {
          TakeKept(result, mask, strategic, stratIndex, remaining, remIndex);
          result, mask := result + [strategic[stratIndex]], mask + [true];
          stratIndex := stratIndex + 1;
        } else {
          TakeShuffled(result, mask, strategic, stratIndex, remaining, remIndex);
          result, mask := result + [remaining[remIndex]], mask + [false];
          remIndex := remIndex + 1;
        }
      }
      assert strategic[..stratIndex] == strategic && remaining[..remIndex] == remaining;
    }

    /** `getStrategicRemovalOrder`: every cell once, the first 20 pattern
        cells in their order among them. */
    method GetStrategicRemovalOrder() returns (order: seq<Position>, ghost mask: seq<bool>)
      modifies rng
      ensures EachCellOnce(order)
      ensures |mask| == |order| && Select(order, mask) == Patterns[..20]
    {
      var rest := ScatterCells();
      var base := Patterns + rest;
      BaseOrderEachCellOnce(rest);
      assert |base| >= 21;
      assert base[..20] == Patterns[..20];
      order, mask := StrategicShuffle(base);
    }

    /** The body of one iteration of `attemptDifficultPuzzle` for cell
        `(row, col)`: empty it and keep that only if the count is 1; then, if
        the puzzle is still solvable by singles alone, empty the most
        important filled cell as well, again only if the count stays 1.
        `mid` is the state between the two and `pick` the extra cell. */
    method TryRemoval(puzzle: array2<int>, row: int, col: int, removedCells: seq<Removal>, ghost sol: seq<seq<int>>)
      returns (removed: seq<Removal>, ghost mid: RemovalState, ghost pick: Option<Position>)
      requires Is9x9(puzzle) && InGrid(row, col) && IsBoard(sol)
      requires RemovalProgress(Snapshot(puzzle), sol, removedCells, solutionCache)
      modifies this, puzzle
      ensures RemovalProgress(Snapshot(puzzle), sol, removed, solutionCache)
      ensures TryOutcome(RemovalState(old(Snapshot(puzzle)), removedCells, old(solutionCache)), row, col,
                         mid, pick, RemovalState(Snapshot(puzzle), removed, solutionCache))
      ensures |removedCells| <= |removed| <= |removedCells| + 2
      ensures CacheExtends(solutionCache, old(solutionCache))
    {
      ghost var p0 := Snapshot(puzzle);
      ghost var before := RemovalState(p0, removedCells, solutionCache);
      removed := removedCells;
      var backup := puzzle[row, col];
      puzzle[row, col] := 0;
      SameBoard(Snapshot(puzzle), Update(p0, row, col, 0));
      ghost var cache0 := solutionCache;
      var solutionCount := CountSolutions(puzzle, 2);
      CountedCache(cache0, solutionCache, PuzzleKey(Update(p0, row, col, 0)), solutionCount);
      ProgressKeepsUnderCacheGrowth(p0, sol, removedCells, solutionCache, cache0);
      if solutionCount == 1 {
        ProgressAfterRemoval(p0, sol, removedCells, solutionCache, row, col);
        removed := removed + [Removal(row, col, backup)];
        mid := RemovalState(Snapshot(puzzle), removed, solutionCache);
        removed, pick := TryStrategicRemoval(puzzle, removed, sol);
        TryKept(before, row, col, mid, pick, RemovalState(Snapshot(puzzle), removed, solutionCache));
      } else {
        puzzle[row, col] := backup;
        SameBoard(Snapshot(puzzle), p0);
        mid, pick := RemovalState(Snapshot(puzzle), removed, solutionCache), None;
        TryRejected(before, row, col, mid);
      }
    }

    /** Lines 139-152: if singles alone solve the puzzle, empty the most
        important filled cell too, restoring it unless the count stays 1.
        `pick` is the cell `findStrategicRemoval` chose. */
    method TryStrategicRemoval(puzzle: array2<int>, removedCells: seq<Removal>, ghost sol: seq<seq<int>>)
      returns (removed: seq<Removal>, ghost pick: Option<Position>)
      requires Is9x9(puzzle) && IsBoard(sol)
      requires RemovalProgress(Snapshot(puzzle), sol, removedCells, solutionCache)
      modifies this, puzzle
      ensures RemovalProgress(Snapshot(puzzle), sol, removed, solutionCache)
      ensures StrategicOutcome(RemovalState(old(Snapshot(puzzle)), removedCells, old(solutionCache)),
                               pick, RemovalState(Snapshot(puzzle), removed, solutionCache))
      ensures |removedCells| <= |removed| <= |removedCells| + 1
      ensures CacheExtends(solutionCache, old(solutionCache))
    {
      ghost var before := RemovalState(Snapshot(puzzle), removedCells, solutionCache);
      removed, pick := removedCells, None;
      var basic := CanSolveWithBasicTechniques(puzzle);
      if !basic {
        StrategicSkipped(before);
        return;
      }
      var additionalRemoval := FindStrategicRemoval(puzzle);
      pick := additionalRemoval;
      if additionalRemoval.None? {
        StrategicNoPick(before);
        return;
      }
      var r2, c2 := additionalRemoval.value.row, additionalRemoval.value.col;
      BestIsCell(Snapshot(puzzle), ImportanceTable(Snapshot(puzzle)), additionalRemoval);
      removed := RemoveIfUnique(puzzle, r2, c2, removed, sol);
      StrategicPicked(before, Position(r2, c2), RemovalState(Snapshot(puzzle), removed, solutionCache));
    }

    /** Lines 143-151: empty `(row, col)` and record it if the count is 1,
        otherwise write the old value back. */
    method RemoveIfUnique(puzzle: array2<int>, row: int, col: int, removedCells: seq<Removal>, ghost sol: seq<seq<int>>)
      returns (removed: seq<Removal>)
      requires Is9x9(puzzle) && InGrid(row, col) && IsBoard(sol)
      requires RemovalProgress(Snapshot(puzzle), sol, removedCells, solutionCache)
      modifies this, puzzle
      ensures RemovalProgress(Snapshot(puzzle), sol, removed, solutionCache)
      ensures RemovalOutcome(RemovalState(old(Snapshot(puzzle)), removedCells, old(solutionCache)), row, col,
                             RemovalState(Snapshot(puzzle), removed, solutionCache))
      ensures CacheExtends(solutionCache, old(solutionCache))
    {
      removed := removedCells;
      ghost var p1 := Snapshot(puzzle);
      var backup2 := puzzle[row, col];
      puzzle[row, col] := 0;
      SameBoard(Snapshot(puzzle), Update(p1, row, col, 0));
      ghost var cache1 := solutionCache;
      var count2 := CountSolutions(puzzle, 2);
      CountedCache(cache1, solutionCache, PuzzleKey(Update(p1, row, col, 0)), count2);
      ProgressKeepsUnderCacheGrowth(p1, sol, removedCells, solutionCache, cache1);
      if count2 != 1 {
        puzzle[row, col] := backup2;
        SameBoard(Snapshot(puzzle), p1);
      } else {
        ProgressAfterRemoval(p1, sol, removedCells, solutionCache, row, col);
        removed := removed + [Removal(row, col, backup2)];
      }
    }

    /** `attemptDifficultPuzzle`: a fresh copy of the solution from which
        cells are emptied in the strategic order `order`, which lists every
        cell once and, where `mask` marks them, the first 20 pattern cells in
        their own order.  The first `tried`
        cells of it are tried one after another, each while fewer than 64
        removals are recorded, and the run stops early only once 64 are;
        `trace` holds the state before each try and after the last, `mids`
        and `picks` what each try passed through.  `removed` is the
        `removedCells` list. */
    method AttemptDifficultPuzzle(solution: array2<int>)
      returns (puzzle: array2<int>, ghost removed: seq<Removal>, ghost order: seq<Position>, ghost mask: seq<bool>, ghost tried: nat,
               ghost trace: seq<RemovalState>, ghost mids: seq<RemovalState>, ghost picks: seq<Option<Position>>)
      requires Is9x9(solution)
      modifies this, rng
      ensures fresh(puzzle) && Is9x9(puzzle)
      ensures RemovalProgress(Snapshot(puzzle), Snapshot(solution), removed, solutionCache)
      ensures |removed| <= 65
      ensures CacheExtends(solutionCache, old(solutionCache))
      ensures EachCellOnce(order) && forall i :: 0 <= i < |order| ==> InGridCell(order[i])
      ensures |mask| == |order| && Select(order, mask) == Patterns[..20]
      ensures TraceSteps(order, trace, mids, picks, tried)
      ensures TraceEnds(trace, tried, RemovalState(Snapshot(solution), [], old(solutionCache)),
                        RemovalState(Snapshot(puzzle), removed, solutionCache))
      ensures tried < |order| ==> |removed| >= 64
    {
      puzzle := FromRows(Snapshot(solution));
      ghost var sol := Snapshot(solution);
      var cellsToRemove := 64;
      var removedCells: seq<Removal> := [];
      var removalOrder;
      removalOrder, mask := GetStrategicRemovalOrder();
      order := removalOrder;
      forall i | 0 <= i < |order|
        ensures InGridCell(order[i])
      {
        assert multiset(order)[order[i]] > 0;
      }
      trace, mids, picks := [RemovalState(sol, [], solutionCache)], [], [];
      var i := 0;
      while i < |removalOrder|
        invariant 0 <= i <= |removalOrder|
        invariant fresh(puzzle) && Is9x9(puzzle) && Snapshot(solution) == sol
        invariant RemovalProgress(Snapshot(puzzle), sol, removedCells, solutionCache)
        invariant |removedCells| <= 65
        invariant CacheExtends(solutionCache, old(solutionCache))
        invariant TraceSteps(order, trace, mids, picks, i)
        invariant trace[0] == RemovalState(sol, [], old(solutionCache))
        invariant trace[i] == RemovalState(Snapshot(puzzle), removedCells, solutionCache)
      {
        if |removedCells| >= cellsToRemove {
          break;
        }
        var row, col := removalOrder[i].row, removalOrder[i].col;
        ghost var mid, pick;
        removedCells, mid, pick := TryRemoval(puzzle, row, col, removedCells, sol);
        ghost var next := RemovalState(Snapshot(puzzle), removedCells, solutionCache);
        TraceStep(order, trace, mids, picks, i, mid, pick, next);
        trace, mids, picks := trace + [next], mids + [mid], picks + [pick];
        i := i + 1;
      }
      removed, tried := removedCells, i;
    }

    /** `createDifficultPuzzle`: ten attempts, keeping the first one whose
        score is strictly higher than every earlier one.  Every score is at
        least 2, so the first attempt is always taken and the result is
        never `null`.  `attempts` are the ten puzzles as they were made,
        `removals` their removal lists, `scores` their scores and `bestAt`
        the attempt kept. */
    method CreateDifficultPuzzle(solution: array2<int>)
      returns (best: array2?<int>, ghost attempts: seq<seq<seq<int>>>, ghost removals: seq<seq<Removal>>,
               ghost scores: seq<nat>, ghost bestAt: nat)
      requires Is9x9(solution)
      modifies this, rng
      ensures best != null && fresh(best) && Is9x9(best)
      ensures AgreesWith(Snapshot(best), Snapshot(solution))
      ensures AttemptsSoFar(attempts, removals, scores, Snapshot(solution), solutionCache, 10) && bestAt < 10
      ensures Snapshot(best) == attempts[bestAt]
      ensures forall i :: 0 <= i < |scores| ==> scores[i] <= scores[bestAt]
      ensures forall i :: 0 <= i < bestAt ==> scores[i] < scores[bestAt]
      ensures CacheExtends(solutionCache, old(solutionCache))
    {
      ghost var sol := Snapshot(solution);
      best := null;
      var bestDifficulty := 0;
      var attemptCount := 10;
      attempts, removals, scores, bestAt := [], [], [], 0;
      for attempt := 0 to attemptCount
        invariant Snapshot(solution) == sol
        invariant AttemptsSoFar(attempts, removals, scores, sol, solutionCache, attempt)
        invariant CacheExtends(solutionCache, old(solutionCache))
        invariant best == null <==> attempt == 0
        invariant attempt == 0 ==> bestDifficulty == 0
        invariant bestAt <= attempt
        invariant best != null ==> fresh(best) && Is9x9(best) && bestAt < attempt
        invariant best != null ==> Snapshot(best) == attempts[bestAt] && scores[bestAt] == bestDifficulty
        invariant FirstHighest(scores, bestAt, bestDifficulty)
      {
        ghost var cache0 := solutionCache;
        var puzzle;
        ghost var removed, order, mask, tried, trace, mids, picks;
        puzzle, removed, order, mask, tried, trace, mids, picks := AttemptDifficultPuzzle(solution);
        AttemptsUnderCacheGrowth(attempts, removals, scores, sol, solutionCache, cache0, attempt);
        var difficulty := CalculateDifficultyScore(puzzle);
        ScoreBounds(!NoNakedSingle(Snapshot(puzzle)), Clues(Snapshot(puzzle)));
        AttemptsStep(attempts, removals, scores, sol, solutionCache, attempt, Snapshot(puzzle), removed, difficulty);
        FirstHighestStep(scores, bestAt, bestDifficulty, difficulty);
        attempts, removals, scores := attempts + [Snapshot(puzzle)], removals + [removed], scores + [difficulty];
        if difficulty > bestDifficulty {
          bestDifficulty := difficulty;
          best := puzzle;
          bestAt := attempt;
        }
      }
      assert AttemptAt(attempts, removals, scores, sol, solutionCache, bestAt);
    }

    /** `generateExpertPuzzle`: a fresh solution, the best of ten puzzles
        cut from it, and the puzzle's difficulty report. */
    method GenerateExpertPuzzle()
      returns (puzzle: array2<int>, solution: array2<int>, difficulty: DifficultyReport,
               ghost attempts: seq<seq<seq<int>>>, ghost scores: seq<nat>, ghost bestAt: nat)
      modifies this, rng
      ensures fresh(puzzle) && fresh(solution) && puzzle != solution && Is9x9(puzzle) && Is9x9(solution)
      ensures AgreesWith(Snapshot(puzzle), Snapshot(solution))
      ensures SolvedOrBlank(Snapshot(solution))
      ensures |attempts| == 10 && |scores| == 10 && bestAt < 10
      ensures forall i :: 0 <= i < 10 ==>
        && IsBoard(attempts[i]) && AgreesWith(attempts[i], Snapshot(solution))
        && scores[i] == Score(!NoNakedSingle(attempts[i]), Clues(attempts[i]))
      ensures Snapshot(puzzle) == attempts[bestAt]
      ensures forall i :: 0 <= i < 10 ==> scores[i] <= scores[bestAt]
      ensures forall i :: 0 <= i < bestAt ==> scores[i] < scores[bestAt]
      ensures difficulty.difficultyScore == scores[bestAt] == Score(!NoNakedSingle(Snapshot(puzzle)), Clues(Snapshot(puzzle)))
      ensures difficulty.clueCount == Clues(Snapshot(puzzle))
      ensures difficulty.rating == GetRating(difficulty.difficultyScore)
    {
      solution := GenerateCompleteSolution(rng);
      var best;
      ghost var removals;
      best, attempts, removals, scores, bestAt := CreateDifficultPuzzle(solution);
      forall i | 0 <= i < 10
        ensures && IsBoard(attempts[i]) && AgreesWith(attempts[i], Snapshot(solution))
                && scores[i] == Score(!NoNakedSingle(attempts[i]), Clues(attempts[i]))
      {
        assert AttemptAt(attempts, removals, scores, Snapshot(solution), solutionCache, i);
      }
      puzzle := best;
      difficulty := AnalyzeDifficulty(puzzle);
    }
  }
}
