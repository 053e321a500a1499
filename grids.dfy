/** What every part of the source shares about a 9x9 Sudoku grid: row-major
    `[row][col]` addressing, the box of a cell (origin `Math.floor(i / 3) * 3`),
    the three kinds of unit (row, column, box), and counting cells.  Grids the
    source changes in place are `array2`s; their contents as values are the
    nested sequences `Snapshot` returns.  The empty marker is a parameter
    (`blank`): `0` in the expert engine, `null` in the game. */
module Grids {

  /** A cell address, the source's `{row, col}` objects and `[r, c]` pairs. */
  datatype Position = Position(row: int, col: int)

  predicate InGrid(r: int, c: int) {
    0 <= r < 9 && 0 <= c < 9
  }

  /** A value a filled cell can hold. */
  predicate IsDigit(n: int) {
    1 <= n <= 9
  }

  /** The digits in ascending order, the list both generators shuffle. */
  const Digits: seq<int> := [1, 2, 3, 4, 5, 6, 7, 8, 9]

  /** `(r, c)` comes strictly before `p` in row-major order. */
  predicate Before(r: int, c: int, p: Position) {
    r < p.row || (r == p.row && c < p.col)
  }

  predicate IsBoxOrigin(o: int) {
    o == 0 || o == 3 || o == 6
  }

  /** `Math.floor(i / 3) * 3`: the first row (or column) of the box holding `i`. */
  function BoxStart(i: int): (o: int)
    requires 0 <= i < 9
    ensures IsBoxOrigin(o) && o <= i < o + 3
  {
    (i / 3) * 3
  }

  /** Two cells share a row, a column or a box. */
  predicate SameUnit(r1: int, c1: int, r2: int, c2: int)
    requires InGrid(r1, c1) && InGrid(r2, c2)
  {
    r1 == r2 || c1 == c2 || (BoxStart(r1) == BoxStart(r2) && BoxStart(c1) == BoxStart(c2))
  }

  // ---------------------------------------------------------------- shape

  predicate IsBoard<T>(s: seq<seq<T>>) {
    |s| == 9 && forall r :: 0 <= r < 9 ==> |s[r]| == 9
  }

  predicate Is9x9<T>(g: array2<T>) {
    g.Length0 == 9 && g.Length1 == 9
  }

  /** The contents of an in-place grid as a value. */
  function Snapshot<T>(g: array2<T>): (s: seq<seq<T>>)
    reads g
    requires Is9x9(g)
    ensures IsBoard(s)
    ensures forall r, c :: InGrid(r, c) ==> s[r][c] == g[r, c]
  {
    seq(9, r requires 0 <= r < 9 reads g => seq(9, c requires 0 <= c < 9 reads g => g[r, c]))
  }

  /** The grid with one cell replaced: `s[r][c] = v` on a copy. */
  function Update<T>(s: seq<seq<T>>, r: int, c: int, v: T): (t: seq<seq<T>>)
    requires IsBoard(s) && InGrid(r, c)
    ensures IsBoard(t)
    ensures forall i, j :: InGrid(i, j) ==> t[i][j] == if i == r && j == c then v else s[i][j]
  {
    s[r := s[r][c := v]]
  }

  /** Grids are equal when they agree cell by cell. */
  lemma SameBoard<T>(a: seq<seq<T>>, b: seq<seq<T>>)
    requires IsBoard(a) && IsBoard(b)
    requires forall r, c :: InGrid(r, c) ==> a[r][c] == b[r][c]
    ensures a == b
  {
    forall r | 0 <= r < 9
      ensures a[r] == b[r]
    {
      assert forall c :: 0 <= c < 9 ==> InGrid(r, c) && a[r][c] == b[r][c];
    }
  }

  /** A fresh grid holding `s`: `s.map(row => [...row])` into new storage. */
  method FromRows<T>(s: seq<seq<T>>) returns (g: array2<T>)
    requires IsBoard(s)
    ensures fresh(g) && Is9x9(g) && Snapshot(g) == s
  {
    g := new T[9, 9]((r, c) requires 0 <= r < 9 && 0 <= c < 9 => s[r][c]);
    SameBoard(Snapshot(g), s);
  }

  // ---------------------------------------------------------------- units

  function Col<T>(s: seq<seq<T>>, c: int): (col: seq<T>)
    requires IsBoard(s) && 0 <= c < 9
    ensures |col| == 9 && forall r :: 0 <= r < 9 ==> col[r] == s[r][c]
  {
    seq(9, r requires 0 <= r < 9 => s[r][c])
  }

  /** The nine cells of the box with origin `(br, bc)`, row by row. */
  function Box<T>(s: seq<seq<T>>, br: int, bc: int): (box: seq<T>)
    requires IsBoard(s) && IsBoxOrigin(br) && IsBoxOrigin(bc)
    ensures |box| == 9
  {
    s[br][bc..bc + 3] + s[br + 1][bc..bc + 3] + s[br + 2][bc..bc + 3]
  }

  /** Entry `3 * i + j` of a box is cell `(br + i, bc + j)`. */
  lemma BoxAt<T>(s: seq<seq<T>>, br: int, bc: int, i: int, j: int)
    requires IsBoard(s) && IsBoxOrigin(br) && IsBoxOrigin(bc) && 0 <= i < 3 && 0 <= j < 3
    ensures Box(s, br, bc)[3 * i + j] == s[br + i][bc + j]
  {
    var a, b, c := s[br][bc..bc + 3], s[br + 1][bc..bc + 3], s[br + 2][bc..bc + 3];
    var ab := a + b;
    assert |a| == 3 && |b| == 3 && |c| == 3 && |ab| == 6;
    assert Box(s, br, bc) == ab + c;
    if i == 0 {
      assert ab[j] == a[j] == s[br][bc + j];
      assert (ab + c)[j] == ab[j];
    } else if i == 1 {
      assert ab[3 + j] == b[j] == s[br + 1][bc + j];
      assert (ab + c)[3 + j] == ab[3 + j];
    } else {
      assert c[j] == s[br + 2][bc + j];
      assert (ab + c)[6 + j] == c[j];
    }
  }

  /** Entry `k` of a box is cell `(br + k / 3, bc + k % 3)`. */
  lemma BoxIndex<T>(s: seq<seq<T>>, br: int, bc: int, k: int)
    requires IsBoard(s) && IsBoxOrigin(br) && IsBoxOrigin(bc) && 0 <= k < 9
    ensures Box(s, br, bc)[k] == s[br + k / 3][bc + k % 3]
  {
    BoxCell(br, bc, k);
    BoxAt(s, br, bc, k / 3, k % 3);
  }

  /** `x` is already in row `r`, column `c`, or the box of `(r, c)`. */
  ghost predicate Occurs<T>(s: seq<seq<T>>, r: int, c: int, x: T)
    requires IsBoard(s) && InGrid(r, c)
  {
    x in s[r] || x in Col(s, c) || x in Box(s, BoxStart(r), BoxStart(c))
  }

  /** `x` occurs in the units of `(r, c)` exactly when some cell sharing a
      unit with `(r, c)` (the cell itself included) holds `x`. */
  lemma OccursIffPeerHolds<T>(s: seq<seq<T>>, r: int, c: int, x: T)
    requires IsBoard(s) && InGrid(r, c)
    ensures Occurs(s, r, c, x) <==>
      exists r2, c2 :: InGrid(r2, c2) && SameUnit(r, c, r2, c2) && s[r2][c2] == x
  {
    var br, bc := BoxStart(r), BoxStart(c);
    if x in s[r] {
      var c2 :| 0 <= c2 < 9 && s[r][c2] == x;
      assert InGrid(r, c2) && SameUnit(r, c, r, c2);
    } else if x in Col(s, c) {
      var r2 :| 0 <= r2 < 9 && Col(s, c)[r2] == x;
      assert InGrid(r2, c) && SameUnit(r, c, r2, c);
    } else if x in Box(s, br, bc) {
      var k :| 0 <= k < 9 && Box(s, br, bc)[k] == x;
      BoxIndex(s, br, bc, k);
      BoxCell(br, bc, k);
      var r2, c2 := br + k / 3, bc + k % 3;
      assert InGrid(r2, c2) && BoxStart(r2) == br && BoxStart(c2) == bc;
      assert SameUnit(r, c, r2, c2);
    } else {
      forall r2, c2 | InGrid(r2, c2) && SameUnit(r, c, r2, c2)
        ensures s[r2][c2] != x
      {
        if r2 == r {
          assert s[r][c2] in s[r];
        } else if c2 == c {
          assert Col(s, c)[r2] == s[r2][c];
        } else {
          BoxAt(s, br, bc, r2 - br, c2 - bc);
        }
      }
    }
  }

  // ---------------------------------------------------------------- distinct units

  /** No non-blank value repeats in `xs`. */
  ghost predicate NoRepeat<T>(xs: seq<T>, blank: T) {
    forall i, j :: 0 <= i < j < |xs| && xs[i] != blank ==> xs[i] != xs[j]
  }

  /** No row, column or box repeats a non-blank value. */
  ghost predicate UnitsDistinct<T>(s: seq<seq<T>>, blank: T)
    requires IsBoard(s)
  {
    && (forall r :: 0 <= r < 9 ==> NoRepeat(s[r], blank))
    && (forall c :: 0 <= c < 9 ==> NoRepeat(Col(s, c), blank))
    && (forall br, bc :: IsBoxOrigin(br) && IsBoxOrigin(bc) ==> NoRepeat(Box(s, br, bc), blank))
  }

  /** No two different cells that share a unit hold the same non-blank value. */
  ghost predicate PeersDiffer<T>(s: seq<seq<T>>, blank: T)
    requires IsBoard(s)
  {
    forall r1, c1, r2, c2 ::
      (InGrid(r1, c1) && InGrid(r2, c2) && (r1 != r2 || c1 != c2) && SameUnit(r1, c1, r2, c2) &&
       s[r1][c1] != blank) ==> s[r1][c1] != s[r2][c2]
  }

  /** The unit-by-unit and the cell-by-cell readings of "no repeats" agree. */
  lemma DistinctIffPeersDiffer<T>(s: seq<seq<T>>, blank: T)
    requires IsBoard(s)
    ensures UnitsDistinct(s, blank) <==> PeersDiffer(s, blank)
  {
    if UnitsDistinct(s, blank) {
      DistinctImpliesPeersDiffer(s, blank);
    }
    if PeersDiffer(s, blank) {
      PeersDifferImpliesDistinct(s, blank);
    }
  }

  lemma DistinctImpliesPeersDiffer<T>(s: seq<seq<T>>, blank: T)
    requires IsBoard(s) && UnitsDistinct(s, blank)
    ensures PeersDiffer(s, blank)
  {
    forall r1, c1, r2, c2 |
      InGrid(r1, c1) && InGrid(r2, c2) && (r1 != r2 || c1 != c2) && SameUnit(r1, c1, r2, c2) &&
      s[r1][c1] != blank
      ensures s[r1][c1] != s[r2][c2]
    {
      if r1 == r2 {
        assert NoRepeat(s[r1], blank);
      } else if c1 == c2 {
        var col := Col(s, c1);
        assert NoRepeat(col, blank);
        assert col[r1] == s[r1][c1] && col[r2] == s[r2][c2];
      } else {
        BoxPairDiffers(s, blank, r1, c1, r2, c2);
      }
    }
  }

  lemma BoxPairDiffers<T>(s: seq<seq<T>>, blank: T, r1: int, c1: int, r2: int, c2: int)
    requires IsBoard(s) && UnitsDistinct(s, blank)
    requires InGrid(r1, c1) && InGrid(r2, c2) && (r1 != r2 || c1 != c2)
    requires BoxStart(r1) == BoxStart(r2) && BoxStart(c1) == BoxStart(c2)
    requires s[r1][c1] != blank
    ensures s[r1][c1] != s[r2][c2]
  {
    var br, bc := BoxStart(r1), BoxStart(c1);
    var box := Box(s, br, bc);
    assert NoRepeat(box, blank);
    BoxAt(s, br, bc, r1 - br, c1 - bc);
    BoxAt(s, br, bc, r2 - br, c2 - bc);
    var k1, k2 := 3 * (r1 - br) + (c1 - bc), 3 * (r2 - br) + (c2 - bc);
    assert k1 != k2;
    assert box[k1] == s[r1][c1] && box[k2] == s[r2][c2];
  }

  lemma PeersDifferImpliesDistinct<T>(s: seq<seq<T>>, blank: T)
    requires IsBoard(s) && PeersDiffer(s, blank)
    ensures UnitsDistinct(s, blank)
  {
    forall r | 0 <= r < 9
      ensures NoRepeat(s[r], blank)
    {
      forall i, j | 0 <= i < j < 9 && s[r][i] != blank
        ensures s[r][i] != s[r][j]
      {
        assert SameUnit(r, i, r, j);
      }
    }
    forall c | 0 <= c < 9
      ensures NoRepeat(Col(s, c), blank)
    {
      forall i, j | 0 <= i < j < 9 && Col(s, c)[i] != blank
        ensures Col(s, c)[i] != Col(s, c)[j]
      {
        assert SameUnit(i, c, j, c);
      }
    }
    forall br, bc | IsBoxOrigin(br) && IsBoxOrigin(bc)
      ensures NoRepeat(Box(s, br, bc), blank)
    {
      BoxNoRepeat(s, blank, br, bc);
    }
  }

  lemma BoxNoRepeat<T>(s: seq<seq<T>>, blank: T, br: int, bc: int)
    requires IsBoard(s) && PeersDiffer(s, blank) && IsBoxOrigin(br) && IsBoxOrigin(bc)
    ensures NoRepeat(Box(s, br, bc), blank)
  {
    var box := Box(s, br, bc);
    forall i, j | 0 <= i < j < 9 && box[i] != blank
      ensures box[i] != box[j]
    {
      BoxCell(br, bc, i);
      BoxCell(br, bc, j);
      BoxIndex(s, br, bc, i);
      BoxIndex(s, br, bc, j);
      var r1, c1, r2, c2 := br + i / 3, bc + i % 3, br + j / 3, bc + j % 3;
      assert SameUnit(r1, c1, r2, c2);
    }
  }

  /** Entry `k` of a box lies in the box, and different entries are different cells. */
  lemma BoxCell(br: int, bc: int, k: int)
    requires IsBoxOrigin(br) && IsBoxOrigin(bc) && 0 <= k < 9
    ensures InGrid(br + k / 3, bc + k % 3)
    ensures BoxStart(br + k / 3) == br && BoxStart(bc + k % 3) == bc
    ensures k == 3 * (k / 3) + k % 3
  {
  }

  /** Writing into a blank cell a value that occurs in none of its units
      keeps every unit free of repeats. */
  lemma PlaceKeepsDistinct<T>(s: seq<seq<T>>, r: int, c: int, x: T, blank: T)
    requires IsBoard(s) && InGrid(r, c) && UnitsDistinct(s, blank)
    requires s[r][c] == blank && !Occurs(s, r, c, x)
    ensures UnitsDistinct(Update(s, r, c, x), blank)
  {
    var t := Update(s, r, c, x);
    DistinctIffPeersDiffer(s, blank);
    OccursIffPeerHolds(s, r, c, x);
    forall r1, c1, r2, c2 |
      InGrid(r1, c1) && InGrid(r2, c2) && (r1 != r2 || c1 != c2) && SameUnit(r1, c1, r2, c2) &&
      t[r1][c1] != blank
      ensures t[r1][c1] != t[r2][c2]
    {
      if r1 == r && c1 == c {
        assert SameUnit(r, c, r2, c2);
      } else if r2 == r && c2 == c {
        assert SameUnit(r, c, r1, c1);
      }
    }
    DistinctIffPeersDiffer(t, blank);
  }

  // ---------------------------------------------------------------- holes and counts

  /** The cells holding `blank`. */
  ghost function Holes<T>(s: seq<seq<T>>, blank: T): set<Position>
    requires IsBoard(s)
  {
    set r, c | 0 <= r < 9 && 0 <= c < 9 && s[r][c] == blank :: Position(r, c)
  }

  /** Filling a hole leaves strictly fewer holes. */
  lemma FillShrinksHoles<T>(s: seq<seq<T>>, r: int, c: int, v: T, blank: T)
    requires IsBoard(s) && InGrid(r, c) && s[r][c] == blank && v != blank
    ensures Holes(Update(s, r, c, v), blank) < Holes(s, blank)
  {
    var t := Update(s, r, c, v);
    assert Position(r, c) in Holes(s, blank);
    assert Position(r, c) !in Holes(t, blank);
    forall p | p in Holes(t, blank)
      ensures p in Holes(s, blank)
    {
      assert InGrid(p.row, p.col);
    }
  }

  /** The cells row after row: `grid.flat()`. */
  function Flat<T>(s: seq<seq<T>>): seq<T> {
    if s == [] then [] else Flat(s[..|s| - 1]) + s[|s| - 1]
  }

  lemma FlatPrefix<T>(s: seq<seq<T>>, r: int)
    requires 0 <= r < |s|
    ensures Flat(s[..r + 1]) == Flat(s[..r]) + s[r]
  {
    assert s[..r + 1][..r] == s[..r];
  }

  /** How many cells hold `x`. */
  ghost function Count<T>(s: seq<seq<T>>, x: T): nat {
    multiset(Flat(s))[x]
  }

  lemma {:induction false} FlatLength<T>(s: seq<seq<T>>)
    requires forall r :: 0 <= r < |s| ==> |s[r]| == 9
    ensures |Flat(s)| == 9 * |s|
  {
    if s != [] {
      FlatLength(s[..|s| - 1]);
    }
  }

  /** A count of cells is between 0 and 81. */
  lemma CountAtMost81<T>(s: seq<seq<T>>, x: T)
    requires IsBoard(s)
    ensures Count(s, x) <= 81
  {
    FlatLength(s);
    assert multiset(Flat(s))[x] <= |multiset(Flat(s))|;
  }

  /** `x` is in the flattened grid exactly when some cell holds it. */
  lemma {:induction false} InFlat<T>(s: seq<seq<T>>, x: T)
    ensures x in Flat(s) <==> exists r, c :: 0 <= r < |s| && 0 <= c < |s[r]| && s[r][c] == x
  {
    if s != [] {
      var n := |s| - 1;
      InFlat(s[..n], x);
      if x in Flat(s) {
        if x in s[n] {
          var c :| 0 <= c < |s[n]| && s[n][c] == x;
        } else {
          assert x in Flat(s[..n]);
          var r, c :| 0 <= r < n && 0 <= c < |s[..n][r]| && s[..n][r][c] == x;
          assert s[r][c] == x;
        }
      } else {
        forall r, c | 0 <= r < |s| && 0 <= c < |s[r]|
          ensures s[r][c] != x
        {
          if r == n {
            assert s[n][c] in s[n];
          } else {
            assert s[..n][r][c] == s[r][c];
          }
        }
      }
    }
  }

  /** No cell holds `x` exactly when the count of `x` is 0. */
  lemma CountZeroIff<T>(s: seq<seq<T>>, x: T)
    requires IsBoard(s)
    ensures Count(s, x) == 0 <==> forall r, c :: InGrid(r, c) ==> s[r][c] != x
  {
    InFlat(s, x);
  }

  lemma {:induction false} FlatUpdate<T>(s: seq<seq<T>>, r: int, c: int, v: T)
    requires 0 <= r < |s| && 0 <= c < |s[r]|
    ensures multiset(Flat(s[r := s[r][c := v]])) ==
            multiset(Flat(s)) - multiset{s[r][c]} + multiset{v}
  {
    var t := s[r := s[r][c := v]];
    var n := |s| - 1;
    assert Flat(t) == Flat(t[..n]) + t[n];
    if r == n {
      assert t[..n] == s[..n];
      assert s[r][c] in multiset(s[r]);
      SwapInSum(multiset(Flat(s[..n])), multiset(s[r]), s[r][c], v);
    } else {
      assert t[..n] == s[..n][r := s[..n][r][c := v]];
      FlatUpdate(s[..n], r, c, v);
      assert s[r][c] in multiset(Flat(s[..n])) by {
        InFlat(s[..n], s[r][c]);
        assert s[..n][r][c] == s[r][c];
      }
      SwapInSum(multiset(s[n]), multiset(Flat(s[..n])), s[r][c], v);
    }
  }

  /** Swapping one element of a part of a multiset sum swaps it in the sum. */
  lemma SwapInSum<T>(a: multiset<T>, b: multiset<T>, x: T, v: T)
    requires x in b
    ensures a + (b - multiset{x} + multiset{v}) == (a + b) - multiset{x} + multiset{v}
    ensures (b - multiset{x} + multiset{v}) + a == (b + a) - multiset{x} + multiset{v}
  {
  }

  /** Replacing one cell changes each count by at most the cell itself. */
  lemma CountUpdate<T>(s: seq<seq<T>>, r: int, c: int, v: T, x: T)
    requires IsBoard(s) && InGrid(r, c)
    ensures Count(Update(s, r, c, v), x) ==
            Count(s, x) - (if s[r][c] == x then 1 else 0) + (if v == x then 1 else 0)
  {
    FlatUpdate(s, r, c, v);
    assert s[r][c] in multiset(Flat(s)) by {
      InFlat(s, s[r][c]);
    }
  }

  /** Every cell holds `x` exactly when `x` is counted 81 times. */
  lemma CountAllIff<T>(s: seq<seq<T>>, x: T)
    requires IsBoard(s)
    ensures Count(s, x) == 81 <==> forall r, c :: InGrid(r, c) ==> s[r][c] == x
  {
    FlatLength(s);
    var f := Flat(s);
    if forall r, c :: InGrid(r, c) ==> s[r][c] == x {
      forall y | y != x
        ensures multiset(f)[y] == 0
      {
        InFlat(s, y);
      }
      AllSame(f, x);
    } else {
      var r, c :| InGrid(r, c) && s[r][c] != x;
      InFlat(s, s[r][c]);
      MissingLowersCount(f, x, s[r][c]);
    }
  }

  lemma {:induction false} AllSame<T>(f: seq<T>, x: T)
    requires forall y :: y != x ==> multiset(f)[y] == 0
    ensures multiset(f)[x] == |f|
  {
    if f != [] {
      var n := |f| - 1;
      assert f == f[..n] + [f[n]];
      assert multiset(f) == multiset(f[..n]) + multiset{f[n]};
      forall y | y != x
        ensures multiset(f[..n])[y] == 0
      {
        assert multiset(f)[y] == multiset(f[..n])[y] + multiset{f[n]}[y];
      }
      AllSame(f[..n], x);
      assert f[n] in multiset(f);
    }
  }

  lemma {:induction false} CountAtMostLength<T>(f: seq<T>, x: T)
    ensures multiset(f)[x] <= |f|
  {
    if f != [] {
      var n := |f| - 1;
      assert f == f[..n] + [f[n]];
      assert multiset(f) == multiset(f[..n]) + multiset{f[n]};
      CountAtMostLength(f[..n], x);
    }
  }

  lemma {:induction false} MissingLowersCount<T>(f: seq<T>, x: T, y: T)
    requires y in f && y != x
    ensures multiset(f)[x] < |f|
  {
    var n := |f| - 1;
    assert f == f[..n] + [f[n]];
    assert multiset(f) == multiset(f[..n]) + multiset{f[n]};
    if f[n] == y {
      CountAtMostLength(f[..n], x);
    } else {
      assert y in f[..n];
      MissingLowersCount(f[..n], x, y);
    }
  }

  // ---------------------------------------------------------------- counting loops

  /** A count over the first `r + 1` rows adds row `r` to the count over the first `r`. */
  lemma CountRowStep<T>(s: seq<seq<T>>, r: int, x: T)
    requires 0 <= r < |s|
    ensures multiset(Flat(s[..r + 1]))[x] == multiset(Flat(s[..r]))[x] + multiset(s[r])[x]
  {
    FlatPrefix(s, r);
  }

  /** A count over a prefix grows by one exactly when the next element is `x`. */
  lemma CountCellStep<T>(xs: seq<T>, c: int, x: T)
    requires 0 <= c < |xs|
    ensures multiset(xs[..c + 1])[x] == multiset(xs[..c])[x] + (if xs[c] == x then 1 else 0)
  {
    assert xs[..c + 1] == xs[..c] + [xs[c]];
  }

  lemma CountAllRows<T>(s: seq<seq<T>>, x: T)
    requires IsBoard(s)
    ensures multiset(Flat(s[..9]))[x] == Count(s, x)
  {
    assert s[..9] == s;
  }

  /** Cell `k` of the flattened grid is cell `(k / 9, k % 9)`. */
  lemma {:induction false} FlatIndex<T>(s: seq<seq<T>>, k: int)
    requires forall r :: 0 <= r < |s| ==> |s[r]| == 9
    requires 0 <= k < 9 * |s|
    ensures |Flat(s)| == 9 * |s| && Flat(s)[k] == s[k / 9][k % 9]
  {
    FlatLength(s);
    var n := |s| - 1;
    FlatLength(s[..n]);
    if k < 9 * n {
      FlatIndex(s[..n], k);
      assert s[..n][k / 9] == s[k / 9];
    } else {
      assert k / 9 == n && k % 9 == k - 9 * n;
    }
  }

  /** A grid whose every cell is blank repeats nothing. */
  lemma BlankDistinct<T>(s: seq<seq<T>>, blank: T)
    requires IsBoard(s) && forall r, c :: InGrid(r, c) ==> s[r][c] == blank
    ensures UnitsDistinct(s, blank)
  {
    forall c | 0 <= c < 9
      ensures NoRepeat(Col(s, c), blank)
    {
      assert forall r :: 0 <= r < 9 ==> Col(s, c)[r] == blank;
    }
    forall br, bc | IsBoxOrigin(br) && IsBoxOrigin(bc)
      ensures NoRepeat(Box(s, br, bc), blank)
    {
      forall k | 0 <= k < 9
        ensures Box(s, br, bc)[k] == blank
      {
        BoxIndex(s, br, bc, k);
        BoxCell(br, bc, k);
      }
    }
  }

  // ---------------------------------------------------------------- lists without repeats

  /** No entry repeats. */
  ghost predicate Distinct<T>(xs: seq<T>) {
    forall i, j :: 0 <= i < j < |xs| ==> xs[i] != xs[j]
  }

  /** In a list without repeats, every entry occurs once. */
  lemma {:induction false} DistinctCount<T>(xs: seq<T>, x: T)
    requires Distinct(xs)
    ensures multiset(xs)[x] == if x in xs then 1 else 0
  {
    if xs != [] {
      var n := |xs| - 1;
      assert xs == xs[..n] + [xs[n]];
      assert multiset(xs) == multiset(xs[..n]) + multiset{xs[n]};
      DistinctCount(xs[..n], x);
      if x == xs[n] {
        assert x !in xs[..n];
      }
    }
  }

  /** A permutation of a list without repeats has none either. */
  lemma PermutationDistinct<T>(xs: seq<T>, ys: seq<T>)
    requires Distinct(ys) && multiset(xs) == multiset(ys)
    ensures Distinct(xs)
  {
    forall i, j | 0 <= i < j < |xs|
      ensures xs[i] != xs[j]
    {
      if xs[i] == xs[j] {
        assert xs == xs[..j] + xs[j..];
        assert xs[i] in xs[..j] && xs[j] in xs[j..];
        assert multiset(xs)[xs[i]] == multiset(xs[..j])[xs[i]] + multiset(xs[j..])[xs[i]];
        DistinctCount(ys, xs[i]);
        assert false;
      }
    }
  }
}
