// Ceres word search: count the XMAS words in all eight directions from
// every X, and the A cells at the centre of two crossing MAS words.
module Day4 {

  datatype Value = X | M | A | S | Whatever

  /** The letter grid with its dimensions, taken from the number of rows and the length of the first row. */
  datatype Puzzle = Puzzle(data: seq<seq<Value>>, numRows: nat, numCols: nat)
  {
    /** A parsed grid: non-empty, rectangular, the stored dimensions, and only the four letters. */
    predicate Valid()
    {
      numRows == |data| && numRows > 0 && numCols == |data[0]| &&
      (forall r :: 0 <= r < numRows ==> |data[r]| == numCols) &&
      (forall r, c :: 0 <= r < numRows && 0 <= c < |data[r]| ==> data[r][c] != Whatever)
    }

    predicate InGrid(row: int, col: int)
    {
      0 <= row < numRows && 0 <= col < numCols
    }
  }

  function NewPuzzle(data: seq<seq<Value>>): (p: Puzzle)
    requires |data| > 0
    ensures p.data == data && p.numRows == |data| && p.numCols == |data[0]|
  {
    Puzzle(data, |data|, |data[0]|)
  }

  /** The letter at (row_idx, col_idx) translated by t, or Whatever off the grid. */
  function GetOpt(p: Puzzle, rowIdx: nat, colIdx: nat, t: (int, int)): (v: Value)
    requires p.Valid()
    ensures v == Whatever <==> !p.InGrid(rowIdx + t.0, colIdx + t.1)
    ensures p.InGrid(rowIdx + t.0, colIdx + t.1) ==> v == p.data[rowIdx + t.0][colIdx + t.1]
  {
    var newRow := rowIdx + t.0;
    var newCol := colIdx + t.1;
    if newRow < 0 || newRow >= p.numRows then Whatever
    else if newCol < 0 || newCol >= p.numCols then Whatever
    else p.data[newRow][newCol]
  }

  /** The word read along one list of translations. */
  function Word(p: Puzzle, i: nat, j: nat, translation: seq<(int, int)>): (w: seq<Value>)
    requires p.Valid()
    ensures |w| == |translation|
    ensures forall k :: 0 <= k < |w| ==> w[k] == GetOpt(p, i, j, translation[k])
  {
    seq(|translation|, k requires 0 <= k < |translation| => GetOpt(p, i, j, translation[k]))
  }

  /** One word per list of translations, in order, each read letter by letter. */
  method Iterate(p: Puzzle, i: nat, j: nat, translations: seq<seq<(int, int)>>) returns (result: seq<seq<Value>>)
    requires p.Valid()
    ensures |result| == |translations|
    ensures forall k :: 0 <= k < |result| ==> |result[k]| == |translations[k]|
    ensures forall k, m :: 0 <= k < |result| && 0 <= m < |result[k]| ==>
              result[k][m] == GetOpt(p, i, j, translations[k][m])
    ensures forall k :: 0 <= k < |result| ==> result[k] == Word(p, i, j, translations[k])
  {
    result := [];
    for k := 0 to |translations|
      invariant |result| == k
      invariant forall n :: 0 <= n < k ==> result[n] == Word(p, i, j, translations[n])
    {
      var translation := translations[k];
      var word := [];
      for m := 0 to |translation|
        invariant word == Word(p, i, j, translation[..m])
      {
        word := word + [GetOpt(p, i, j, translation[m])];
      }
      assert translation[..|translation|] == translation;
      result := result + [word];
    }
  }

  /** A word with an off-grid letter matches no word made of letters only. */
  lemma OffGridWordNeverMatches(p: Puzzle, i: nat, j: nat, translation: seq<(int, int)>, target: seq<Value>, k: nat)
    requires p.Valid() && k < |translation|
    requires !p.InGrid(i + translation[k].0, j + translation[k].1)
    requires forall n :: 0 <= n < |target| ==> target[n] != Whatever
    ensures Word(p, i, j, translation) != target
  {
    var w := Word(p, i, j, translation);
    assert w[k] == Whatever;
  }

  const XMAS: seq<Value> := [X, M, A, S]
  const MAS: seq<Value> := [M, A, S]
  const SAM: seq<Value> := [S, A, M]

  /** The eight reading directions: top, bottom, right, left and the four diagonals. */
  const Directions: seq<(int, int)> :=
    [(-1, 0), (1, 0), (0, 1), (0, -1), (-1, 1), (-1, -1), (1, 1), (1, -1)]

  const XmasTranslations: seq<seq<(int, int)>> := [
    [(0, 0), (-1, 0), (-2, 0), (-3, 0)],
    [(0, 0), (1, 0), (2, 0), (3, 0)],
    [(0, 0), (0, 1), (0, 2), (0, 3)],
    [(0, 0), (0, -1), (0, -2), (0, -3)],
    [(0, 0), (-1, 1), (-2, 2), (-3, 3)],
    [(0, 0), (-1, -1), (-2, -2), (-3, -3)],
    [(0, 0), (1, 1), (2, 2), (3, 3)],
    [(0, 0), (1, -1), (2, -2), (3, -3)]
  ]

  const MasTranslations: seq<seq<(int, int)>> := [
    [(-1, -1), (0, 0), (1, 1)],
    [(-1, 1), (0, 0), (1, -1)]
  ]

  /** Each translation list is the first four steps along one direction. */
  lemma XmasTranslationsAreRays(d: nat, k: nat)
    requires d < 8 && k < 4
    ensures |XmasTranslations[d]| == 4
    ensures XmasTranslations[d][k] == (k * Directions[d].0, k * Directions[d].1)
  {
  }

  /** XMAS read from (r, c) along a direction, as a property of the grid itself. */
  predicate ReadsXmas(p: Puzzle, r: nat, c: nat, dir: (int, int))
    requires p.Valid()
  {
    forall k :: 0 <= k < 4 ==>
      p.InGrid(r + k * dir.0, c + k * dir.1) && p.data[r + k * dir.0][c + k * dir.1] == XMAS[k]
  }

  /** The word along the d-th translation list is XMAS exactly when XMAS lies on the grid in that direction. */
  lemma WordIsXmasIffReadsXmas(p: Puzzle, r: nat, c: nat, d: nat)
    requires p.Valid() && d < 8
    ensures Word(p, r, c, XmasTranslations[d]) == XMAS <==> ReadsXmas(p, r, c, Directions[d])
  {
    var w := Word(p, r, c, XmasTranslations[d]);
    forall k | 0 <= k < 4
      ensures XmasTranslations[d][k] == (k * Directions[d].0, k * Directions[d].1)
    {
      XmasTranslationsAreRays(d, k);
    }
    if ReadsXmas(p, r, c, Directions[d]) {
      assert w == XMAS;
    }
    if w == XMAS {
      forall k | 0 <= k < 4
        ensures p.InGrid(r + k * Directions[d].0, c + k * Directions[d].1)
        ensures p.data[r + k * Directions[d].0][c + k * Directions[d].1] == XMAS[k]
      {
        assert w[k] == XMAS[k];
      }
    }
  }

  /** How many words of the list equal target. */
  function CountEqual(words: seq<seq<Value>>, target: seq<Value>): (n: nat)
    ensures n <= |words|
    decreases |words|
  {
    if words == [] then 0
    else (if words[0] == target then 1 else 0) + CountEqual(words[1..], target)
  }

  function XmasWords(p: Puzzle, r: nat, c: nat): (ws: seq<seq<Value>>)
    requires p.Valid()
    ensures |ws| == 8
  {
    seq(8, d requires 0 <= d < 8 => Word(p, r, c, XmasTranslations[d]))
  }

  /** What one cell adds in part one: for an X, the number of directions reading XMAS. */
  function XmasAt(p: Puzzle, r: nat, c: nat): nat
    requires p.Valid() && r < p.numRows && c < p.numCols
  {
    if p.data[r][c] != X then 0 else CountEqual(XmasWords(p, r, c), XMAS)
  }

  /** What one cell adds in part two: 1 for an A whose two diagonals both read MAS or SAM. */
  function CrossAt(p: Puzzle, r: nat, c: nat): nat
    requires p.Valid() && r < p.numRows && c < p.numCols
  {
    if p.data[r][c] != A then 0
    else
      var w0 := Word(p, r, c, MasTranslations[0]);
      var w1 := Word(p, r, c, MasTranslations[1]);
      if (w0 == MAS || w0 == SAM) && (w1 == MAS || w1 == SAM) then 1 else 0
  }

  /** The part-one contributions of the first cols cells of row r. */
  function RowXmas(p: Puzzle, r: nat, cols: nat): (n: nat)
    requires p.Valid() && r < p.numRows && cols <= p.numCols
    ensures n <= 8 * cols
  {
    if cols == 0 then 0 else RowXmas(p, r, cols - 1) + XmasAt(p, r, cols - 1)
  }

  /** The part-one contributions of the first rows rows. */
  function GridXmas(p: Puzzle, rows: nat): (n: nat)
    requires p.Valid() && rows <= p.numRows
    ensures n <= 8 * rows * p.numCols
  {
    if rows == 0 then 0
    else
      assert 8 * rows * p.numCols == 8 * (rows - 1) * p.numCols + 8 * p.numCols;
      GridXmas(p, rows - 1) + RowXmas(p, rows - 1, p.numCols)
  }

  function RowCross(p: Puzzle, r: nat, cols: nat): (n: nat)
    requires p.Valid() && r < p.numRows && cols <= p.numCols
    ensures n <= cols
  {
    if cols == 0 then 0 else RowCross(p, r, cols - 1) + CrossAt(p, r, cols - 1)
  }

  function GridCross(p: Puzzle, rows: nat): (n: nat)
    requires p.Valid() && rows <= p.numRows
    ensures n <= rows * p.numCols
  {
    if rows == 0 then 0
    else
      assert rows * p.numCols == (rows - 1) * p.numCols + p.numCols;
      GridCross(p, rows - 1) + RowCross(p, rows - 1, p.numCols)
  }

  lemma {:induction false} CountEqualAppend(a: seq<seq<Value>>, b: seq<seq<Value>>, target: seq<Value>)
    ensures CountEqual(a + b, target) == CountEqual(a, target) + CountEqual(b, target)
    decreases |a|
  {
    if a == [] {
      assert a + b == b;
    } else {
      assert (a + b)[1..] == a[1..] + b;
      CountEqualAppend(a[1..], b, target);
    }
  }

  /** The rays from (r, c) along the first n directions that lie on the grid and spell XMAS, as (row, column, direction). */
  ghost function CellRays(p: Puzzle, r: nat, c: nat, n: nat): set<(nat, nat, nat)>
    requires p.Valid()
  {
    set d: nat | d < n && d < 8 && ReadsXmas(p, r, c, Directions[d]) :: (r, c, d)
  }

  /** The rays spelling XMAS from the first cols cells of row r. */
  ghost function RowRays(p: Puzzle, r: nat, cols: nat): set<(nat, nat, nat)>
    requires p.Valid()
  {
    set c: nat, d: nat | c < cols && d < 8 && ReadsXmas(p, r, c, Directions[d]) :: (r, c, d)
  }

  /** The rays spelling XMAS from the cells of the first rows rows. */
  ghost function GridRays(p: Puzzle, rows: nat): set<(nat, nat, nat)>
    requires p.Valid()
  {
    set r: nat, c: nat, d: nat | r < rows && c < p.numCols && d < 8 && ReadsXmas(p, r, c, Directions[d]) :: (r, c, d)
  }

  lemma {:induction false} CellCount(p: Puzzle, r: nat, c: nat, n: nat)
    requires p.Valid() && n <= 8
    ensures CountEqual(XmasWords(p, r, c)[..n], XMAS) == |CellRays(p, r, c, n)|
  {
    if n == 0 {
      assert CellRays(p, r, c, n) == {};
    } else {
      CellCount(p, r, c, n - 1);
      CountEqualStep(XmasWords(p, r, c), n - 1, XMAS);
      WordIsXmasIffReadsXmas(p, r, c, n - 1);
      CellRaysSplit(p, r, c, n - 1);
    }
  }

  lemma CountEqualStep(words: seq<seq<Value>>, n: nat, target: seq<Value>)
    requires n < |words|
    ensures CountEqual(words[..n + 1], target) == CountEqual(words[..n], target) + (if words[n] == target then 1 else 0)
  {
    assert words[..n + 1] == words[..n] + [words[n]];
    CountEqualAppend(words[..n], [words[n]], target);
    assert CountEqual([words[n]], target) == if words[n] == target then 1 else 0;
  }

  lemma CellRaysSplit(p: Puzzle, r: nat, c: nat, d: nat)
    requires p.Valid() && d < 8
    ensures |CellRays(p, r, c, d + 1)| == |CellRays(p, r, c, d)| + (if ReadsXmas(p, r, c, Directions[d]) then 1 else 0)
  {
    var added: set<(nat, nat, nat)> := if ReadsXmas(p, r, c, Directions[d]) then {(r, c, d)} else {};
    assert CellRays(p, r, c, d + 1) == CellRays(p, r, c, d) + added;
    assert (r, c, d) !in CellRays(p, r, c, d);
  }

  /** A cell adds to part one the number of directions in which XMAS starts at it. */
  lemma XmasAtCountsRays(p: Puzzle, r: nat, c: nat)
    requires p.Valid() && r < p.numRows && c < p.numCols
    ensures XmasAt(p, r, c) == |CellRays(p, r, c, 8)|
  {
    if p.data[r][c] == X {
      CellCount(p, r, c, 8);
      assert XmasWords(p, r, c)[..8] == XmasWords(p, r, c);
    } else {
      forall d: nat | d < 8
        ensures !ReadsXmas(p, r, c, Directions[d])
      {
        assert r + 0 * Directions[d].0 == r && c + 0 * Directions[d].1 == c;
      }
      assert CellRays(p, r, c, 8) == {};
    }
  }

  lemma {:induction false} RowCountsRays(p: Puzzle, r: nat, cols: nat)
    requires p.Valid() && r < p.numRows && cols <= p.numCols
    ensures RowXmas(p, r, cols) == |RowRays(p, r, cols)|
  {
    if cols == 0 {
      assert RowRays(p, r, cols) == {};
    } else {
      RowCountsRays(p, r, cols - 1);
      RowRaysStep(p, r, cols - 1);
    }
  }

  /** One more cell of a row adds its rays to the row's count. */
  lemma RowRaysStep(p: Puzzle, r: nat, c: nat)
    requires p.Valid() && r < p.numRows && c < p.numCols
    requires RowXmas(p, r, c) == |RowRays(p, r, c)|
    ensures RowXmas(p, r, c + 1) == |RowRays(p, r, c + 1)|
  {
    XmasAtCountsRays(p, r, c);
    RowRaysSplit(p, r, c);
    AddDisjoint(RowXmas(p, r, c), XmasAt(p, r, c), RowRays(p, r, c), CellRays(p, r, c, 8), RowRays(p, r, c + 1));
  }

  lemma RowRaysSplit(p: Puzzle, r: nat, c: nat)
    requires p.Valid()
    ensures RowRays(p, r, c + 1) == RowRays(p, r, c) + CellRays(p, r, c, 8)
    ensures RowRays(p, r, c) * CellRays(p, r, c, 8) == {}
  {
    forall t | t in RowRays(p, r, c + 1)
      ensures t in RowRays(p, r, c) + CellRays(p, r, c, 8)
    {
      if t.1 < c {
        assert t in RowRays(p, r, c);
      } else {
        assert t in CellRays(p, r, c, 8);
      }
    }
  }

  lemma GridRaysSplit(p: Puzzle, r: nat)
    requires p.Valid()
    ensures GridRays(p, r + 1) == GridRays(p, r) + RowRays(p, r, p.numCols)
    ensures GridRays(p, r) * RowRays(p, r, p.numCols) == {}
  {
    forall t | t in GridRays(p, r + 1)
      ensures t in GridRays(p, r) + RowRays(p, r, p.numCols)
    {
      if t.0 < r {
        assert t in GridRays(p, r);
      } else {
        assert t in RowRays(p, r, p.numCols);
      }
    }
  }

  /** One more row adds its rays to the grid's count. */
  lemma GridRaysStep(p: Puzzle, r: nat)
    requires p.Valid() && r < p.numRows
    requires GridXmas(p, r) == |GridRays(p, r)|
    ensures GridXmas(p, r + 1) == |GridRays(p, r + 1)|
  {
    RowCountsRays(p, r, p.numCols);
    GridRaysSplit(p, r);
    AddDisjoint(GridXmas(p, r), RowXmas(p, r, p.numCols), GridRays(p, r), RowRays(p, r, p.numCols), GridRays(p, r + 1));
  }

  /** Part one's fold over the grid is the number of (cell, direction) rays that spell XMAS. */
  lemma {:induction false} GridCountsRays(p: Puzzle, rows: nat)
    requires p.Valid() && rows <= p.numRows
    ensures GridXmas(p, rows) == |GridRays(p, rows)|
  {
    if rows == 0 {
      assert GridRays(p, rows) == {};
    } else {
      GridCountsRays(p, rows - 1);
      GridRaysStep(p, rows - 1);
    }
  }

  /** One end of a diagonal reads M and the other S. */
  predicate Opposite(a: Value, b: Value)
  {
    (a == M && b == S) || (a == S && b == M)
  }

  /** An A with both diagonal neighbours on the grid, each diagonal reading M and S at its two ends. */
  predicate CrossMas(p: Puzzle, r: nat, c: nat)
    requires p.Valid() && r < p.numRows && c < p.numCols
  {
    p.data[r][c] == A && 1 <= r && r + 1 < p.numRows && 1 <= c && c + 1 < p.numCols &&
    Opposite(p.data[r - 1][c - 1], p.data[r + 1][c + 1]) &&
    Opposite(p.data[r - 1][c + 1], p.data[r + 1][c - 1])
  }

  /** A cell adds one in part two exactly when the grid holds a crossing MAS centred on it. */
  lemma CrossAtIsCrossMas(p: Puzzle, r: nat, c: nat)
    requires p.Valid() && r < p.numRows && c < p.numCols
    ensures CrossAt(p, r, c) == if CrossMas(p, r, c) then 1 else 0
  {
    if p.data[r][c] == A {
      var w0 := Word(p, r, c, MasTranslations[0]);
      var w1 := Word(p, r, c, MasTranslations[1]);
      assert w0 == [GetOpt(p, r, c, (-1, -1)), A, GetOpt(p, r, c, (1, 1))];
      assert w1 == [GetOpt(p, r, c, (-1, 1)), A, GetOpt(p, r, c, (1, -1))];
    }
  }

  /** The crossing-MAS centres among the first cols cells of row r. */
  ghost function RowCrosses(p: Puzzle, r: nat, cols: nat): set<(nat, nat)>
    requires p.Valid() && r < p.numRows && cols <= p.numCols
  {
    set c: nat | c < cols && CrossMas(p, r, c) :: (r, c)
  }

  /** The crossing-MAS centres of the first rows rows. */
  ghost function GridCrosses(p: Puzzle, rows: nat): set<(nat, nat)>
    requires p.Valid() && rows <= p.numRows
  {
    set r: nat, c: nat | r < rows && c < p.numCols && CrossMas(p, r, c) :: (r, c)
  }

  lemma {:induction false} RowCountsCrosses(p: Puzzle, r: nat, cols: nat)
    requires p.Valid() && r < p.numRows && cols <= p.numCols
    ensures RowCross(p, r, cols) == |RowCrosses(p, r, cols)|
  {
    if cols == 0 {
      assert RowCrosses(p, r, cols) == {};
    } else {
      RowCountsCrosses(p, r, cols - 1);
      RowCrossesStep(p, r, cols - 1);
    }
  }

  /** The crossing-MAS centre at (r, c), if there is one. */
  ghost function CellCross(p: Puzzle, r: nat, c: nat): (s: set<(nat, nat)>)
    requires p.Valid() && r < p.numRows && c < p.numCols
    ensures |s| == if CrossMas(p, r, c) then 1 else 0
  {
    if CrossMas(p, r, c) then {(r, c)} else {}
  }

  lemma RowCrossesSplit(p: Puzzle, r: nat, c: nat)
    requires p.Valid() && r < p.numRows && c < p.numCols
    ensures RowCrosses(p, r, c + 1) == RowCrosses(p, r, c) + CellCross(p, r, c)
    ensures RowCrosses(p, r, c) * CellCross(p, r, c) == {}
  {
  }

  /** Two counts of disjoint sets add up to the count of their union. */
  lemma AddDisjoint<T>(n: nat, m: nat, a: set<T>, b: set<T>, u: set<T>)
    requires n == |a| && m == |b| && u == a + b && a * b == {}
    ensures n + m == |u|
  {
  }

  lemma GridCrossesSplit(p: Puzzle, r: nat)
    requires p.Valid() && r < p.numRows
    ensures GridCrosses(p, r + 1) == GridCrosses(p, r) + RowCrosses(p, r, p.numCols)
    ensures GridCrosses(p, r) * RowCrosses(p, r, p.numCols) == {}
  {
    forall t | t in GridCrosses(p, r + 1)
      ensures t in GridCrosses(p, r) + RowCrosses(p, r, p.numCols)
    {
      if t.0 < r {
        assert t in GridCrosses(p, r);
      } else {
        assert t in RowCrosses(p, r, p.numCols);
      }
    }
  }

  /** One more cell of a row adds its crossing, if any, to the row's count. */
  lemma RowCrossesStep(p: Puzzle, r: nat, c: nat)
    requires p.Valid() && r < p.numRows && c < p.numCols
    requires RowCross(p, r, c) == |RowCrosses(p, r, c)|
    ensures RowCross(p, r, c + 1) == |RowCrosses(p, r, c + 1)|
  {
    CrossAtIsCrossMas(p, r, c);
    RowCrossesSplit(p, r, c);
    AddDisjoint(RowCross(p, r, c), CrossAt(p, r, c), RowCrosses(p, r, c), CellCross(p, r, c), RowCrosses(p, r, c + 1));
  }

  /** One more row adds its crossings to the grid's count. */
  lemma GridCrossesStep(p: Puzzle, r: nat)
    requires p.Valid() && r < p.numRows
    requires GridCross(p, r) == |GridCrosses(p, r)|
    ensures GridCross(p, r + 1) == |GridCrosses(p, r + 1)|
  {
    RowCountsCrosses(p, r, p.numCols);
    GridCrossesCard(p, r);
  }

  lemma GridCrossesCard(p: Puzzle, r: nat)
    requires p.Valid() && r < p.numRows
    ensures |GridCrosses(p, r + 1)| == |GridCrosses(p, r)| + |RowCrosses(p, r, p.numCols)|
  {
    GridCrossesSplit(p, r);
  }

  /** Part two's fold over the grid is the number of cells at the centre of a crossing MAS. */
  lemma {:induction false} GridCountsCrosses(p: Puzzle, rows: nat)
    requires p.Valid() && rows <= p.numRows
    ensures GridCross(p, rows) == |GridCrosses(p, rows)|
  {
    if rows == 0 {
      assert GridCrosses(p, rows) == {};
    } else {
      GridCountsCrosses(p, rows - 1);
      GridCrossesStep(p, rows - 1);
    }
  }

  /** Part one: for every X, the number of the eight directions that read XMAS. */
  method First(p: Puzzle) returns (xmasCount: nat)
    requires p.Valid()
    ensures xmasCount == GridXmas(p, p.numRows)
    ensures xmasCount <= 8 * p.numRows * p.numCols
    ensures xmasCount == |GridRays(p, p.numRows)|
  {
    xmasCount := 0;
    for rowIdx := 0 to p.numRows
      invariant xmasCount == GridXmas(p, rowIdx)
    {
      var row := p.data[rowIdx];
      for colIdx := 0 to |row|
        invariant xmasCount == GridXmas(p, rowIdx) + RowXmas(p, rowIdx, colIdx)
      {
        if row[colIdx] == X {
          var results := Iterate(p, rowIdx, colIdx, XmasTranslations);
          assert forall d :: 0 <= d < 8 ==> results[d] == XmasWords(p, rowIdx, colIdx)[d];
          assert results == XmasWords(p, rowIdx, colIdx);
          xmasCount := xmasCount + CountEqual(results, XMAS);
        }
      }
    }
    GridCountsRays(p, p.numRows);
  }

  /** Part two: the number of A cells at the centre of two crossing MAS words. */
  method Second(p: Puzzle) returns (xmasCount: nat)
    requires p.Valid()
    ensures xmasCount == GridCross(p, p.numRows)
    ensures xmasCount <= p.numRows * p.numCols
    ensures xmasCount == |GridCrosses(p, p.numRows)|
  {
    xmasCount := 0;
    for rowIdx := 0 to p.numRows
      invariant xmasCount == GridCross(p, rowIdx)
    {
      var row := p.data[rowIdx];
      for colIdx := 0 to |row|
        invariant xmasCount == GridCross(p, rowIdx) + RowCross(p, rowIdx, colIdx)
      {
        if row[colIdx] == A {
          var results := Iterate(p, rowIdx, colIdx, MasTranslations);
          assert results[0] == Word(p, rowIdx, colIdx, MasTranslations[0]);
          assert results[1] == Word(p, rowIdx, colIdx, MasTranslations[1]);
          if forall k :: 0 <= k < |results| ==> results[k] == MAS || results[k] == SAM {
            assert CrossAt(p, rowIdx, colIdx) == 1;
            xmasCount := xmasCount + 1;
          } else {
            assert !(results[0] == MAS || results[0] == SAM) || !(results[1] == MAS || results[1] == SAM);
          }
        }
      }
    }
    GridCountsCrosses(p, p.numRows);
  }
}
