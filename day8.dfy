// Resonant collinearity: for every ordered pair of distinct antennas of the
// same frequency, the points along the ray from the first antenna away from
// the second are antinodes, bounded by the grid and by an optional number of
// steps.
module Day8 {

  import opened Common

  datatype Value = Void | Antenna(frequency: char)

  /** An antenna as the source lists it: row, column and frequency. */
  type AntennaAt = (nat, nat, char)

  predicate InBounds(p: (int, int), numRows: int, numCols: int)
  {
    0 <= p.0 < numRows && 0 <= p.1 < numCols
  }

  /** The k-th point of the ray from (r, c) with step (dr, dc). */
  function Point(r: int, c: int, dr: int, dc: int, k: nat): (int, int)
  {
    (r + k * dr, c + k * dc)
  }

  /** Measure for the ray: the step budget when there is one, else the distance to the edge the step heads for. */
  function RayMeasure(r: int, c: int, dr: int, dc: int, numRows: int, numCols: int,
                      maxSteps: Option<nat>, steps: nat): int
  {
    if maxSteps.Some? then maxSteps.value + 1 - steps
    else if dr > 0 then numRows - r
    else if dr < 0 then r + 1
    else if dc > 0 then numCols - c
    else c + 1
  }

  /**
   * The number of points expand yields from step `steps` on, where (r, c) is
   * the current point: it stops at the first point off the grid, or once
   * steps exceeds the budget.
   */
  function RayLength(r: int, c: int, dr: int, dc: int, numRows: int, numCols: int,
                     maxSteps: Option<nat>, steps: nat): (n: nat)
    requires (dr, dc) != (0, 0) || maxSteps.Some?
    requires maxSteps.Some? ==> steps <= maxSteps.value + 1
    ensures forall k :: 0 <= k < n ==> InBounds(Point(r, c, dr, dc, k), numRows, numCols)
    ensures !InBounds(Point(r, c, dr, dc, n), numRows, numCols) ||
            (maxSteps.Some? && steps + n == maxSteps.value + 1)
    ensures maxSteps.Some? ==> steps + n <= maxSteps.value + 1
    decreases RayMeasure(r, c, dr, dc, numRows, numCols, maxSteps, steps)
  {
    if !InBounds((r, c), numRows, numCols) then 0
    else if maxSteps.Some? && steps > maxSteps.value then 0
    else
      var rest := RayLength(r + dr, c + dc, dr, dc, numRows, numCols, maxSteps, steps + 1);
      ShiftPoints(r, c, dr, dc, r + dr, c + dc, rest, numRows, numCols);
      1 + rest
  }

  /** The ray from the next point is the ray from this point shifted by one step. */
  lemma ShiftPoints(r: int, c: int, dr: int, dc: int, nr: int, nc: int, n: nat, numRows: int, numCols: int)
    requires nr == r + dr && nc == c + dc
    requires InBounds((r, c), numRows, numCols)
    requires forall k :: 0 <= k < n ==> InBounds(Point(nr, nc, dr, dc, k), numRows, numCols)
    ensures forall k :: 0 <= k < n + 1 ==> InBounds(Point(r, c, dr, dc, k), numRows, numCols)
    ensures Point(r, c, dr, dc, n + 1) == Point(nr, nc, dr, dc, n)
  {
    forall k | 0 <= k < n + 1
      ensures InBounds(Point(r, c, dr, dc, k), numRows, numCols)
    {
      if k > 0 {
        assert Point(r, c, dr, dc, k) == Point(nr, nc, dr, dc, k - 1);
      }
    }
  }

  /** The walk along a ray as the source performs it. */
  method Expand(rowIndex: int, colIndex: int, rowTranslation: int, colTranslation: int,
                numRows: int, numCols: int, maxSteps: Option<nat>) returns (coords: seq<(int, int)>)
    requires (rowTranslation, colTranslation) != (0, 0) || maxSteps.Some?
    ensures |coords| == RayLength(rowIndex, colIndex, rowTranslation, colTranslation, numRows, numCols, maxSteps, 0)
    ensures forall k :: 0 <= k < |coords| ==> coords[k] == Point(rowIndex, colIndex, rowTranslation, colTranslation, k)
    ensures forall k :: 0 <= k < |coords| ==> InBounds(coords[k], numRows, numCols)
    ensures maxSteps.Some? ==> |coords| <= maxSteps.value + 1
  {
    coords := [];
    var r, c := rowIndex, colIndex;
    var steps: nat := 0;
    while InBounds((r, c), numRows, numCols)
      invariant maxSteps.Some? ==> steps <= maxSteps.value + 1
      invariant |coords| == steps
      invariant (r, c) == Point(rowIndex, colIndex, rowTranslation, colTranslation, steps)
      invariant forall k :: 0 <= k < |coords| ==> coords[k] == Point(rowIndex, colIndex, rowTranslation, colTranslation, k)
      invariant steps + RayLength(r, c, rowTranslation, colTranslation, numRows, numCols, maxSteps, steps) ==
                RayLength(rowIndex, colIndex, rowTranslation, colTranslation, numRows, numCols, maxSteps, 0)
      decreases RayMeasure(r, c, rowTranslation, colTranslation, numRows, numCols, maxSteps, steps)
    {
      if maxSteps.Some? && steps > maxSteps.value {
        break;
      }
      PointStep(rowIndex, colIndex, rowTranslation, colTranslation, steps);
      RayLengthStep(r, c, rowTranslation, colTranslation, numRows, numCols, maxSteps, steps);
      coords := coords + [(r, c)];
      r, c := r + rowTranslation, c + colTranslation;
      steps := steps + 1;
    }
  }

  /** The next ray point is one step on from the current one. */
  lemma PointStep(r: int, c: int, dr: int, dc: int, k: nat)
    ensures Point(r, c, dr, dc, k + 1) == (Point(r, c, dr, dc, k).0 + dr, Point(r, c, dr, dc, k).1 + dc)
  {
    assert (k + 1) * dr == k * dr + dr && (k + 1) * dc == k * dc + dc;
  }

  /** A point on the grid within the budget is counted, then the ray goes on from the next point. */
  lemma RayLengthStep(r: int, c: int, dr: int, dc: int, numRows: int, numCols: int, maxSteps: Option<nat>, steps: nat)
    requires (dr, dc) != (0, 0) || maxSteps.Some?
    requires maxSteps.Some? ==> steps <= maxSteps.value
    requires InBounds((r, c), numRows, numCols)
    ensures RayLength(r, c, dr, dc, numRows, numCols, maxSteps, steps) ==
            1 + RayLength(r + dr, c + dc, dr, dc, numRows, numCols, maxSteps, steps + 1)
  {
  }

  /** The cells of one row holding an antenna, left to right. */
  function RowAntennas(row: seq<Value>, rowIdx: nat): (a: seq<AntennaAt>)
    ensures forall t :: t in a <==> t.0 == rowIdx && t.1 < |row| && row[t.1] == Antenna(t.2)
    ensures forall i :: 0 <= i < |a| ==> a[i].0 == rowIdx && a[i].1 < |row|
    ensures forall i, j :: 0 <= i < j < |a| ==> a[i].1 < a[j].1
    decreases |row|
  {
    if row == [] then []
    else
      var n := |row| - 1;
      var rest := RowAntennas(row[..n], rowIdx);
      match row[n]
      case Void => rest
      case Antenna(f) => rest + [(rowIdx, n, f)]
  }

  /** Every antenna of the grid in row-major order. */
  function Antennas(values: seq<seq<Value>>): (a: seq<AntennaAt>)
    ensures forall t :: t in a <==> t.0 < |values| && t.1 < |values[t.0]| && values[t.0][t.1] == Antenna(t.2)
    ensures forall i :: 0 <= i < |a| ==> a[i].0 < |values|
    ensures forall i, j :: 0 <= i < j < |a| ==> a[i].0 < a[j].0 || (a[i].0 == a[j].0 && a[i].1 < a[j].1)
    decreases |values|
  {
    if values == [] then []
    else
      var n := |values| - 1;
      Antennas(values[..n]) + RowAntennas(values[n], n)
  }

  /** Distinct entries of the antenna list stand on distinct cells. */
  lemma DistinctAntennasDiffer(values: seq<seq<Value>>, i1: nat, i2: nat)
    requires i1 < |Antennas(values)| && i2 < |Antennas(values)| && i1 != i2
    ensures (Antennas(values)[i1].0, Antennas(values)[i1].1) != (Antennas(values)[i2].0, Antennas(values)[i2].1)
  {
  }

  /** Whether the k-th ray point of a pair is kept: with antinode_can_be_antenna false the pair's own cells are skipped. */
  predicate Kept(p: (int, int), a1: AntennaAt, a2: AntennaAt, canBeAntenna: bool)
  {
    canBeAntenna || (p != (a1.0 as int, a1.1 as int) && p != (a2.0 as int, a2.1 as int))
  }

  predicate SameFrequencyPair(a: seq<AntennaAt>, i1: nat, i2: nat)
  {
    i1 < |a| && i2 < |a| && i1 != i2 && a[i1].2 == a[i2].2
  }

  /** The k-th point of the ray from antenna i1 away from antenna i2. */
  function PairPoint(a: seq<AntennaAt>, i1: nat, i2: nat, k: nat): (int, int)
    requires i1 < |a| && i2 < |a|
  {
    var r1, c1 := a[i1].0 as int, a[i1].1 as int;
    Point(r1, c1, r1 - a[i2].0, c1 - a[i2].1, k)
  }

  /** The number of ray points walked for the pair. */
  function PairLength(a: seq<AntennaAt>, i1: nat, i2: nat, numRows: int, numCols: int, maxSteps: Option<nat>): nat
    requires i1 < |a| && i2 < |a|
    requires (a[i1].0, a[i1].1) != (a[i2].0, a[i2].1) || maxSteps.Some?
  {
    var r1, c1 := a[i1].0 as int, a[i1].1 as int;
    RayLength(r1, c1, r1 - a[i2].0, c1 - a[i2].1, numRows, numCols, maxSteps, 0)
  }

  /** The antinodes contributed by the ordered pair (i1, i2). */
  function PairAntinodes(a: seq<AntennaAt>, i1: nat, i2: nat, numRows: int, numCols: int,
                         maxSteps: Option<nat>, canBeAntenna: bool): (r: set<(int, int)>)
    requires i1 < |a| && i2 < |a|
    requires (a[i1].0, a[i1].1) != (a[i2].0, a[i2].1) || i1 == i2
    ensures forall p :: p in r ==> InBounds(p, numRows, numCols)
    ensures !canBeAntenna ==> (a[i1].0 as int, a[i1].1 as int) !in r && (a[i2].0 as int, a[i2].1 as int) !in r
  {
    if !SameFrequencyPair(a, i1, i2) then {}
    else
      var n := PairLength(a, i1, i2, numRows, numCols, maxSteps);
      set k | 0 <= k < n && Kept(PairPoint(a, i1, i2, k), a[i1], a[i2], canBeAntenna) :: PairPoint(a, i1, i2, k)
  }

  predicate Distinct(a: seq<AntennaAt>)
  {
    forall i, j :: 0 <= i < |a| && 0 <= j < |a| && i != j ==> (a[i].0, a[i].1) != (a[j].0, a[j].1)
  }

  /** The antinodes of the pairs (i1, i2) with i2 < upTo. */
  function RowAntinodes(a: seq<AntennaAt>, i1: nat, upTo: nat, numRows: int, numCols: int,
                        maxSteps: Option<nat>, canBeAntenna: bool): set<(int, int)>
    requires Distinct(a) && i1 < |a| && upTo <= |a|
  {
    if upTo == 0 then {}
    else RowAntinodes(a, i1, upTo - 1, numRows, numCols, maxSteps, canBeAntenna) +
         PairAntinodes(a, i1, upTo - 1, numRows, numCols, maxSteps, canBeAntenna)
  }

  /** The antinodes of the pairs whose first antenna comes before upTo. */
  function AllAntinodes(a: seq<AntennaAt>, upTo: nat, numRows: int, numCols: int,
                        maxSteps: Option<nat>, canBeAntenna: bool): set<(int, int)>
    requires Distinct(a) && upTo <= |a|
  {
    if upTo == 0 then {}
    else AllAntinodes(a, upTo - 1, numRows, numCols, maxSteps, canBeAntenna) +
         RowAntinodes(a, upTo - 1, |a|, numRows, numCols, maxSteps, canBeAntenna)
  }

  lemma AntennasAreDistinct(values: seq<seq<Value>>)
    ensures Distinct(Antennas(values))
  {
    var a := Antennas(values);
    forall i, j | 0 <= i < |a| && 0 <= j < |a| && i != j
      ensures (a[i].0, a[i].1) != (a[j].0, a[j].1)
    {
      DistinctAntennasDiffer(values, i, j);
    }
  }

  /** An antinode of the whole grid is an antinode of some pair. */
  lemma {:induction false} AllAntinodesMembers(a: seq<AntennaAt>, upTo: nat, numRows: int, numCols: int,
                                               maxSteps: Option<nat>, canBeAntenna: bool, p: (int, int))
    requires Distinct(a) && upTo <= |a|
    ensures p in AllAntinodes(a, upTo, numRows, numCols, maxSteps, canBeAntenna) <==>
            exists i1, i2 :: 0 <= i1 < upTo && 0 <= i2 < |a| &&
              p in PairAntinodes(a, i1, i2, numRows, numCols, maxSteps, canBeAntenna)
    decreases upTo
  {
    if upTo > 0 {
      AllAntinodesMembers(a, upTo - 1, numRows, numCols, maxSteps, canBeAntenna, p);
      RowAntinodesMembers(a, upTo - 1, |a|, numRows, numCols, maxSteps, canBeAntenna, p);
    }
  }

  lemma {:induction false} RowAntinodesMembers(a: seq<AntennaAt>, i1: nat, upTo: nat, numRows: int, numCols: int,
                                               maxSteps: Option<nat>, canBeAntenna: bool, p: (int, int))
    requires Distinct(a) && i1 < |a| && upTo <= |a|
    ensures p in RowAntinodes(a, i1, upTo, numRows, numCols, maxSteps, canBeAntenna) <==>
            exists i2 :: 0 <= i2 < upTo && p in PairAntinodes(a, i1, i2, numRows, numCols, maxSteps, canBeAntenna)
    decreases upTo
  {
    if upTo > 0 {
      RowAntinodesMembers(a, i1, upTo - 1, numRows, numCols, maxSteps, canBeAntenna, p);
    }
  }

  /**
   * The pairwise collection of antinodes over a grid with at least one row;
   * the dimensions are the number of rows and the length of the first row.
   */
  method Solve(values: seq<seq<Value>>, maxSteps: Option<nat>, canBeAntenna: bool) returns (coords: set<(int, int)>)
    requires |values| > 0
    ensures Distinct(Antennas(values))
    ensures coords == AllAntinodes(Antennas(values), |Antennas(values)|, |values|, |values[0]|, maxSteps, canBeAntenna)
  {
    var numRows, numCols := |values|, |values[0]|;
    var antennas := Antennas(values);
    AntennasAreDistinct(values);
    coords := {};
    for i1 := 0 to |antennas|
      invariant coords == AllAntinodes(antennas, i1, numRows, numCols, maxSteps, canBeAntenna)
    {
      coords := RowStep(coords, antennas, i1, numRows, numCols, maxSteps, canBeAntenna);
    }
  }

  /** One pass of the outer loop: the antinodes of every pair whose first antenna is i1. */
  method RowStep(coords: set<(int, int)>, antennas: seq<AntennaAt>, i1: nat, numRows: int, numCols: int,
                 maxSteps: Option<nat>, canBeAntenna: bool) returns (result: set<(int, int)>)
    requires Distinct(antennas) && i1 < |antennas|
    ensures result == coords + RowAntinodes(antennas, i1, |antennas|, numRows, numCols, maxSteps, canBeAntenna)
  {
    result := coords;
    for i2 := 0 to |antennas|
      invariant result == coords + RowAntinodes(antennas, i1, i2, numRows, numCols, maxSteps, canBeAntenna)
    {
      var found := PairStep(antennas, i1, i2, numRows, numCols, maxSteps, canBeAntenna);
      result := result + found;
    }
  }

  /** One pass of the inner loop: the antinodes the pair (i1, i2) adds. */
  method PairStep(antennas: seq<AntennaAt>, i1: nat, i2: nat, numRows: int, numCols: int,
                  maxSteps: Option<nat>, canBeAntenna: bool) returns (found: set<(int, int)>)
    requires Distinct(antennas) && i1 < |antennas| && i2 < |antennas|
    ensures found == PairAntinodes(antennas, i1, i2, numRows, numCols, maxSteps, canBeAntenna)
  {
    var (r1, c1, f1) := antennas[i1];
    var (r2, c2, f2) := antennas[i2];
    if i1 == i2 || f1 != f2 {
      return {};
    }
    var rDiff, cDiff := r1 as int - r2, c1 as int - c2;
    var ray := Expand(r1, c1, rDiff, cDiff, numRows, numCols, maxSteps);
    found := AddRay({}, ray, antennas[i1], antennas[i2], canBeAntenna);
    RayIsPair(antennas, i1, i2, numRows, numCols, maxSteps, canBeAntenna, ray);
  }

  /** The points of the ray the pair keeps, added one by one. */
  method AddRay(coords: set<(int, int)>, ray: seq<(int, int)>, a1: AntennaAt, a2: AntennaAt, canBeAntenna: bool)
    returns (result: set<(int, int)>)
    ensures result == coords + set j | 0 <= j < |ray| && Kept(ray[j], a1, a2, canBeAntenna) :: ray[j]
  {
    result := coords;
    var (r1, c1, _) := a1;
    var (r2, c2, _) := a2;
    for k := 0 to |ray|
      invariant result == coords + set j | 0 <= j < k && Kept(ray[j], a1, a2, canBeAntenna) :: ray[j]
    {
      var (r, c) := ray[k];
      if !canBeAntenna && r == r1 && c == c1 {
        continue;
      }
      if !canBeAntenna && r == r2 && c == c2 {
        continue;
      }
      result := result + {(r, c)};
    }
  }

  lemma RayIsPair(a: seq<AntennaAt>, i1: nat, i2: nat, numRows: int, numCols: int,
                  maxSteps: Option<nat>, canBeAntenna: bool, ray: seq<(int, int)>)
    requires Distinct(a) && SameFrequencyPair(a, i1, i2)
    requires |ray| == PairLength(a, i1, i2, numRows, numCols, maxSteps)
    requires forall k :: 0 <= k < |ray| ==> ray[k] == PairPoint(a, i1, i2, k)
    ensures (set j | 0 <= j < |ray| && Kept(ray[j], a[i1], a[i2], canBeAntenna) :: ray[j]) ==
            PairAntinodes(a, i1, i2, numRows, numCols, maxSteps, canBeAntenna)
  {
  }

  /** The number of distinct antinodes, as the source reports it. */
  method CountAntinodes(values: seq<seq<Value>>, maxSteps: Option<nat>, canBeAntenna: bool) returns (count: nat)
    requires |values| > 0
    ensures Distinct(Antennas(values))
    ensures count == |AllAntinodes(Antennas(values), |Antennas(values)|, |values|, |values[0]|, maxSteps, canBeAntenna)|
  {
    var coords := Solve(values, maxSteps, canBeAntenna);
    count := |coords|;
  }

  /**
   * Part one (a budget of one step, antennas excluded): a same-frequency
   * pair standing on the grid contributes exactly the point 2 a1 - a2, and
   * only when it lies on the grid.
   */
  lemma PartOnePair(a: seq<AntennaAt>, i1: nat, i2: nat, numRows: int, numCols: int, p: (int, int))
    requires Distinct(a) && SameFrequencyPair(a, i1, i2)
    requires InBounds((a[i1].0, a[i1].1), numRows, numCols)
    ensures p in PairAntinodes(a, i1, i2, numRows, numCols, Some(1), false) <==>
            p == (2 * (a[i1].0 as int) - a[i2].0, 2 * (a[i1].1 as int) - a[i2].1) && InBounds(p, numRows, numCols)
  {
    var r1, c1, r2, c2 := a[i1].0 as int, a[i1].1 as int, a[i2].0 as int, a[i2].1 as int;
    var target := (2 * r1 - r2, 2 * c1 - c2);
    var n := PairLength(a, i1, i2, numRows, numCols, Some(1));
    assert PairPoint(a, i1, i2, 0) == (r1, c1);
    assert PairPoint(a, i1, i2, 1) == target;
    assert n >= 1;
    assert n <= 2;
    assert n == 2 <==> InBounds(target, numRows, numCols);
    assert target != (r2, c2);
    assert target != (r1, c1);
    assert !Kept(PairPoint(a, i1, i2, 0), a[i1], a[i2], false);
    assert Kept(PairPoint(a, i1, i2, 1), a[i1], a[i2], false);
    if p in PairAntinodes(a, i1, i2, numRows, numCols, Some(1), false) {
      var k :| 0 <= k < n && Kept(PairPoint(a, i1, i2, k), a[i1], a[i2], false) && p == PairPoint(a, i1, i2, k);
      assert k == 1;
    }
  }

  /**
   * Part two (no budget, antennas allowed): an antenna on the grid that
   * shares its frequency with another antenna is itself an antinode.
   */
  lemma PartTwoAntennaIsAntinode(a: seq<AntennaAt>, i1: nat, i2: nat, numRows: int, numCols: int)
    requires Distinct(a) && SameFrequencyPair(a, i1, i2)
    requires InBounds((a[i1].0, a[i1].1), numRows, numCols)
    ensures (a[i1].0 as int, a[i1].1 as int) in PairAntinodes(a, i1, i2, numRows, numCols, None, true)
  {
    assert PairPoint(a, i1, i2, 0) == (a[i1].0 as int, a[i1].1 as int);
    assert PairLength(a, i1, i2, numRows, numCols, None) >= 1;
    assert Kept(PairPoint(a, i1, i2, 0), a[i1], a[i2], true);
  }
}
