// Day 12: garden plots. Cells of the same plant that touch orthogonally
// form a zone; a zone's price is its area times its perimeter (part one)
// or its number of sides (part two).
module Day12 {

  type Cell = (int, int)

  /** The map: one plant per cell, row by row. */
  type Garden = seq<seq<char>>

  /** A zone: its plant and the set of its cells. */
  datatype Zone = Zone(garden: char, coords: set<Cell>)

  /** At least one row, all rows as long as the first. */
  predicate Rectangular(g: Garden)
  {
    |g| > 0 && forall r :: 0 <= r < |g| ==> |g[r]| == |g[0]|
  }

  predicate InGrid(g: Garden, x: Cell)
    requires Rectangular(g)
  {
    0 <= x.0 < |g| && 0 <= x.1 < |g[0]|
  }

  function At(g: Garden, x: Cell): char
    requires Rectangular(g) && InGrid(g, x)
  {
    g[x.0][x.1]
  }

  /** The cells of the map. */
  function Cells(g: Garden): (s: set<Cell>)
    requires Rectangular(g)
    ensures forall x :: x in s <==> InGrid(g, x)
  {
    set r, c | 0 <= r < |g| && 0 <= c < |g[0]| :: (r, c)
  }

  /** The four translations, in order: left, right, up, down. */
  function Shift(x: Cell, k: int): Cell
    requires 0 <= k < 4
  {
    if k == 0 then (x.0, x.1 - 1)
    else if k == 1 then (x.0, x.1 + 1)
    else if k == 2 then (x.0 - 1, x.1)
    else (x.0 + 1, x.1)
  }

  predicate Adjacent(a: Cell, b: Cell)
  {
    (a.0 == b.0 && (b.1 == a.1 - 1 || b.1 == a.1 + 1)) || (a.1 == b.1 && (b.0 == a.0 - 1 || b.0 == a.0 + 1))
  }

  lemma ShiftIsAdjacent(x: Cell, n: Cell)
    ensures Adjacent(x, n) <==> exists k :: 0 <= k < 4 && Shift(x, k) == n
  {
    if Adjacent(x, n) {
      if n == (x.0, x.1 - 1) {
        assert Shift(x, 0) == n;
      } else if n == (x.0, x.1 + 1) {
        assert Shift(x, 1) == n;
      } else if n == (x.0 - 1, x.1) {
        assert Shift(x, 2) == n;
      } else {
        assert Shift(x, 3) == n;
      }
    }
  }

  /** (r, c) comes before (r2, c2) in row-major order. */
  predicate Before(a: Cell, b: Cell)
  {
    a.0 < b.0 || (a.0 == b.0 && a.1 < b.1)
  }

  /** A walk inside S: a non-empty sequence of cells of S, each adjacent to the next. */
  ghost predicate Walk(S: set<Cell>, w: seq<Cell>)
  {
    |w| >= 1 && (forall i :: 0 <= i < |w| ==> w[i] in S) && forall i :: 0 <= i < |w| - 1 ==> Adjacent(w[i], w[i + 1])
  }

  ghost predicate Reaches(S: set<Cell>, s: Cell, x: Cell)
  {
    exists w :: Walk(S, w) && w[0] == s && w[|w| - 1] == x
  }

  lemma ReachesGrow(S: set<Cell>, T: set<Cell>, s: Cell, x: Cell)
    requires Reaches(S, s, x) && S <= T
    ensures Reaches(T, s, x)
  {
    var w :| Walk(S, w) && w[0] == s && w[|w| - 1] == x;
    assert Walk(T, w);
  }

  lemma ReachesStep(S: set<Cell>, s: Cell, x: Cell, n: Cell)
    requires Reaches(S, s, x) && n in S && Adjacent(x, n)
    ensures Reaches(S, s, n)
  {
    var w :| Walk(S, w) && w[0] == s && w[|w| - 1] == x;
    var w2 := w + [n];
    assert Walk(S, w2);
  }

  /** The cells the flood may still take: on the map, of the zone's plant, in no earlier zone. */
  predicate Admissible(g: Garden, n: Cell, allVisited: set<Cell>, garden: char)
    requires Rectangular(g)
  {
    InGrid(g, n) && n !in allVisited && At(g, n) == garden
  }

  /** The filter over the four translations: neighbours of x on the map, not yet visited, in no earlier zone, of the zone's plant. */
  function NeighbourCells(g: Garden, x: Cell, visited: set<Cell>, allVisited: set<Cell>, garden: char): (r: set<Cell>)
    requires Rectangular(g)
    ensures forall n :: n in r <==> Adjacent(x, n) && n !in visited && Admissible(g, n, allVisited, garden)
  {
    var r := set k | 0 <= k < 4 && InGrid(g, Shift(x, k)) && Shift(x, k) !in visited &&
                                  Shift(x, k) !in allVisited && At(g, Shift(x, k)) == garden :: Shift(x, k);
    forall n
      ensures n in r <==> Adjacent(x, n) && n !in visited && Admissible(g, n, allVisited, garden)
    {
      ShiftIsAdjacent(x, n);
    }
    r
  }

  /** The loop over next: the union of the neighbour cells of every cell of next. */
  method Spread(g: Garden, next: set<Cell>, visited: set<Cell>, allVisited: set<Cell>, garden: char)
    returns (newNext: set<Cell>)
    requires Rectangular(g)
    ensures forall n :: n in newNext <==> exists x :: x in next && n in NeighbourCells(g, x, visited, allVisited, garden)
  {
    newNext := {};
    var remaining := next;
    while remaining != {}
      invariant remaining <= next
      invariant forall n :: n in newNext <==>
                  exists x :: x in next - remaining && n in NeighbourCells(g, x, visited, allVisited, garden)
      decreases |remaining|
    {
      var x :| x in remaining;
      newNext := newNext + NeighbourCells(g, x, visited, allVisited, garden);
      remaining := remaining - {x};
    }
  }

  /** Every cell of S adjacent to a cell of S of the same plant lies in S. */
  ghost predicate Closed(g: Garden, S: set<Cell>)
    requires Rectangular(g)
  {
    forall x, n :: x in S && InGrid(g, x) && InGrid(g, n) && Adjacent(x, n) && At(g, n) == At(g, x) ==> n in S
  }

  /** The flood measure: cells not yet visited, counted twice, and one more while next holds only visited cells. */
  function FloodMeasure(g: Garden, visited: set<Cell>, next: set<Cell>): int
    requires Rectangular(g)
  {
    2 * (|Cells(g)| - |visited|) + (if next != {} && next <= visited then 1 else 0)
  }

  /** The flood from one start cell, round by round, as find_zones runs it. */
  method Flood(g: Garden, allVisited: set<Cell>, start: Cell, garden: char) returns (visited: set<Cell>)
    requires Rectangular(g) && Admissible(g, start, allVisited, garden)
    ensures start in visited
    ensures forall x :: x in visited ==> Admissible(g, x, allVisited, garden)
    ensures forall x, n :: x in visited && Adjacent(x, n) && Admissible(g, n, allVisited, garden) ==> n in visited
    ensures forall x :: x in visited ==> Reaches(visited, start, x)
  {
    visited := {};
    var next := {start};
    assert Walk({start}, [start]);
    while next != {}
      invariant visited <= Cells(g)
      invariant forall x :: x in visited + next ==> Admissible(g, x, allVisited, garden)
      invariant start in visited + next
      invariant forall x, n :: x in visited && Adjacent(x, n) && Admissible(g, n, allVisited, garden) ==> n in visited + next
      invariant forall x :: x in visited + next ==> Reaches(visited + next, start, x)
      decreases FloodMeasure(g, visited, next)
    {
      var newNext := Spread(g, next, visited, allVisited, garden);
      FloodRound(g, allVisited, start, garden, visited, next, newNext);
      visited := visited + next;
      next := newNext;
    }
  }

  /** One round of the flood keeps the invariants and lowers the measure. */
  lemma FloodRound(g: Garden, allVisited: set<Cell>, start: Cell, garden: char,
                   visited: set<Cell>, next: set<Cell>, newNext: set<Cell>)
    requires Rectangular(g) && next != {} && visited <= Cells(g)
    requires forall x :: x in visited + next ==> Admissible(g, x, allVisited, garden)
    requires forall x, n :: x in visited && Adjacent(x, n) && Admissible(g, n, allVisited, garden) ==> n in visited + next
    requires forall x :: x in visited + next ==> Reaches(visited + next, start, x)
    requires forall n :: n in newNext <==> exists x :: x in next && n in NeighbourCells(g, x, visited, allVisited, garden)
    ensures visited + next <= Cells(g)
    ensures forall x :: x in visited + next + newNext ==> Admissible(g, x, allVisited, garden)
    ensures forall x, n :: x in visited + next && Adjacent(x, n) && Admissible(g, n, allVisited, garden) ==>
                            n in visited + next + newNext
    ensures forall x :: x in visited + next + newNext ==> Reaches(visited + next + newNext, start, x)
    ensures newNext !! visited
    ensures 0 <= FloodMeasure(g, visited + next, newNext) < FloodMeasure(g, visited, next)
  {
    var S, T := visited + next, visited + next + newNext;
    forall n | n in newNext
      ensures Admissible(g, n, allVisited, garden) && n !in visited
      ensures Reaches(T, start, n)
    {
      var x :| x in next && n in NeighbourCells(g, x, visited, allVisited, garden);
      ReachesGrow(S, T, start, x);
      ReachesStep(T, start, x, n);
    }
    forall x | x in S
      ensures Reaches(T, start, x)
    {
      ReachesGrow(S, T, start, x);
    }
    forall x, n | x in S && Adjacent(x, n) && Admissible(g, n, allVisited, garden)
      ensures n in T
    {
      if x in next && n !in visited {
        assert n in NeighbourCells(g, x, visited, allVisited, garden);
      }
    }
    MeasureDrops(g, visited, next, newNext);
  }

  lemma {:induction false} SubsetCard(a: set<Cell>, b: set<Cell>)
    requires a <= b
    ensures |a| <= |b|
    decreases |a|
  {
    if a != {} {
      var x :| x in a;
      SubsetCard(a - {x}, b - {x});
    }
  }

  lemma MeasureDrops(g: Garden, visited: set<Cell>, next: set<Cell>, newNext: set<Cell>)
    requires Rectangular(g) && next != {} && visited + next <= Cells(g) && newNext !! visited
    ensures 0 <= FloodMeasure(g, visited + next, newNext) < FloodMeasure(g, visited, next)
  {
    var S := visited + next;
    var all := Cells(g);
    SubsetCard(S, all);
    if !(next <= visited) {
      var y :| y in next && y !in visited;
      SubsetCard(visited + {y}, S);
    } else {
      assert S == visited;
      assert newNext == {} || !(newNext <= S);
    }
  }

  /** A zone cell has the zone's plant, the zone is closed, and it is the region reached from its row-major first cell. */
  ghost predicate ZoneOk(g: Garden, z: Zone)
    requires Rectangular(g)
  {
    (forall x :: x in z.coords ==> InGrid(g, x) && At(g, x) == z.garden) &&
    Closed(g, z.coords) &&
    exists s :: Grown(z.coords, s)
  }

  /** S has s as its first cell in row-major order, and every cell of S is reached from s by a walk inside S. */
  ghost predicate Grown(S: set<Cell>, s: Cell)
  {
    s in S && (forall x :: x in S ==> !Before(x, s)) && forall x :: x in S ==> Reaches(S, s, x)
  }

  ghost function UnionOf(zones: seq<Zone>): set<Cell>
  {
    if zones == [] then {} else UnionOf(zones[..|zones| - 1]) + zones[|zones| - 1].coords
  }

  lemma {:induction false} UnionMembers(zones: seq<Zone>, x: Cell)
    ensures x in UnionOf(zones) <==> exists i :: 0 <= i < |zones| && x in zones[i].coords
  {
    if zones != [] {
      var front := zones[..|zones| - 1];
      UnionMembers(front, x);
      if x in UnionOf(front) {
        var i :| 0 <= i < |front| && x in front[i].coords;
        assert zones[i] == front[i];
      }
      if exists i :: 0 <= i < |zones| && x in zones[i].coords {
        var i :| 0 <= i < |zones| && x in zones[i].coords;
        if i < |front| {
          assert zones[i] == front[i];
        }
      }
    }
  }

  /** The zones found so far: well formed, pairwise disjoint, and their union is closed. */
  ghost predicate ZonesInv(g: Garden, zones: seq<Zone>, allVisited: set<Cell>)
    requires Rectangular(g)
  {
    allVisited == UnionOf(zones) &&
    (forall i :: 0 <= i < |zones| ==> ZoneOk(g, zones[i])) &&
    (forall i, j :: 0 <= i < j < |zones| ==> zones[i].coords !! zones[j].coords) &&
    Closed(g, allVisited)
  }

  /** find_zones(): every cell lies in exactly one zone; each zone is a closed, connected region of one plant, grown from its row-major first cell. */
  method FindZones(g: Garden) returns (zones: seq<Zone>)
    requires Rectangular(g)
    ensures ZonesInv(g, zones, Cells(g))
    ensures forall i :: 0 <= i < |zones| ==> zones[i].coords != {}
  {
    var allVisited: set<Cell> := {};
    zones := [];
    for r := 0 to |g|
      invariant ZonesInv(g, zones, allVisited)
      invariant forall i :: 0 <= i < |zones| ==> zones[i].coords != {}
      invariant forall x :: InGrid(g, x) && x.0 < r ==> x in allVisited
    {
      for c := 0 to |g[r]|
        invariant ZonesInv(g, zones, allVisited)
        invariant forall i :: 0 <= i < |zones| ==> zones[i].coords != {}
        invariant forall x :: InGrid(g, x) && Before(x, (r, c)) ==> x in allVisited
      {
        ghost var before := allVisited;
        zones, allVisited := Visit(g, zones, allVisited, (r, c));
        ScanStep(g, before, allVisited, r, c);
      }
    }
    UnionInGrid(g, zones);
    assert allVisited == Cells(g);
  }

  /** One step of the row-major scan: a cell in no zone yet starts a new zone, flooded from it. */
  method Visit(g: Garden, zones: seq<Zone>, allVisited: set<Cell>, start: Cell)
    returns (zones': seq<Zone>, allVisited': set<Cell>)
    requires Rectangular(g) && InGrid(g, start) && ZonesInv(g, zones, allVisited)
    requires forall i :: 0 <= i < |zones| ==> zones[i].coords != {}
    requires forall x :: InGrid(g, x) && Before(x, start) ==> x in allVisited
    ensures ZonesInv(g, zones', allVisited')
    ensures forall i :: 0 <= i < |zones'| ==> zones'[i].coords != {}
    ensures allVisited <= allVisited' && start in allVisited'
    ensures start in allVisited ==> zones' == zones && allVisited' == allVisited
    ensures start !in allVisited ==>
              |zones'| == |zones| + 1 && zones'[..|zones|] == zones &&
              start in zones'[|zones|].coords && zones'[|zones|].garden == g[start.0][start.1]
  {
    zones', allVisited' := zones, allVisited;
    if start !in allVisited {
      var garden := g[start.0][start.1];
      var visited := Flood(g, allVisited, start, garden);
      AddZone(g, zones, allVisited, start, visited);
      zones' := zones + [Zone(garden, visited)];
      allVisited' := allVisited + visited;
    }
  }

  lemma ScanStep(g: Garden, before: set<Cell>, after: set<Cell>, r: int, c: int)
    requires Rectangular(g) && before <= after && (r, c) in after
    requires forall x :: InGrid(g, x) && Before(x, (r, c)) ==> x in before
    ensures forall x :: InGrid(g, x) && Before(x, (r, c + 1)) ==> x in after
  {
  }

  lemma UnionInGrid(g: Garden, zones: seq<Zone>)
    requires Rectangular(g) && forall i :: 0 <= i < |zones| ==> ZoneOk(g, zones[i])
    ensures UnionOf(zones) <= Cells(g)
  {
    forall x | x in UnionOf(zones)
      ensures InGrid(g, x)
    {
      UnionMembers(zones, x);
      var i :| 0 <= i < |zones| && x in zones[i].coords;
    }
  }

  /** A flooded zone joins the zones found so far without breaking their invariant. */
  lemma AddZone(g: Garden, zones: seq<Zone>, allVisited: set<Cell>, start: Cell, visited: set<Cell>)
    requires Rectangular(g) && ZonesInv(g, zones, allVisited) && InGrid(g, start)
    requires forall x :: InGrid(g, x) && Before(x, start) ==> x in allVisited
    requires start in visited
    requires forall x :: x in visited ==> Admissible(g, x, allVisited, At(g, start))
    requires forall x, n :: x in visited && Adjacent(x, n) && Admissible(g, n, allVisited, At(g, start)) ==> n in visited
    requires forall x :: x in visited ==> Reaches(visited, start, x)
    ensures ZonesInv(g, zones + [Zone(At(g, start), visited)], allVisited + visited)
    ensures (forall i :: 0 <= i < |zones| ==> zones[i].coords != {}) ==>
              forall i :: 0 <= i <= |zones| ==> (zones + [Zone(At(g, start), visited)])[i].coords != {}
  {
    var z := Zone(At(g, start), visited);
    var zs := zones + [z];
    assert zs[..|zs| - 1] == zones;
    forall x, n | x in visited && InGrid(g, x) && InGrid(g, n) && Adjacent(x, n) && At(g, n) == At(g, x)
      ensures n in visited
    {
      if n in allVisited {
        assert Adjacent(n, x);
      }
    }
    assert Grown(visited, start);
    forall i | 0 <= i < |zs|
      ensures ZoneOk(g, zs[i])
    {
      if i < |zones| {
        assert zs[i] == zones[i];
      }
    }
    forall i, j | 0 <= i < j < |zs|
      ensures zs[i].coords !! zs[j].coords
    {
      if j == |zones| {
        assert zs[i] == zones[i];
        UnionMembers(zones, start);
        forall x | x in zs[i].coords
          ensures x !in visited
        {
          UnionMembers(zones, x);
        }
      } else {
        assert zs[i] == zones[i] && zs[j] == zones[j];
      }
    }
    forall x, n | x in allVisited + visited && InGrid(g, x) && InGrid(g, n) && Adjacent(x, n) && At(g, n) == At(g, x)
      ensures n in allVisited + visited
    {
    }
  }

  /** The number of cells of a grid of r rows and c columns. */
  lemma {:induction false} CellsCount(g: Garden)
    requires Rectangular(g)
    ensures |Cells(g)| == |g| * |g[0]|
  {
    RowsCount(|g|, |g[0]|);
    assert Cells(g) == Block(|g|, |g[0]|);
  }

  /** The cells of the first rows rows of a grid with cols columns. */
  function Block(rows: nat, cols: nat): (s: set<Cell>)
    ensures forall x :: x in s <==> 0 <= x.0 < rows && 0 <= x.1 < cols
  {
    set r, c | 0 <= r < rows && 0 <= c < cols :: (r, c)
  }

  function RowCells(r: int, cols: nat): (s: set<Cell>)
    ensures forall x :: x in s <==> x.0 == r && 0 <= x.1 < cols
  {
    set c | 0 <= c < cols :: (r, c)
  }

  lemma {:induction false} RowCount(r: int, cols: nat)
    ensures |RowCells(r, cols)| == cols
  {
    if cols > 0 {
      RowCount(r, cols - 1);
      assert RowCells(r, cols) == RowCells(r, cols - 1) + {(r, cols - 1)};
    }
  }

  lemma {:induction false} RowsCount(rows: nat, cols: nat)
    ensures |Block(rows, cols)| == rows * cols
  {
    if rows > 0 {
      RowsCount(rows - 1, cols);
      RowCount(rows - 1, cols);
      assert rows * cols == (rows - 1) * cols + cols;
      assert Block(rows, cols) == Block(rows - 1, cols) + RowCells(rows - 1, cols);
      assert Block(rows - 1, cols) !! RowCells(rows - 1, cols);
    }
  }

  /** The sum of the areas of the zones. */
  function TotalArea(zones: seq<Zone>): nat
  {
    if zones == [] then 0 else TotalArea(zones[..|zones| - 1]) + Area(zones[|zones| - 1])
  }

  /** area(): the number of cells of the zone. */
  function Area(z: Zone): (a: nat)
    ensures a == 0 <==> z.coords == {}
  {
    |z.coords|
  }

  lemma {:induction false} DisjointAreas(zones: seq<Zone>)
    requires forall i, j :: 0 <= i < j < |zones| ==> zones[i].coords !! zones[j].coords
    ensures TotalArea(zones) == |UnionOf(zones)|
  {
    if zones != [] {
      var front := zones[..|zones| - 1];
      DisjointAreas(front);
      forall x | x in UnionOf(front)
        ensures x !in zones[|zones| - 1].coords
      {
        UnionMembers(front, x);
        var i :| 0 <= i < |front| && x in front[i].coords;
        assert front[i] == zones[i];
      }
    }
  }

  /** The zones partition the map, so their areas add up to rows times columns. */
  lemma AreasCoverGarden(g: Garden, zones: seq<Zone>)
    requires Rectangular(g) && ZonesInv(g, zones, Cells(g))
    ensures TotalArea(zones) == |g| * |g[0]|
  {
    DisjointAreas(zones);
    CellsCount(g);
  }

  /** The two per-cell weights summed over a zone: exposed edges and corners. */
  datatype Weight = Edges | Corners

  /** The number of the four translations of x that leave the zone. */
  function Exposed(coords: set<Cell>, x: Cell): nat
  {
    ExposedAmong(coords, x, 4)
  }

  /** The number of the first k translations of x that leave the zone. */
  function ExposedAmong(coords: set<Cell>, x: Cell, k: nat): nat
    requires k <= 4
  {
    if k == 0 then 0 else ExposedAmong(coords, x, k - 1) + (if Shift(x, k - 1) !in coords then 1 else 0)
  }

  /** The diagonal (dr, dc) of x is a corner: a convex one, both orthogonal neighbours on that side outside; or a concave one, both inside and the diagonal outside. */
  predicate IsCorner(coords: set<Cell>, x: Cell, dr: int, dc: int): (b: bool)
    ensures b ==> ((x.0 + dr, x.1) in coords <==> (x.0, x.1 + dc) in coords)
  {
    ((x.0 + dr, x.1) !in coords && (x.0, x.1 + dc) !in coords) ||
    ((x.0 + dr, x.1) in coords && (x.0, x.1 + dc) in coords && (x.0 + dr, x.1 + dc) !in coords)
  }

  /** The corners at x, over its four diagonals. */
  function CornerCount(coords: set<Cell>, x: Cell): nat
  {
    (if IsCorner(coords, x, -1, -1) then 1 else 0) + (if IsCorner(coords, x, -1, 1) then 1 else 0) +
    (if IsCorner(coords, x, 1, -1) then 1 else 0) + (if IsCorner(coords, x, 1, 1) then 1 else 0)
  }

  function WeightOf(w: Weight, coords: set<Cell>, x: Cell): nat
  {
    match w
    case Edges => Exposed(coords, x)
    case Corners => CornerCount(coords, x)
  }

  /** The weights of the cells of s, summed. */
  ghost function SumOver(s: set<Cell>, coords: set<Cell>, w: Weight): nat
    decreases |s|
  {
    if s == {} then 0 else var x :| x in s; WeightOf(w, coords, x) + SumOver(s - {x}, coords, w)
  }

  lemma {:induction false} SumOverRemove(s: set<Cell>, coords: set<Cell>, w: Weight, x: Cell)
    requires x in s
    ensures SumOver(s, coords, w) == WeightOf(w, coords, x) + SumOver(s - {x}, coords, w)
    decreases |s|
  {
    var y :| y in s && SumOver(s, coords, w) == WeightOf(w, coords, y) + SumOver(s - {y}, coords, w);
    if y != x {
      SumOverRemove(s - {y}, coords, w, x);
      SumOverRemove(s - {x}, coords, w, y);
      assert s - {y} - {x} == s - {x} - {y};
    }
  }

  lemma SumOverAdd(done: set<Cell>, coords: set<Cell>, w: Weight, x: Cell)
    requires x !in done
    ensures SumOver(done + {x}, coords, w) == SumOver(done, coords, w) + WeightOf(w, coords, x)
  {
    SumOverRemove(done + {x}, coords, w, x);
    assert done + {x} - {x} == done;
  }

  /** The inner loop of perimeter_contributors() at one cell: the translations of x that leave the zone. */
  method CellContributors(coords: set<Cell>, x: Cell) returns (out: seq<Cell>)
    ensures |out| == Exposed(coords, x)
    ensures forall q :: q in out <==> q !in coords && Adjacent(x, q)
  {
    out := [];
    for k := 0 to 4
      invariant |out| == ExposedAmong(coords, x, k)
      invariant forall q :: q in out <==> exists k' :: 0 <= k' < k && Shift(x, k') !in coords && q == Shift(x, k')
    {
      var neighbour := Shift(x, k);
      if neighbour !in coords {
        out := out + [neighbour];
      }
    }
    forall q
      ensures q in out <==> q !in coords && Adjacent(x, q)
    {
      ShiftIsAdjacent(x, q);
    }
  }

  /** perimeter_contributors(): for every zone cell and translation leaving the zone, the cell reached; duplicates kept. */
  method PerimeterContributors(z: Zone) returns (contributors: seq<Cell>)
    ensures |contributors| == SumOver(z.coords, z.coords, Edges)
    ensures forall q :: q in contributors <==> q !in z.coords && exists x :: x in z.coords && Adjacent(x, q)
  {
    contributors := [];
    var remaining := z.coords;
    assert SumOver({}, z.coords, Edges) == 0;
    while remaining != {}
      invariant remaining <= z.coords
      invariant |contributors| == SumOver(z.coords - remaining, z.coords, Edges)
      invariant forall q :: q in contributors <==> q !in z.coords && exists x :: x in z.coords - remaining && Adjacent(x, q)
      decreases |remaining|
    {
      var x :| x in remaining;
      var out := CellContributors(z.coords, x);
      contributors := contributors + out;
      SumOverAdd(z.coords - remaining, z.coords, Edges, x);
      assert z.coords - remaining + {x} == z.coords - (remaining - {x});
      remaining := remaining - {x};
    }
    assert z.coords - remaining == z.coords;
  }

  /** perimeter(): the number of perimeter contributors, that is, the exposed edges of the zone's cells. */
  method Perimeter(z: Zone) returns (perimeter: nat)
    ensures perimeter == SumOver(z.coords, z.coords, Edges)
  {
    var contributors := PerimeterContributors(z);
    perimeter := |contributors|;
  }

  /** The corner test as sides() writes it, on the perimeter contributors. */
  predicate SourceCorner(perimeter: seq<Cell>, coords: set<Cell>, x: Cell, dr: int, dc: int)
  {
    ((x.0 + dr, x.1) in perimeter && (x.0, x.1 + dc) in perimeter) ||
    ((x.0 + dr, x.1 + dc) in perimeter && (x.0 + dr, x.1) in coords && (x.0, x.1 + dc) in coords)
  }

  /** Testing membership in the perimeter contributors is testing that the cell is outside the zone, at a zone cell's neighbour or diagonal. */
  lemma CornerTest(perimeter: seq<Cell>, coords: set<Cell>, x: Cell, dr: int, dc: int)
    requires forall q :: q in perimeter <==> q !in coords && exists y :: y in coords && Adjacent(y, q)
    requires x in coords && (dr == -1 || dr == 1) && (dc == -1 || dc == 1)
    ensures SourceCorner(perimeter, coords, x, dr, dc) <==> IsCorner(coords, x, dr, dc)
  {
    var up, side, diag := (x.0 + dr, x.1), (x.0, x.1 + dc), (x.0 + dr, x.1 + dc);
    assert Adjacent(x, up) && Adjacent(x, side);
    assert up in coords ==> Adjacent(up, diag);
  }

  /** One corner test of sides(): the diagonal (dr, dc) of x, checked against the perimeter contributors. */
  method CornerAt(perimeter: seq<Cell>, coords: set<Cell>, x: Cell, dr: int, dc: int) returns (hit: bool)
    requires forall q :: q in perimeter <==> q !in coords && exists y :: y in coords && Adjacent(y, q)
    requires x in coords && (dr == -1 || dr == 1) && (dc == -1 || dc == 1)
    ensures hit == IsCorner(coords, x, dr, dc)
  {
    var (r, c) := x;
    hit := ((r + dr, c) in perimeter && (r, c + dc) in perimeter) ||
           ((r + dr, c + dc) in perimeter && (r + dr, c) in coords && (r, c + dc) in coords);
    CornerTest(perimeter, coords, x, dr, dc);
  }

  /** The four corner tests of sides() at one cell, each pushing the diagonal it finds. */
  method CellCorners(perimeter: seq<Cell>, coords: set<Cell>, x: Cell) returns (found: seq<Cell>)
    requires forall q :: q in perimeter <==> q !in coords && exists y :: y in coords && Adjacent(y, q)
    requires x in coords
    ensures |found| == CornerCount(coords, x)
  {
    var (r, c) := x;
    found := [];
    var hit := CornerAt(perimeter, coords, x, -1, -1);
    if hit {
      found := found + [(r - 1, c - 1)];
    }
    hit := CornerAt(perimeter, coords, x, -1, 1);
    if hit {
      found := found + [(r - 1, c + 1)];
    }
    hit := CornerAt(perimeter, coords, x, 1, -1);
    if hit {
      found := found + [(r + 1, c - 1)];
    }
    hit := CornerAt(perimeter, coords, x, 1, 1);
    if hit {
      found := found + [(r + 1, c + 1)];
    }
  }

  /** sides(): the corners of the zone, found cell by cell over the four diagonals. */
  method Sides(z: Zone) returns (sides: nat)
    ensures sides == SumOver(z.coords, z.coords, Corners)
  {
    var perimeter := PerimeterContributors(z);
    var corners: seq<Cell> := [];
    var remaining := z.coords;
    assert SumOver({}, z.coords, Corners) == 0;
    while remaining != {}
      invariant remaining <= z.coords
      invariant |corners| == SumOver(z.coords - remaining, z.coords, Corners)
      decreases |remaining|
    {
      var x :| x in remaining;
      var found := CellCorners(perimeter, z.coords, x);
      corners := corners + found;
      SumOverAdd(z.coords - remaining, z.coords, Corners, x);
      assert z.coords - remaining + {x} == z.coords - (remaining - {x});
      remaining := remaining - {x};
    }
    assert z.coords - remaining == z.coords;
    sides := |corners|;
  }

  /** The total price: area times the summed weight, over the zones. */
  ghost function Price(zones: seq<Zone>, w: Weight): nat
  {
    if zones == [] then 0 else Price(zones[..|zones| - 1], w) + ZonePrice(zones[|zones| - 1], w)
  }

  /** One zone's price: its area times its summed weight. */
  ghost function ZonePrice(z: Zone, w: Weight): nat
  {
    Area(z) * SumOver(z.coords, z.coords, w)
  }

  /** The per-zone measure priced by each part: perimeter() for part one, sides() for part two. */
  method Measure(z: Zone, w: Weight) returns (m: nat)
    ensures m == SumOver(z.coords, z.coords, w)
  {
    if w == Edges {
      m := Perimeter(z);
    } else {
      m := Sides(z);
    }
  }

  /** The fold of both parts: the sum over the zones of area times the zone's measure. */
  method TotalPrice(zones: seq<Zone>, w: Weight) returns (score: nat)
    ensures score == Price(zones, w)
  {
    score := 0;
    for i := 0 to |zones|
      invariant score == Price(zones[..i], w)
    {
      var m := Measure(zones[i], w);
      assert zones[..i + 1][..i] == zones[..i];
      var price := Area(zones[i]) * m;
      assert price == ZonePrice(zones[i], w);
      score := score + price;
    }
    assert zones[..|zones|] == zones;
  }

  /** Part one: the sum over the zones of area times perimeter. */
  method First(g: Garden) returns (zones: seq<Zone>, score: nat)
    requires Rectangular(g)
    ensures ZonesInv(g, zones, Cells(g))
    ensures score == Price(zones, Edges)
  {
    zones := FindZones(g);
    score := TotalPrice(zones, Edges);
  }

  /** Part two: the sum over the zones of area times number of sides. */
  method Second(g: Garden) returns (zones: seq<Zone>, score: nat)
    requires Rectangular(g)
    ensures ZonesInv(g, zones, Cells(g))
    ensures score == Price(zones, Corners)
  {
    zones := FindZones(g);
    score := TotalPrice(zones, Corners);
  }
}
