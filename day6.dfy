// Guard gallivant: a guard walks the grid, turning right at every
// obstruction, until it leaves the grid or repeats a (cell, heading) pair.
// The pure functions give the meaning of one move and of the whole walk; the
// Puzzle class performs them in place on a two-dimensional array.
module Day6 {

  import opened Common

  datatype Direction = Up | Down | Left | Right

  datatype Value = Obstruction | Guard(direction: Direction) | Empty

  datatype Outcome = Loop | OutOfBounds | Continue

  type Cell = (nat, nat)

  type Grid = seq<seq<Value>>

  /** The cells the guard has stood on, each with the headings it had there. */
  type Visited = map<Cell, set<Direction>>

  /** The state a move leaves behind. */
  datatype StepResult = StepResult(grid: Grid, visited: Visited, outcome: Outcome)

  /** A quarter turn clockwise. */
  function TurnRight(d: Direction): (r: Direction)
    ensures r != d
  {
    match d
    case Up => Right
    case Right => Down
    case Down => Left
    case Left => Up
  }

  /** Four right turns bring the guard back to its heading, and no fewer do. */
  lemma FourTurnsRestore(d: Direction)
    ensures TurnRight(TurnRight(TurnRight(TurnRight(d)))) == d
    ensures TurnRight(d) != d && TurnRight(TurnRight(d)) != d && TurnRight(TurnRight(TurnRight(d))) != d
  {
  }

  /** A rectangular grid with at least one row and one column. */
  predicate Rectangular(g: Grid)
  {
    |g| > 0 && |g[0]| > 0 && forall r :: 0 <= r < |g| ==> |g[r]| == |g[0]|
  }

  predicate InGrid(g: Grid, cell: Cell)
  {
    cell.0 < |g| && cell.1 < |g[cell.0]|
  }

  /** The neighbouring cell in direction d, or None at the edge the guard faces. */
  function Next(g: Grid, rowIdx: nat, colIdx: nat, d: Direction): (n: Option<Cell>)
    requires InGrid(g, (rowIdx, colIdx))
    ensures Rectangular(g) && n.Some? ==> InGrid(g, n.value)
  {
    match d
    case Up => if rowIdx == 0 then None else Some((rowIdx - 1, colIdx))
    case Down => if rowIdx == |g| - 1 then None else Some((rowIdx + 1, colIdx))
    case Left => if colIdx == 0 then None else Some((rowIdx, colIdx - 1))
    case Right => if colIdx == |g[rowIdx]| - 1 then None else Some((rowIdx, colIdx + 1))
  }

  /** The row and column offsets of one step in direction d. */
  function Delta(d: Direction): (int, int)
  {
    match d
    case Up => (-1, 0)
    case Down => (1, 0)
    case Left => (0, -1)
    case Right => (0, 1)
  }

  /** next is None exactly when the step leaves the grid; otherwise it is the one-step neighbour, on the grid. */
  lemma NextIsNeighbour(g: Grid, rowIdx: nat, colIdx: nat, d: Direction)
    requires Rectangular(g) && InGrid(g, (rowIdx, colIdx))
    ensures Next(g, rowIdx, colIdx, d).None? <==>
              !(0 <= rowIdx + Delta(d).0 < |g| && 0 <= colIdx + Delta(d).1 < |g[0]|)
    ensures Next(g, rowIdx, colIdx, d).Some? ==>
              Next(g, rowIdx, colIdx, d).value == ((rowIdx + Delta(d).0) as nat, (colIdx + Delta(d).1) as nat) &&
              InGrid(g, Next(g, rowIdx, colIdx, d).value)
  {
  }

  /** No guard in the rows before rowIdx, nor in row rowIdx before colIdx. */
  predicate NoGuardBefore(g: Grid, rowIdx: nat, colIdx: nat)
  {
    forall i, j :: 0 <= i < |g| && 0 <= j < |g[i]| && (i < rowIdx || (i == rowIdx && j < colIdx)) ==> !g[i][j].Guard?
  }

  predicate NoGuard(g: Grid)
  {
    forall i, j :: 0 <= i < |g| && 0 <= j < |g[i]| ==> !g[i][j].Guard?
  }

  /** The first guard of row rowIdx at column colIdx or later. */
  function RowGuard(g: Grid, rowIdx: nat, colIdx: nat): (r: Option<(Cell, Direction)>)
    requires rowIdx < |g|
    ensures r.Some? ==> r.value.0.0 == rowIdx && colIdx <= r.value.0.1 < |g[rowIdx]| &&
                        g[rowIdx][r.value.0.1] == Guard(r.value.1)
    ensures r.Some? ==> forall j :: colIdx <= j < r.value.0.1 ==> !g[rowIdx][j].Guard?
    ensures r.None? ==> forall j :: colIdx <= j < |g[rowIdx]| ==> !g[rowIdx][j].Guard?
    decreases |g[rowIdx]| - colIdx
  {
    if colIdx >= |g[rowIdx]| then None
    else if g[rowIdx][colIdx].Guard? then Some(((rowIdx, colIdx), g[rowIdx][colIdx].direction))
    else RowGuard(g, rowIdx, colIdx + 1)
  }

  /** The first guard in row-major order from row rowIdx on. */
  function GuardFrom(g: Grid, rowIdx: nat): (r: Option<(Cell, Direction)>)
    ensures r.Some? ==> rowIdx <= r.value.0.0 && InGrid(g, r.value.0) && g[r.value.0.0][r.value.0.1] == Guard(r.value.1)
    ensures r.Some? ==>
              forall i, j :: rowIdx <= i < |g| && 0 <= j < |g[i]| && (i < r.value.0.0 || (i == r.value.0.0 && j < r.value.0.1))
                ==> !g[i][j].Guard?
    ensures r.None? ==> forall i, j :: rowIdx <= i < |g| && 0 <= j < |g[i]| ==> !g[i][j].Guard?
    decreases |g| - rowIdx
  {
    if rowIdx >= |g| then None
    else
      var here := RowGuard(g, rowIdx, 0);
      if here.Some? then here else GuardFrom(g, rowIdx + 1)
  }

  /** The guard: its cell and heading, the first in row-major order, or None when there is none. */
  function FindGuard(g: Grid): (r: Option<(Cell, Direction)>)
    ensures r.Some? ==> InGrid(g, r.value.0) && g[r.value.0.0][r.value.0.1] == Guard(r.value.1) &&
                        NoGuardBefore(g, r.value.0.0, r.value.0.1)
    ensures r.None? <==> NoGuard(g)
  {
    GuardFrom(g, 0)
  }

  /** The only guard of the grid stands on cell. */
  predicate OneGuardAt(g: Grid, cell: Cell)
  {
    InGrid(g, cell) && g[cell.0][cell.1].Guard? &&
    forall i, j :: 0 <= i < |g| && 0 <= j < |g[i]| && (i, j) != cell ==> !g[i][j].Guard?
  }

  lemma FindsTheOneGuard(g: Grid, cell: Cell)
    requires OneGuardAt(g, cell)
    ensures FindGuard(g) == Some((cell, g[cell.0][cell.1].direction))
  {
  }

  function SetCell(g: Grid, cell: Cell, v: Value): (r: Grid)
    requires InGrid(g, cell)
    ensures |r| == |g| && forall i :: 0 <= i < |g| ==> |r[i]| == |g[i]|
    ensures forall i, j :: 0 <= i < |g| && 0 <= j < |g[i]| ==>
              r[i][j] == if (i, j) == cell then v else g[i][j]
  {
    g[cell.0 := g[cell.0][cell.1 := v]]
  }

  /** The headings recorded for a cell, none when it has no entry. */
  function Seen(visited: Visited, cell: Cell): set<Direction>
  {
    if cell in visited then visited[cell] else {}
  }

  /** move_guard as a function of the grid and the visited map. */
  function Step(g: Grid, visited: Visited): (r: StepResult)
    requires Rectangular(g)
    ensures |r.grid| == |g|
    ensures visited.Keys <= r.visited.Keys
    ensures r.outcome == Loop ==> r.grid == g && r.visited == visited
  {
    match FindGuard(g)
    case None => StepResult(g, visited, Continue)
    case Some((cell, d)) =>
      if d in Seen(visited, cell) then StepResult(g, visited, Loop)
      else
        var recorded := visited[cell := Seen(visited, cell) + {d}];
        match Next(g, cell.0, cell.1, d)
        case Some(target) =>
          if g[target.0][target.1] == Obstruction then
            StepResult(SetCell(g, cell, Guard(TurnRight(d))), recorded, Continue)
          else
            StepResult(SetCell(SetCell(g, target, Guard(d)), cell, Empty), recorded, Continue)
        case None => StepResult(SetCell(g, cell, Empty), recorded, OutOfBounds)
  }

  /** Step for a new (cell, heading) pair: leave at the edge, turn at an obstruction, else move ahead. */
  lemma StepCase(g: Grid, visited: Visited, cell: Cell, d: Direction)
    requires Rectangular(g) && FindGuard(g) == Some((cell, d)) && d !in Seen(visited, cell)
    ensures var recorded := visited[cell := Seen(visited, cell) + {d}];
            var next := Next(g, cell.0, cell.1, d);
            Step(g, visited) ==
              if next.None? then StepResult(SetCell(g, cell, Empty), recorded, OutOfBounds)
              else if g[next.value.0][next.value.1] == Obstruction then StepResult(SetCell(g, cell, Guard(TurnRight(d))), recorded, Continue)
              else StepResult(SetCell(SetCell(g, next.value, Guard(d)), cell, Empty), recorded, Continue)
  {
  }

  /** Every (cell, heading) pair of the visited map. */
  function Pairs(visited: Visited): set<(Cell, Direction)>
  {
    set cell, d | cell in visited && d in visited[cell] :: (cell, d)
  }

  /** Without a guard a move changes nothing and reports Continue, so a walk needs a guard to end. */
  lemma StepWithoutGuard(g: Grid, visited: Visited)
    requires Rectangular(g)
    requires NoGuard(g)
    ensures Step(g, visited) == StepResult(g, visited, Continue)
  {
  }

  /** A (cell, heading) pair seen before ends the walk as a loop and changes nothing. */
  lemma StepOnSeenPairLoops(g: Grid, visited: Visited, cell: Cell)
    requires Rectangular(g)
    requires OneGuardAt(g, cell) && g[cell.0][cell.1].direction in Seen(visited, cell)
    ensures Step(g, visited) == StepResult(g, visited, Loop)
  {
    FindsTheOneGuard(g, cell);
  }

  /** A new pair is recorded before the guard moves: the visited map grows by exactly that pair. */
  lemma StepRecordsPair(g: Grid, visited: Visited, cell: Cell)
    requires Rectangular(g)
    requires OneGuardAt(g, cell) && g[cell.0][cell.1].direction !in Seen(visited, cell)
    ensures Step(g, visited).visited.Keys == visited.Keys + {cell}
    ensures forall k :: k in visited ==> visited[k] <= Step(g, visited).visited[k]
    ensures Pairs(Step(g, visited).visited) == Pairs(visited) + {(cell, g[cell.0][cell.1].direction)}
    ensures (cell, g[cell.0][cell.1].direction) !in Pairs(visited)
  {
    FindsTheOneGuard(g, cell);
    var d := g[cell.0][cell.1].direction;
    var after := Step(g, visited).visited;
    assert after == visited[cell := Seen(visited, cell) + {d}];
    forall p | p in Pairs(after)
      ensures p in Pairs(visited) + {(cell, d)}
    {
    }
    forall p | p in Pairs(visited) + {(cell, d)}
      ensures p in Pairs(after)
    {
      if p != (cell, d) {
        assert p.0 in visited && p.1 in visited[p.0];
      }
    }
  }

  /** An obstruction ahead: the guard stays on its cell turned right, and no other cell changes. */
  lemma StepTurnsAtObstruction(g: Grid, visited: Visited, cell: Cell)
    requires Rectangular(g)
    requires OneGuardAt(g, cell)
    requires g[cell.0][cell.1].direction !in Seen(visited, cell)
    requires Next(g, cell.0, cell.1, g[cell.0][cell.1].direction).Some?
    requires var t := Next(g, cell.0, cell.1, g[cell.0][cell.1].direction).value; g[t.0][t.1] == Obstruction
    ensures Step(g, visited).outcome == Continue
    ensures Step(g, visited).grid == SetCell(g, cell, Guard(TurnRight(g[cell.0][cell.1].direction)))
    ensures OneGuardAt(Step(g, visited).grid, cell)
  {
    FindsTheOneGuard(g, cell);
  }

  /** A free cell ahead: the guard moves there with its heading, its old cell becomes Empty, and no other cell changes. */
  lemma StepMovesAhead(g: Grid, visited: Visited, cell: Cell)
    requires Rectangular(g)
    requires OneGuardAt(g, cell)
    requires g[cell.0][cell.1].direction !in Seen(visited, cell)
    requires Next(g, cell.0, cell.1, g[cell.0][cell.1].direction).Some?
    requires var t := Next(g, cell.0, cell.1, g[cell.0][cell.1].direction).value; g[t.0][t.1] != Obstruction
    ensures var t := Next(g, cell.0, cell.1, g[cell.0][cell.1].direction).value;
            Step(g, visited).outcome == Continue &&
            Step(g, visited).grid == SetCell(SetCell(g, t, g[cell.0][cell.1]), cell, Empty) &&
            OneGuardAt(Step(g, visited).grid, t) &&
            Step(g, visited).grid[t.0][t.1] == g[cell.0][cell.1]
  {
    FindsTheOneGuard(g, cell);
    var d := g[cell.0][cell.1].direction;
    var t := Next(g, cell.0, cell.1, d).value;
    assert t != cell;
  }

  /** At the edge the guard leaves: its cell becomes Empty, the outcome is OutOfBounds and no guard is left. */
  lemma StepLeavesGrid(g: Grid, visited: Visited, cell: Cell)
    requires Rectangular(g)
    requires OneGuardAt(g, cell)
    requires g[cell.0][cell.1].direction !in Seen(visited, cell)
    requires Next(g, cell.0, cell.1, g[cell.0][cell.1].direction).None?
    ensures Step(g, visited).outcome == OutOfBounds
    ensures Step(g, visited).grid == SetCell(g, cell, Empty)
    ensures FindGuard(Step(g, visited).grid).None?
    ensures cell in Step(g, visited).visited
  {
    FindsTheOneGuard(g, cell);
  }

  /** A state the walk can be in: a rectangular grid with exactly one guard, and a visited map of free cells of the grid. */
  predicate WalkState(g: Grid, visited: Visited)
  {
    Rectangular(g) && FindGuard(g).Some? && OneGuardAt(g, FindGuard(g).value.0) &&
    forall k :: k in visited ==> InGrid(g, k) && g[k.0][k.1] != Obstruction
  }

  /** Two grids of the same shape with the same obstructions. */
  predicate SameObstructions(g: Grid, h: Grid)
  {
    |g| == |h| && (forall i :: 0 <= i < |g| ==> |g[i]| == |h[i]|) &&
    forall i, j :: 0 <= i < |g| && 0 <= j < |g[i]| ==> (g[i][j] == Obstruction <==> h[i][j] == Obstruction)
  }

  /** A move that continues leads to another walk state with the same obstructions and one more visited pair. */
  lemma StepKeepsWalkState(g: Grid, visited: Visited)
    requires WalkState(g, visited) && Step(g, visited).outcome == Continue
    ensures WalkState(Step(g, visited).grid, Step(g, visited).visited)
    ensures SameObstructions(g, Step(g, visited).grid)
    ensures |Pairs(Step(g, visited).visited)| == |Pairs(visited)| + 1
  {
    var cell := FindGuard(g).value.0;
    var d := g[cell.0][cell.1].direction;
    var s := Step(g, visited);
    if d in Seen(visited, cell) {
      StepOnSeenPairLoops(g, visited, cell);
    } else {
      StepRecordsPair(g, visited, cell);
      match Next(g, cell.0, cell.1, d)
      case None =>
        StepLeavesGrid(g, visited, cell);
      case Some(t) =>
        if g[t.0][t.1] == Obstruction {
          StepTurnsAtObstruction(g, visited, cell);
          SetKeepsObstructions(g, cell, Guard(TurnRight(d)));
          WalkStateKept(g, visited, s.grid, s.visited, cell, cell);
        } else {
          StepMovesAhead(g, visited, cell);
          var h := SetCell(g, t, Guard(d));
          SetKeepsObstructions(g, t, Guard(d));
          SetKeepsObstructions(h, cell, Empty);
          SameObstructionsTrans(g, h, s.grid);
          WalkStateKept(g, visited, s.grid, s.visited, cell, t);
        }
    }
  }

  /** Writing a guard or an empty cell over a cell that is not an obstruction keeps the obstructions. */
  lemma SetKeepsObstructions(g: Grid, cell: Cell, v: Value)
    requires InGrid(g, cell) && g[cell.0][cell.1] != Obstruction && v != Obstruction
    ensures SameObstructions(g, SetCell(g, cell, v))
  {
  }

  lemma SameObstructionsTrans(a: Grid, b: Grid, c: Grid)
    requires SameObstructions(a, b) && SameObstructions(b, c)
    ensures SameObstructions(a, c)
  {
  }

  /** A grid with the same obstructions and one guard, and a visited map grown by the guard's old cell, form a walk state. */
  lemma WalkStateKept(g: Grid, visited: Visited, h: Grid, v: Visited, cell: Cell, guardCell: Cell)
    requires WalkState(g, visited) && SameObstructions(g, h) && OneGuardAt(h, guardCell)
    requires cell == FindGuard(g).value.0 && v.Keys == visited.Keys + {cell}
    ensures WalkState(h, v)
  {
    FindsTheOneGuard(h, guardCell);
    FindsTheOneGuard(g, cell);
    assert forall r :: 0 <= r < |h| ==> |h[r]| == |g[r]|;
  }

  function DirIndex(d: Direction): nat
  {
    match d
    case Up => 0
    case Down => 1
    case Left => 2
    case Right => 3
  }

  /** A number for each (cell, heading) pair of a grid with numCols columns. */
  function Code(p: (Cell, Direction), numCols: nat): nat
  {
    (p.0.0 * numCols + p.0.1) * 4 + DirIndex(p.1)
  }

  lemma CodeBound(p: (Cell, Direction), numRows: nat, numCols: nat)
    requires p.0.0 < numRows && p.0.1 < numCols
    ensures Code(p, numCols) < 4 * numRows * numCols
  {
    var r, c := p.0.0, p.0.1;
    assert r * numCols + c < (r + 1) * numCols;
    MulMonotone(r + 1, numRows, numCols);
  }

  lemma MulMonotone(a: nat, b: nat, c: nat)
    requires a <= b
    ensures a * c <= b * c
  {
  }

  lemma CodeInjective(p: (Cell, Direction), q: (Cell, Direction), numCols: nat)
    requires p.0.1 < numCols && q.0.1 < numCols && Code(p, numCols) == Code(q, numCols)
    ensures p == q
  {
    var x := Code(p, numCols);
    DivModUnique(x, 4, p.0.0 * numCols + p.0.1, DirIndex(p.1));
    DivModUnique(x, 4, q.0.0 * numCols + q.0.1, DirIndex(q.1));
    var cellCode := p.0.0 * numCols + p.0.1;
    DivModUnique(cellCode, numCols, p.0.0, p.0.1);
    DivModUnique(cellCode, numCols, q.0.0, q.0.1);
  }

  function Codes(ps: set<(Cell, Direction)>, numCols: nat): set<nat>
  {
    set p | p in ps :: Code(p, numCols)
  }

  lemma {:induction false} CodesCard(ps: set<(Cell, Direction)>, numCols: nat)
    requires forall p :: p in ps ==> p.0.1 < numCols
    ensures |Codes(ps, numCols)| == |ps|
    decreases |ps|
  {
    if ps != {} {
      var x :| x in ps;
      var rest := ps - {x};
      CodesCard(rest, numCols);
      assert Codes(ps, numCols) == Codes(rest, numCols) + {Code(x, numCols)};
      if Code(x, numCols) in Codes(rest, numCols) {
        var y :| y in rest && Code(y, numCols) == Code(x, numCols);
        CodeInjective(x, y, numCols);
      }
    }
  }

  lemma {:induction false} RangeCard(s: set<nat>, n: nat)
    requires forall x :: x in s ==> x < n
    ensures |s| <= n
    decreases n
  {
    if s != {} {
      var x :| x in s;
      RangeCard(s - {n - 1}, n - 1);
    }
  }

  /** A grid of numRows by numCols cells has at most 4 numRows numCols (cell, heading) pairs. */
  lemma PairsBound(visited: Visited, numRows: nat, numCols: nat)
    requires forall k :: k in visited ==> k.0 < numRows && k.1 < numCols
    ensures |Pairs(visited)| <= 4 * numRows * numCols
  {
    var ps := Pairs(visited);
    CodesCard(ps, numCols);
    forall x | x in Codes(ps, numCols)
      ensures x < 4 * numRows * numCols
    {
      var p :| p in ps && Code(p, numCols) == x;
      CodeBound(p, numRows, numCols);
    }
    RangeCard(Codes(ps, numCols), 4 * numRows * numCols);
  }

  /** The measure of the walk: the pairs not yet visited. */
  function Unvisited(g: Grid, visited: Visited): int
    requires |g| > 0
  {
    4 * |g| * |g[0]| - |Pairs(visited)|
  }

  lemma UnvisitedNonNegative(g: Grid, visited: Visited)
    requires WalkState(g, visited)
    ensures Unvisited(g, visited) >= 0
  {
    PairsBound(visited, |g|, |g[0]|);
  }

  /** run_puzzle as a function: moves until the outcome is no longer Continue. */
  function Run(g: Grid, visited: Visited): (r: StepResult)
    requires WalkState(g, visited)
    ensures r.outcome == Loop || r.outcome == OutOfBounds
    ensures SameObstructions(g, r.grid)
    ensures visited.Keys <= r.visited.Keys
    ensures forall k :: k in r.visited ==> InGrid(g, k) && g[k.0][k.1] != Obstruction
    ensures r.outcome == OutOfBounds ==> NoGuard(r.grid)
    decreases Unvisited(g, visited)
  {
    var s := Step(g, visited);
    var cell := FindGuard(g).value.0;
    if s.outcome != Continue then
      if g[cell.0][cell.1].direction in Seen(visited, cell) then
        StepOnSeenPairLoops(g, visited, cell);
        s
      else
        StepRecordsPair(g, visited, cell);
        NewPairStopLeaves(g, visited, cell);
        s
    else
      StepKeepsWalkState(g, visited);
      StepRecordsPair(g, visited, cell);
      UnvisitedNonNegative(s.grid, s.visited);
      var r := Run(s.grid, s.visited);
      r
  }

  lemma NewPairStopLeaves(g: Grid, visited: Visited, cell: Cell)
    requires WalkState(g, visited) && cell == FindGuard(g).value.0
    requires g[cell.0][cell.1].direction !in Seen(visited, cell)
    requires Step(g, visited).outcome != Continue
    ensures Step(g, visited).outcome == OutOfBounds
    ensures NoGuard(Step(g, visited).grid)
    ensures SameObstructions(g, Step(g, visited).grid)
    ensures forall k :: k in Step(g, visited).visited ==> InGrid(g, k) && g[k.0][k.1] != Obstruction
  {
    assert Next(g, cell.0, cell.1, g[cell.0][cell.1].direction).None?;
    StepLeavesGrid(g, visited, cell);
  }

  /** The number of moves run_puzzle makes, the last one included. */
  function Moves(g: Grid, visited: Visited): (n: nat)
    requires WalkState(g, visited)
    ensures 1 <= n <= Unvisited(g, visited) + 1
    decreases Unvisited(g, visited)
  {
    var s := Step(g, visited);
    var cell := FindGuard(g).value.0;
    UnvisitedNonNegative(g, visited);
    if s.outcome != Continue then 1
    else
      StepKeepsWalkState(g, visited);
      UnvisitedNonNegative(s.grid, s.visited);
      1 + Moves(s.grid, s.visited)
  }

  /** A walk from a freshly parsed grid ends within 4 rows cols + 1 moves. */
  lemma WalkIsBounded(g: Grid)
    requires WalkState(g, map[])
    ensures Moves(g, map[]) <= 4 * |g| * |g[0]| + 1
  {
    assert Pairs(map[]) == {};
  }

  /** Two grids of the same shape agreeing on every cell are equal. */
  lemma GridsEqual(a: Grid, b: Grid)
    requires |a| == |b| && forall i :: 0 <= i < |a| ==> |a[i]| == |b[i]|
    requires forall i, j :: 0 <= i < |a| && 0 <= j < |a[i]| ==> a[i][j] == b[i][j]
    ensures a == b
  {
    forall i | 0 <= i < |a|
      ensures a[i] == b[i]
    {
    }
  }

  /** The puzzle: the grid of values, updated in place, and the visited map. */
  class Puzzle {
    var values: array2<Value>
    var visited: Visited

    /** The grid the array holds, row by row. */
    function Contents(): (g: Grid)
      reads this`values, values
      ensures |g| == values.Length0 && forall r :: 0 <= r < |g| ==> |g[r]| == values.Length1
      ensures forall r, c :: 0 <= r < values.Length0 && 0 <= c < values.Length1 ==> g[r][c] == values[r, c]
    {
      var a := values;
      seq(a.Length0, r requires 0 <= r < a.Length0 reads a =>
        seq(a.Length1, c requires 0 <= r < a.Length0 && 0 <= c < a.Length1 reads a => a[r, c]))
    }

    /** A puzzle has at least one row and one column. */
    predicate Valid()
      reads this`values
    {
      values.Length0 > 0 && values.Length1 > 0
    }

    /** A parsed grid with an empty visited map. */
    constructor(g: Grid)
      requires Rectangular(g)
      ensures Valid() && Contents() == g && visited == map[]
      ensures fresh(values)
    {
      values := new Value[|g|, |g[0]|]((r, c) requires 0 <= r < |g| && 0 <= c < |g[0]| => g[r][c]);
      visited := map[];
      new;
      GridsEqual(Contents(), g);
    }

    /** A copy with its own array. */
    method Clone() returns (p: Puzzle)
      requires Valid()
      ensures fresh(p) && fresh(p.values)
      ensures p.Valid() && p.Contents() == old(Contents()) && p.visited == visited
    {
      var g := Contents();
      p := new Puzzle(g);
      p.visited := visited;
      assert p.Contents() == g;
    }

    /** Writes one cell of the array; the grid changes in that cell only. */
    method SetValue(rowIdx: nat, colIdx: nat, v: Value)
      requires rowIdx < values.Length0 && colIdx < values.Length1
      modifies values
      ensures Contents() == SetCell(old(Contents()), (rowIdx, colIdx), v)
    {
      ghost var g := Contents();
      values[rowIdx, colIdx] := v;
      GridsEqual(Contents(), SetCell(g, (rowIdx, colIdx), v));
    }

    /** guard(): the first guard in row-major order, scanning the array. */
    method LocateGuard() returns (guard: Option<(Cell, Direction)>)
      ensures guard == FindGuard(Contents())
    {
      ghost var g := Contents();
      for r := 0 to values.Length0
        invariant NoGuardBefore(g, r, 0)
      {
        for c := 0 to values.Length1
          invariant NoGuardBefore(g, r, c)
        {
          if values[r, c].Guard? {
            guard := Some(((r, c), values[r, c].direction));
            return;
          }
        }
      }
      guard := None;
    }

    /** next(): the neighbouring cell, or None at the edge the guard faces. */
    function NextCell(rowIdx: nat, colIdx: nat, d: Direction): (n: Option<Cell>)
      reads this`values, values
      requires rowIdx < values.Length0 && colIdx < values.Length1
      ensures n == Next(Contents(), rowIdx, colIdx, d)
    {
      match d
      case Up => if rowIdx == 0 then None else Some((rowIdx - 1, colIdx))
      case Down => if rowIdx == values.Length0 - 1 then None else Some((rowIdx + 1, colIdx))
      case Left => if colIdx == 0 then None else Some((rowIdx, colIdx - 1))
      case Right => if colIdx == values.Length1 - 1 then None else Some((rowIdx, colIdx + 1))
    }

    /** move_guard(): one move, in place; its effect is exactly Step. */
    method MoveGuard() returns (outcome: Outcome)
      requires Valid()
      modifies this`visited, values
      ensures StepResult(Contents(), visited, outcome) == Step(old(Contents()), old(visited))
    {
      outcome := Continue;
      var guard := LocateGuard();
      if guard.Some? {
        var (cell, direction) := guard.value;
        if direction in Seen(visited, cell) {
          outcome := Loop;
        } else {
          outcome := MoveFrom(cell, direction);
        }
      }
    }

    /** The part of move_guard after a new (cell, heading) pair: record it, then turn, move or leave. */
    method MoveFrom(cell: Cell, direction: Direction) returns (outcome: Outcome)
      requires Valid() && FindGuard(Contents()) == Some((cell, direction))
      requires direction !in Seen(visited, cell)
      modifies this`visited, values
      ensures StepResult(Contents(), visited, outcome) == Step(old(Contents()), old(visited))
    {
      ghost var g := Contents();
      StepCase(g, visited, cell, direction);
      var (rowIdx, colIdx) := cell;
      outcome := Continue;
      visited := visited[cell := Seen(visited, cell) + {direction}];
      var next := NextCell(rowIdx, colIdx, direction);
      if next.Some? {
        var (newRowIdx, newColIdx) := next.value;
        var nextValue := values[newRowIdx, newColIdx];
        if nextValue == Obstruction {
          SetValue(rowIdx, colIdx, Guard(TurnRight(direction)));
        } else {
          SetValue(newRowIdx, newColIdx, Guard(direction));
          SetValue(rowIdx, colIdx, Empty);
        }
      } else {
        SetValue(rowIdx, colIdx, Empty);
        outcome := OutOfBounds;
      }
    }

    /** run_puzzle(): moves until the walk loops or leaves the grid; its effect is exactly Run. */
    method RunPuzzle() returns (outcome: Outcome)
      requires Valid() && WalkState(Contents(), visited)
      modifies this`visited, values
      ensures StepResult(Contents(), visited, outcome) == Run(old(Contents()), old(visited))
      ensures outcome == Loop || outcome == OutOfBounds
    {
      ghost var final := Run(Contents(), visited);
      while true
        invariant Valid() && WalkState(Contents(), visited)
        invariant Run(Contents(), visited) == final
        decreases Unvisited(Contents(), visited)
      {
        ghost var g, v := Contents(), visited;
        StepKeepsWalkStateOrEnds(g, v);
        outcome := MoveGuard();
        if outcome != Continue {
          return;
        }
      }
    }
  }

  /** The state after one move of a walk: either the walk has ended with that move, or it goes on from a walk state with fewer unvisited pairs. */
  lemma StepKeepsWalkStateOrEnds(g: Grid, visited: Visited)
    requires WalkState(g, visited)
    ensures Step(g, visited).outcome != Continue ==> Run(g, visited) == Step(g, visited)
    ensures Step(g, visited).outcome == Continue ==>
              WalkState(Step(g, visited).grid, Step(g, visited).visited) &&
              Run(g, visited) == Run(Step(g, visited).grid, Step(g, visited).visited) &&
              0 <= Unvisited(Step(g, visited).grid, Step(g, visited).visited) < Unvisited(g, visited)
  {
    if Step(g, visited).outcome == Continue {
      StepKeepsWalkState(g, visited);
      UnvisitedNonNegative(Step(g, visited).grid, Step(g, visited).visited);
    }
  }

  /** Part one: the number of distinct cells the guard visits, whatever the heading. */
  method First(g: Grid) returns (count: nat)
    requires WalkState(g, map[])
    ensures count == |Run(g, map[]).visited.Keys|
  {
    var puzzle := new Puzzle(g);
    var _ := puzzle.RunPuzzle();
    count := |puzzle.visited.Keys|;
  }

  /** The cells where part two tries an obstruction: those the unobstructed walk visits, except the start. */
  function Candidates(g: Grid): (cs: set<Cell>)
    requires WalkState(g, map[])
    ensures forall c :: c in cs ==> InGrid(g, c) && g[c.0][c.1] != Obstruction && c != FindGuard(g).value.0
  {
    Run(g, map[]).visited.Keys - {FindGuard(g).value.0}
  }

  /** Every candidate is a free cell of the grid other than the start. */
  lemma CandidatesAreFreeCells(g: Grid, c: Cell)
    requires WalkState(g, map[]) && c in Candidates(g)
    ensures InGrid(g, c) && g[c.0][c.1] != Obstruction && c != FindGuard(g).value.0
    ensures WalkState(SetCell(g, c, Obstruction), map[])
  {
    var start := FindGuard(g).value.0;
    var h := SetCell(g, c, Obstruction);
    assert OneGuardAt(h, start);
    FindsTheOneGuard(h, start);
  }

  /** An obstruction on candidate c traps the guard in a loop. */
  predicate TrapsGuard(g: Grid, c: Cell)
    requires WalkState(g, map[]) && c in Candidates(g)
  {
    CandidatesAreFreeCells(g, c);
    Run(SetCell(g, c, Obstruction), map[]).outcome == Loop
  }

  /** The candidates of part two, from a run of a copy of the unrun puzzle. */
  method CandidateCells(original: Puzzle, ghost g: Grid) returns (candidates: set<Cell>)
    requires original.Valid() && original.Contents() == g && original.visited == map[]
    requires WalkState(g, map[])
    ensures candidates == Candidates(g)
  {
    var visitedCells := RunCopy(original, g);
    var start := original.LocateGuard();
    candidates := visitedCells - {start.value.0};
  }

  /** Runs a copy of the unrun puzzle and returns the cells it visits. */
  method RunCopy(original: Puzzle, ghost g: Grid) returns (visitedCells: set<Cell>)
    requires original.Valid() && original.Contents() == g && original.visited == map[]
    requires WalkState(g, map[])
    ensures visitedCells == Run(g, map[]).visited.Keys
  {
    var puzzle := original.Clone();
    var _ := puzzle.RunPuzzle();
    visitedCells := puzzle.visited.Keys;
  }

  /** One trial of part two: a fresh copy of the unrun puzzle, obstructed at cell, run to its end. */
  method TryObstruction(original: Puzzle, ghost g: Grid, cell: Cell) returns (trapped: bool)
    requires original.Valid() && original.Contents() == g && original.visited == map[]
    requires WalkState(g, map[]) && cell in Candidates(g)
    ensures trapped == TrapsGuard(g, cell)
  {
    CandidatesAreFreeCells(g, cell);
    ghost var h := SetCell(g, cell, Obstruction);
    var newPuzzle := original.Clone();
    newPuzzle.SetValue(cell.0, cell.1, Obstruction);
    assert newPuzzle.Contents() == h && newPuzzle.visited == map[];
    var outcome := newPuzzle.RunPuzzle();
    assert outcome == Run(h, map[]).outcome;
    trapped := outcome == Loop;
  }

  /** The tried candidates whose obstruction traps the guard. */
  function Trapping(g: Grid, tried: set<Cell>): (t: set<Cell>)
    requires WalkState(g, map[]) && tried <= Candidates(g)
    ensures t <= tried
  {
    tried * AllTrapping(g)
  }

  /** Every candidate whose obstruction traps the guard. */
  function AllTrapping(g: Grid): (t: set<Cell>)
    requires WalkState(g, map[])
    ensures t <= Candidates(g)
  {
    set c | c in Candidates(g) && TrapsGuard(g, c)
  }

  /** Trying one more candidate adds it to the trapping set exactly when it traps the guard. */
  lemma TrappingGrows(g: Grid, tried: set<Cell>, cell: Cell)
    requires WalkState(g, map[]) && tried <= Candidates(g) && cell in Candidates(g) && cell !in tried
    ensures |Trapping(g, tried + {cell})| == |Trapping(g, tried)| + (if TrapsGuard(g, cell) then 1 else 0)
  {
    IntersectGrows(tried, AllTrapping(g), cell);
  }

  lemma IntersectGrows(tried: set<Cell>, all: set<Cell>, cell: Cell)
    requires cell !in tried
    ensures |(tried + {cell}) * all| == |tried * all| + (if cell in all then 1 else 0)
  {
    if cell in all {
      assert (tried + {cell}) * all == tried * all + {cell};
    } else {
      assert (tried + {cell}) * all == tried * all;
    }
  }

  lemma TryOneMore(all: set<Cell>, remaining: set<Cell>, cell: Cell)
    requires cell in remaining && remaining <= all
    ensures all - remaining + {cell} == all - (remaining - {cell})
  {
  }

  /** Obstructing a free cell the guard does not stand on, and that holds no visited entry, leaves a walk state with the same guard. */
  lemma ObstructedWalkState(g: Grid, visited: Visited, c: Cell)
    requires WalkState(g, visited) && InGrid(g, c) && g[c.0][c.1] != Obstruction
    requires c != FindGuard(g).value.0 && c !in visited
    ensures WalkState(SetCell(g, c, Obstruction), visited)
    ensures FindGuard(SetCell(g, c, Obstruction)) == FindGuard(g)
  {
    var cell := FindGuard(g).value.0;
    var h := SetCell(g, c, Obstruction);
    assert OneGuardAt(h, cell);
    FindsTheOneGuard(h, cell);
  }

  /** The cell the guard stands on is among the cells its walk visits. */
  lemma GuardCellVisited(g: Grid, visited: Visited)
    requires WalkState(g, visited)
    ensures FindGuard(g).value.0 in Run(g, visited).visited
  {
    var cell := FindGuard(g).value.0;
    StepKeepsWalkStateOrEnds(g, visited);
    if g[cell.0][cell.1].direction !in Seen(visited, cell) {
      StepRecordsPair(g, visited, cell);
    }
  }

  /** After a move that continues, the guard stands on its old cell, turned, or on the cell it faced. */
  lemma GuardAfterStep(g: Grid, visited: Visited)
    requires WalkState(g, visited) && Step(g, visited).outcome == Continue
    ensures var cell := FindGuard(g).value.0;
            var d := FindGuard(g).value.1;
            var next := FindGuard(Step(g, visited).grid);
            d !in Seen(visited, cell) && next.Some? &&
            (next.value.0 == cell || Some(next.value.0) == Next(g, cell.0, cell.1, d))
  {
    var cell := FindGuard(g).value.0;
    var d := FindGuard(g).value.1;
    var s := Step(g, visited);
    var t := Next(g, cell.0, cell.1, d).value;
    if g[t.0][t.1] == Obstruction {
      StepTurnsAtObstruction(g, visited, cell);
      FindsTheOneGuard(s.grid, cell);
    } else {
      StepMovesAhead(g, visited, cell);
      FindsTheOneGuard(s.grid, t);
    }
  }

  /** Obstructing a free cell the guard neither stands on nor is about to enter commutes with the move. */
  lemma StepAvoids(g: Grid, visited: Visited, c: Cell)
    requires WalkState(g, visited) && InGrid(g, c) && g[c.0][c.1] != Obstruction
    requires c != FindGuard(g).value.0 && c !in visited
    requires var cell := FindGuard(g).value.0;
             var d := FindGuard(g).value.1;
             d !in Seen(visited, cell) ==> Next(g, cell.0, cell.1, d) != Some(c)
    ensures WalkState(SetCell(g, c, Obstruction), visited)
    ensures var s := Step(g, visited);
            Step(SetCell(g, c, Obstruction), visited) == StepResult(SetCell(s.grid, c, Obstruction), s.visited, s.outcome)
  {
    var cell := FindGuard(g).value.0;
    var d := FindGuard(g).value.1;
    var h := SetCell(g, c, Obstruction);
    ObstructedWalkState(g, visited, c);
    if d !in Seen(visited, cell) {
      StepCase(g, visited, cell, d);
      StepCase(h, visited, cell, d);
      assert Next(h, cell.0, cell.1, d) == Next(g, cell.0, cell.1, d);
      match Next(g, cell.0, cell.1, d)
      case None =>
        SetCellsCommute(g, c, Obstruction, cell, Empty);
      case Some(t) =>
        if g[t.0][t.1] == Obstruction {
          SetCellsCommute(g, c, Obstruction, cell, Guard(TurnRight(d)));
        } else {
          SetCellsCommute(g, c, Obstruction, t, Guard(d));
          SetCellsCommute(SetCell(g, t, Guard(d)), c, Obstruction, cell, Empty);
        }
    }
  }

  /** Writes to two different cells can be made in either order. */
  lemma SetCellsCommute(g: Grid, a: Cell, u: Value, b: Cell, v: Value)
    requires InGrid(g, a) && InGrid(g, b) && a != b
    ensures SetCell(SetCell(g, a, u), b, v) == SetCell(SetCell(g, b, v), a, u)
  {
    GridsEqual(SetCell(SetCell(g, a, u), b, v), SetCell(SetCell(g, b, v), a, u));
  }

  /** An obstruction on a free cell that the walk never visits changes neither the outcome nor the visited cells: the guard never enters it, so it never faces it. */
  lemma {:induction false} RunAvoids(g: Grid, visited: Visited, c: Cell)
    requires WalkState(g, visited) && InGrid(g, c) && g[c.0][c.1] != Obstruction
    requires c != FindGuard(g).value.0 && c !in visited
    ensures WalkState(SetCell(g, c, Obstruction), visited)
    ensures c !in Run(g, visited).visited ==>
              Run(SetCell(g, c, Obstruction), visited).outcome == Run(g, visited).outcome &&
              Run(SetCell(g, c, Obstruction), visited).visited == Run(g, visited).visited
    decreases Unvisited(g, visited)
  {
    var cell := FindGuard(g).value.0;
    var d := FindGuard(g).value.1;
    var h := SetCell(g, c, Obstruction);
    var s := Step(g, visited);
    ObstructedWalkState(g, visited, c);
    StepKeepsWalkStateOrEnds(g, visited);
    if d !in Seen(visited, cell) && Next(g, cell.0, cell.1, d) == Some(c) {
      StepMovesAhead(g, visited, cell);
      FindsTheOneGuard(s.grid, c);
      GuardCellVisited(s.grid, s.visited);
    } else {
      StepAvoids(g, visited, c);
      StepKeepsWalkStateOrEnds(h, visited);
      if s.outcome == Continue {
        StepKeepsWalkState(g, visited);
        GuardAfterStep(g, visited);
        RunAvoids(s.grid, s.visited, c);
      }
    }
  }

  /** When the unobstructed walk leaves the grid, an obstruction on a free cell it never visits lets the guard leave too. */
  lemma UnvisitedCellCannotTrap(g: Grid, c: Cell)
    requires WalkState(g, map[]) && Run(g, map[]).outcome == OutOfBounds
    requires InGrid(g, c) && g[c.0][c.1] != Obstruction && c !in Run(g, map[]).visited
    ensures WalkState(SetCell(g, c, Obstruction), map[])
    ensures Run(SetCell(g, c, Obstruction), map[]).outcome == OutOfBounds
  {
    GuardCellVisited(g, map[]);
    RunAvoids(g, map[], c);
  }

  /** A free cell other than the start: a cell an exhaustive search would obstruct. */
  predicate Obstructable(g: Grid, c: Cell)
    requires WalkState(g, map[])
  {
    InGrid(g, c) && g[c.0][c.1] != Obstruction && c != FindGuard(g).value.0
  }

  /** An obstruction on the free cell c traps the guard. */
  predicate FreeCellTraps(g: Grid, c: Cell)
    requires WalkState(g, map[]) && Obstructable(g, c)
  {
    ObstructedWalkState(g, map[], c);
    Run(SetCell(g, c, Obstruction), map[]).outcome == Loop
  }

  /** Every free cell other than the start whose obstruction traps the guard. */
  function ExhaustiveTrapping(g: Grid): (t: set<Cell>)
    requires WalkState(g, map[])
    ensures forall c :: c in t <==> Obstructable(g, c) && FreeCellTraps(g, c)
  {
    set r: nat, col: nat | r < |g| && col < |g[r]| && Obstructable(g, (r, col)) && FreeCellTraps(g, (r, col)) :: (r, col)
  }

  /** When the unobstructed walk leaves the grid, trying only the cells it visits finds exactly the trapping cells an exhaustive search finds. */
  lemma PruningIsExact(g: Grid)
    requires WalkState(g, map[]) && Run(g, map[]).outcome == OutOfBounds
    ensures Trapping(g, Candidates(g)) == ExhaustiveTrapping(g)
  {
    GuardCellVisited(g, map[]);
    forall c | c in ExhaustiveTrapping(g)
      ensures c in Trapping(g, Candidates(g))
    {
      RunAvoids(g, map[], c);
      CandidatesAreFreeCells(g, c);
    }
    forall c | c in Trapping(g, Candidates(g))
      ensures c in ExhaustiveTrapping(g)
    {
      CandidatesAreFreeCells(g, c);
    }
  }

  /** The free cells other than the start that the unobstructed walk never visits. */
  function Unreached(g: Grid): (u: set<Cell>)
    requires WalkState(g, map[])
    ensures forall c :: c in u <==> Obstructable(g, c) && c !in Run(g, map[]).visited
  {
    set r: nat, col: nat | r < |g| && col < |g[r]| && Obstructable(g, (r, col)) && (r, col) !in Run(g, map[]).visited :: (r, col)
  }

  /** When the unobstructed walk loops, every unvisited free cell traps the guard too, so the exhaustive search finds the trapping candidates plus exactly those cells. */
  lemma PruningWhenLooping(g: Grid)
    requires WalkState(g, map[]) && Run(g, map[]).outcome == Loop
    ensures ExhaustiveTrapping(g) == Trapping(g, Candidates(g)) + Unreached(g)
    ensures Trapping(g, Candidates(g)) !! Unreached(g)
    ensures |ExhaustiveTrapping(g)| == |Trapping(g, Candidates(g))| + |Unreached(g)|
  {
    GuardCellVisited(g, map[]);
    forall c | c in ExhaustiveTrapping(g)
      ensures c in Trapping(g, Candidates(g)) + Unreached(g)
    {
      if c in Run(g, map[]).visited {
        CandidatesAreFreeCells(g, c);
      }
    }
    forall c | c in Unreached(g)
      ensures c in ExhaustiveTrapping(g)
    {
      RunAvoids(g, map[], c);
    }
    forall c | c in Trapping(g, Candidates(g))
      ensures c in ExhaustiveTrapping(g)
    {
      CandidatesAreFreeCells(g, c);
    }
  }

  /** Part two: the number of candidates whose obstruction makes the walk loop. */
  method Second(g: Grid) returns (loops: nat)
    requires WalkState(g, map[])
    ensures loops == |Trapping(g, Candidates(g))|
    ensures Run(g, map[]).outcome == OutOfBounds ==> loops == |ExhaustiveTrapping(g)|
    ensures Run(g, map[]).outcome == Loop ==> loops + |Unreached(g)| == |ExhaustiveTrapping(g)|
  {
    var original := new Puzzle(g);
    var candidates := CandidateCells(original, g);
    loops := CountTrapping(original, g, candidates);
    if Run(g, map[]).outcome == OutOfBounds {
      PruningIsExact(g);
    } else {
      PruningWhenLooping(g);
    }
  }

  /** A puzzle whose array and fields are untouched keeps its contents. */
  twostate lemma ContentsKept(p: Puzzle)
    requires old(allocated(p)) && unchanged(p) && unchanged(p.values)
    ensures p.Contents() == old(p.Contents())
  {
  }

  /** Tries every cell of candidates, one fresh copy of the unrun puzzle each, and counts the loops. */
  method CountTrapping(original: Puzzle, ghost g: Grid, candidates: set<Cell>) returns (loops: nat)
    requires original.Valid() && original.Contents() == g && original.visited == map[]
    requires WalkState(g, map[]) && candidates <= Candidates(g)
    ensures loops == |Trapping(g, candidates)|
  {
    var remaining := candidates;
    loops := 0;
    label Start:
    assert candidates - remaining == {};
    assert Trapping(g, {}) == {};
    while remaining != {}
      invariant remaining <= candidates
      invariant loops == |Trapping(g, candidates - remaining)|
      decreases |remaining|
    {
      var cell :| cell in remaining;
      ContentsKept@Start(original);
      var trapped := TryObstruction(original, g, cell);
      TrappingGrows(g, candidates - remaining, cell);
      TryOneMore(candidates, remaining, cell);
      remaining := remaining - {cell};
      if trapped {
        loops := loops + 1;
      }
    }
    assert candidates - remaining == candidates;
  }
}
