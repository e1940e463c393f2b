// Day 10: hiking trails on a topographic map. A trail starts at height 0,
// climbs by exactly one at every orthogonal step and ends at height 9.
module Day10 {

  /** The map: one height per cell, row by row. */
  type Topology = seq<seq<int>>

  /** A cell of the map with the height read there: (row, column, height). */
  type Node = (nat, nat, int)

  /** At least one row, all rows as long as the first. */
  predicate Rectangular(t: Topology)
  {
    |t| > 0 && forall r :: 0 <= r < |t| ==> |t[r]| == |t[0]|
  }

  predicate InGrid(t: Topology, r: int, c: int)
    requires Rectangular(t)
  {
    0 <= r < |t| && 0 <= c < |t[0]|
  }

  /** (nr, nc) is one of the four orthogonal neighbours of (r, c). */
  predicate Adjacent(r: int, c: int, nr: int, nc: int)
  {
    (r == nr && (nc == c - 1 || nc == c + 1)) || (c == nc && (nr == r - 1 || nr == r + 1))
  }

  ghost predicate Distinct<T>(s: seq<T>)
  {
    forall i, j :: 0 <= i < j < |s| ==> s[i] != s[j]
  }

  /** (r, c) comes before (r2, c2) in row-major order. */
  predicate Before(r: nat, c: nat, r2: nat, c2: nat)
  {
    r < r2 || (r == r2 && c < c2)
  }

  predicate RowMajorIncreasing(cells: seq<(nat, nat)>)
  {
    forall i, j :: 0 <= i < j < |cells| ==> Before(cells[i].0, cells[i].1, cells[j].0, cells[j].1)
  }

  /** trailheads(): scans the map row by row for the cells of height 0. */
  method Trailheads(t: Topology) returns (heads: seq<(nat, nat)>)
    requires Rectangular(t)
    ensures forall r: nat, c: nat :: (r, c) in heads <==> InGrid(t, r, c) && t[r][c] == 0
    ensures RowMajorIncreasing(heads)
  {
    heads := [];
    for r := 0 to |t|
      invariant forall k :: 0 <= k < |heads| ==>
                  InGrid(t, heads[k].0, heads[k].1) && t[heads[k].0][heads[k].1] == 0 && heads[k].0 < r
      invariant forall r2: nat, c2: nat :: r2 < r && InGrid(t, r2, c2) && t[r2][c2] == 0 ==> (r2, c2) in heads
      invariant RowMajorIncreasing(heads)
    {
      for c := 0 to |t[r]|
        invariant forall k :: 0 <= k < |heads| ==>
                    InGrid(t, heads[k].0, heads[k].1) && t[heads[k].0][heads[k].1] == 0 &&
                    Before(heads[k].0, heads[k].1, r, c)
        invariant forall r2: nat, c2: nat :: Before(r2, c2, r, c) && InGrid(t, r2, c2) && t[r2][c2] == 0 ==> (r2, c2) in heads
        invariant RowMajorIncreasing(heads)
      {
        if t[r][c] == 0 {
          heads := heads + [(r, c)];
        }
      }
    }
  }

  /** The cell reached by one translation, with its height, if it is on the map. */
  function Translate(t: Topology, r: nat, c: nat, dr: int, dc: int): (ns: seq<Node>)
    requires Rectangular(t)
    ensures |ns| <= 1
    ensures forall n :: n in ns <==> InGrid(t, r + dr, c + dc) && n == ((r + dr) as nat, (c + dc) as nat, t[r + dr][c + dc])
  {
    if 0 <= r + dr < |t| && 0 <= c + dc < |t[0]| then [((r + dr) as nat, (c + dc) as nat, t[r + dr][c + dc])] else []
  }

  /** neighbours(): the orthogonal neighbours on the map, left, right, up, down, each with its height. */
  function Neighbours(t: Topology, r: nat, c: nat): (ns: seq<Node>)
    requires Rectangular(t)
    ensures |ns| <= 4 && Distinct(ns)
    ensures forall n :: n in ns ==> InGrid(t, n.0, n.1) && n.2 == t[n.0][n.1] && Adjacent(r, c, n.0, n.1)
    ensures forall nr: nat, nc: nat :: InGrid(t, nr, nc) && Adjacent(r, c, nr, nc) ==> (nr, nc, t[nr][nc]) in ns
  {
    var ns := Translate(t, r, c, 0, -1) + Translate(t, r, c, 0, 1) + Translate(t, r, c, -1, 0) + Translate(t, r, c, 1, 0);
    assert forall i :: 0 <= i < |ns| ==> ns[i] in ns;
    ns
  }

  /** A trail: starts at height 0 and climbs by one along orthogonal steps, each node carrying the map's height. */
  predicate Hike(t: Topology, p: seq<Node>)
    requires Rectangular(t)
  {
    |p| >= 1 && p[0].2 == 0 &&
    (forall i :: 0 <= i < |p| ==> InGrid(t, p[i].0, p[i].1) && p[i].2 == t[p[i].0][p[i].1]) &&
    forall i :: 0 <= i < |p| - 1 ==> Climbs(p[i], p[i + 1])
  }

  predicate Climbs(a: Node, b: Node)
  {
    Adjacent(a.0, a.1, b.0, b.1) && b.2 == a.2 + 1
  }

  /** Along a trail the height is the number of steps taken. */
  lemma {:induction false} HikeHeight(t: Topology, p: seq<Node>, i: nat)
    requires Rectangular(t) && Hike(t, p) && i < |p|
    ensures p[i].2 == i
  {
    if i > 0 {
      HikeHeight(t, p, i - 1);
      assert Climbs(p[i - 1], p[i]);
    }
  }

  /** No trail visits a cell twice: heights strictly increase, and a cell has one height. */
  lemma HikeHasNoRepeats(t: Topology, p: seq<Node>)
    requires Rectangular(t) && Hike(t, p)
    ensures forall i, j :: 0 <= i < j < |p| ==> (p[i].0, p[i].1) != (p[j].0, p[j].1)
  {
    forall i, j | 0 <= i < j < |p|
      ensures (p[i].0, p[i].1) != (p[j].0, p[j].1)
    {
      HikeHeight(t, p, i);
      HikeHeight(t, p, j);
    }
  }

  /** Every non-empty prefix of a trail is a trail. */
  lemma HikePrefix(t: Topology, p: seq<Node>, n: nat)
    requires Rectangular(t) && Hike(t, p) && 1 <= n <= |p|
    ensures Hike(t, p[..n])
  {
    var q := p[..n];
    forall i | 0 <= i < |q| - 1
      ensures Climbs(q[i], q[i + 1])
    {
      assert Climbs(p[i], p[i + 1]);
    }
  }

  /** The neighbours a path can continue to: one higher, and not already on the path. */
  function Onward(t: Topology, path: seq<Node>): (ns: seq<Node>)
    requires Rectangular(t) && |path| > 0
    ensures Distinct(ns)
    ensures forall n :: n in ns <==>
              (n in Neighbours(t, path[|path| - 1].0, path[|path| - 1].1) && n !in path && n.2 == path[|path| - 1].2 + 1)
  {
    var last := path[|path| - 1];
    Keep(Neighbours(t, last.0, last.1), path, last.2 + 1)
  }

  /** The nodes of ns that are of height h and not on the path, in order. */
  function Keep(ns: seq<Node>, path: seq<Node>, h: int): (r: seq<Node>)
    requires Distinct(ns)
    ensures Distinct(r)
    ensures forall n :: n in r <==> n in ns && n !in path && n.2 == h
  {
    if ns == [] then []
    else
      var rest := Keep(ns[1..], path, h);
      assert forall i, j :: 0 <= i < j < |ns[1..]| ==> ns[1..][i] == ns[i + 1] && ns[1..][j] == ns[j + 1];
      if ns[0] !in path && ns[0].2 == h then [ns[0]] + rest else rest
  }

  /** The paths one round makes of a path: itself when it is finished, otherwise one per onward neighbour. */
  function Extend(t: Topology, path: seq<Node>): (r: seq<seq<Node>>)
    requires Rectangular(t)
    ensures forall p :: p in r ==> |p| >= |path| && p[..|path|] == path
  {
    if |path| == 0 then []
    else if path[|path| - 1].2 == 9 then [path]
    else Appended(path, Onward(t, path))
  }

  function Appended(path: seq<Node>, ns: seq<Node>): (r: seq<seq<Node>>)
    ensures |r| == |ns|
    ensures forall i :: 0 <= i < |ns| ==> r[i] == path + [ns[i]]
  {
    seq(|ns|, i requires 0 <= i < |ns| => path + [ns[i]])
  }

  /** The concatenation of f over xs, in order. */
  function FlatMap<A, B>(f: A -> seq<B>, xs: seq<A>): seq<B>
  {
    if |xs| == 0 then [] else FlatMap(f, xs[..|xs| - 1]) + f(xs[|xs| - 1])
  }

  lemma {:induction false} FlatMapMembers<A, B>(f: A -> seq<B>, xs: seq<A>, y: B)
    ensures y in FlatMap(f, xs) <==> exists i :: 0 <= i < |xs| && y in f(xs[i])
  {
    if |xs| > 0 {
      var front := xs[..|xs| - 1];
      FlatMapMembers(f, front, y);
      if y in FlatMap(f, front) {
        var i :| 0 <= i < |front| && y in f(front[i]);
        assert xs[i] == front[i];
      }
      if exists i :: 0 <= i < |xs| && y in f(xs[i]) {
        var i :| 0 <= i < |xs| && y in f(xs[i]);
        if i < |xs| - 1 {
          assert front[i] == xs[i];
        }
      }
    }
  }

  /** Distinct pieces that pairwise share nothing concatenate to a sequence without repeats. */
  lemma {:induction false} FlatMapDistinct<A, B>(f: A -> seq<B>, xs: seq<A>)
    requires forall i :: 0 <= i < |xs| ==> Distinct(f(xs[i]))
    requires forall i, j, y :: 0 <= i < j < |xs| && y in f(xs[i]) ==> y !in f(xs[j])
    ensures Distinct(FlatMap(f, xs))
  {
    if |xs| > 0 {
      var front := xs[..|xs| - 1];
      assert forall i :: 0 <= i < |front| ==> front[i] == xs[i];
      FlatMapDistinct(f, front);
      var a, b := FlatMap(f, front), f(xs[|xs| - 1]);
      forall y | y in a
        ensures y !in b
      {
        FlatMapMembers(f, front, y);
      }
      ConcatDistinct(a, b);
    }
  }

  /** One round of the search over all paths, in order. */
  function Grow(t: Topology, paths: seq<seq<Node>>): (r: seq<seq<Node>>)
    requires Rectangular(t)
    ensures forall q :: q in r ==> exists p :: p in paths && |q| >= |p| && q[..|p|] == p
  {
    FlatMapExtends(t, paths);
    FlatMap(p => Extend(t, p), paths)
  }

  lemma FlatMapExtends(t: Topology, paths: seq<seq<Node>>)
    requires Rectangular(t)
    ensures forall q :: q in FlatMap(p => Extend(t, p), paths) ==> exists p :: p in paths && |q| >= |p| && q[..|p|] == p
  {
    forall q | q in FlatMap(p => Extend(t, p), paths)
      ensures exists p :: p in paths && |q| >= |p| && q[..|p|] == p
    {
      FlatMapMembers(p => Extend(t, p), paths, q);
      var i :| 0 <= i < |paths| && q in Extend(t, paths[i]);
      assert paths[i] in paths;
    }
  }

  /** A path comes out of a round exactly when it extends one of the paths that went in. */
  lemma GrowMembers(t: Topology, paths: seq<seq<Node>>, p: seq<Node>)
    requires Rectangular(t)
    ensures p in Grow(t, paths) <==> exists i :: 0 <= i < |paths| && p in Extend(t, paths[i])
  {
    FlatMapMembers(p => Extend(t, p), paths, p);
  }

  /** All trails of length k + 1. */
  ghost predicate AllHikes(t: Topology, paths: seq<seq<Node>>, k: nat)
    requires Rectangular(t)
  {
    (forall p :: p in paths ==> Hike(t, p) && |p| == k + 1) &&
    (forall p :: Hike(t, p) && |p| == k + 1 ==> p in paths) &&
    Distinct(paths)
  }

  /** A round takes exactly the trails of length k + 1, without repeats, to exactly the trails of length k + 2, without repeats. */
  lemma GrowClimbs(t: Topology, paths: seq<seq<Node>>, k: nat)
    requires Rectangular(t) && k < 9 && AllHikes(t, paths, k)
    ensures AllHikes(t, Grow(t, paths), k + 1)
  {
    GrowSound(t, paths, k);
    GrowComplete(t, paths, k);
    GrowDistinct(t, paths, k);
  }

  lemma GrowSound(t: Topology, paths: seq<seq<Node>>, k: nat)
    requires Rectangular(t) && k < 9
    requires forall p :: p in paths ==> Hike(t, p) && |p| == k + 1
    ensures forall p :: p in Grow(t, paths) ==> Hike(t, p) && |p| == k + 2
  {
    forall p | p in Grow(t, paths)
      ensures Hike(t, p) && |p| == k + 2
    {
      GrowMembers(t, paths, p);
      var i :| 0 <= i < |paths| && p in Extend(t, paths[i]);
      ExtendSound(t, paths[i], k, p);
    }
  }

  /** Extending a trail of length k + 1 below height 9 gives trails of length k + 2. */
  lemma ExtendSound(t: Topology, q: seq<Node>, k: nat, p: seq<Node>)
    requires Rectangular(t) && k < 9 && Hike(t, q) && |q| == k + 1 && p in Extend(t, q)
    ensures Hike(t, p) && |p| == k + 2
  {
    HikeHeight(t, q, k);
    var ns := Onward(t, q);
    var j :| 0 <= j < |ns| && p == q + [ns[j]];
    OnwardClimbs(t, q, ns[j]);
    HikeSnoc(t, q, ns[j]);
  }

  /** An onward neighbour is on the map, carries its height, and climbs from the path's last node. */
  lemma OnwardClimbs(t: Topology, q: seq<Node>, n: Node)
    requires Rectangular(t) && |q| > 0 && n in Onward(t, q)
    ensures InGrid(t, n.0, n.1) && n.2 == t[n.0][n.1] && Climbs(q[|q| - 1], n)
  {
    assert n in Neighbours(t, q[|q| - 1].0, q[|q| - 1].1);
  }

  /** A trail followed by a node that climbs from its last node is a trail. */
  lemma HikeSnoc(t: Topology, q: seq<Node>, n: Node)
    requires Rectangular(t) && Hike(t, q)
    requires InGrid(t, n.0, n.1) && n.2 == t[n.0][n.1] && Climbs(q[|q| - 1], n)
    ensures Hike(t, q + [n])
  {
    var p := q + [n];
    forall m | 0 <= m < |p|
      ensures InGrid(t, p[m].0, p[m].1) && p[m].2 == t[p[m].0][p[m].1]
    {
      if m < |q| {
        assert p[m] == q[m];
      }
    }
    forall m | 0 <= m < |p| - 1
      ensures Climbs(p[m], p[m + 1])
    {
      if m < |q| - 1 {
        assert Climbs(q[m], q[m + 1]);
      }
    }
  }

  lemma GrowComplete(t: Topology, paths: seq<seq<Node>>, k: nat)
    requires Rectangular(t) && k < 9
    requires forall p :: Hike(t, p) && |p| == k + 1 ==> p in paths
    ensures forall p :: Hike(t, p) && |p| == k + 2 ==> p in Grow(t, paths)
  {
    forall p | Hike(t, p) && |p| == k + 2
      ensures p in Grow(t, paths)
    {
      HikePrefix(t, p, k + 1);
      var q := p[..k + 1];
      var i :| 0 <= i < |paths| && paths[i] == q;
      ExtendsPrefix(t, p, k);
      GrowMembers(t, paths, p);
    }
  }

  /** A trail of length k + 2 is one of the extensions of its first k + 1 nodes. */
  lemma ExtendsPrefix(t: Topology, p: seq<Node>, k: nat)
    requires Rectangular(t) && k < 9 && Hike(t, p) && |p| == k + 2
    ensures p in Extend(t, p[..k + 1])
  {
    HikePrefix(t, p, k + 1);
    var q := p[..k + 1];
    var n := p[k + 1];
    HikeHeight(t, p, k);
    assert Climbs(p[k], p[k + 1]);
    assert n in Neighbours(t, q[k].0, q[k].1);
    assert n !in q by {
      if n in q {
        var m :| 0 <= m < |q| && q[m] == n;
        HikeHeight(t, p, m);
      }
    }
    assert p == q + [n];
    var ns := Onward(t, q);
    var j :| 0 <= j < |ns| && ns[j] == n;
    assert p == Extend(t, q)[j];
  }

  lemma GrowDistinct(t: Topology, paths: seq<seq<Node>>, k: nat)
    requires Rectangular(t) && k < 9
    requires forall p :: p in paths ==> Hike(t, p) && |p| == k + 1
    requires Distinct(paths)
    ensures Distinct(Grow(t, paths))
  {
    var f := p => Extend(t, p);
    forall i | 0 <= i < |paths|
      ensures Distinct(f(paths[i]))
    {
      ExtendDistinct(t, paths[i], k);
    }
    forall i, j, y | 0 <= i < j < |paths| && y in f(paths[i])
      ensures y !in f(paths[j])
    {
      assert y[..k + 1] == paths[i] != paths[j];
    }
    FlatMapDistinct(f, paths);
  }

  lemma ExtendDistinct(t: Topology, q: seq<Node>, k: nat)
    requires Rectangular(t) && k < 9 && Hike(t, q) && |q| == k + 1
    ensures Distinct(Extend(t, q))
  {
    HikeHeight(t, q, k);
    var b := Extend(t, q);
    var ns := Onward(t, q);
    forall i, j | 0 <= i < j < |b|
      ensures b[i] != b[j]
    {
      assert b[i][k + 1] == ns[i] && b[j][k + 1] == ns[j];
    }
  }

  lemma ConcatDistinct<T>(a: seq<T>, b: seq<T>)
    requires Distinct(a) && Distinct(b) && forall x :: x in a ==> x !in b
    ensures Distinct(a + b)
  {
    forall i, j | 0 <= i < j < |a + b|
      ensures (a + b)[i] != (a + b)[j]
    {
      if i < |a| && j >= |a| {
        assert (a + b)[i] in a && (a + b)[j] == b[j - |a|];
      }
    }
  }

  /** Every path has been extended to height 9. */
  predicate AllFinished(paths: seq<seq<Node>>)
  {
    forall i :: 0 <= i < |paths| ==> |paths[i]| > 0 && paths[i][|paths[i]| - 1].2 == 9
  }

  /** find_paths(): extends the paths round by round until all of them reach height 9; the result is every trail, once. */
  method FindPaths(t: Topology) returns (paths: seq<seq<Node>>)
    requires Rectangular(t)
    ensures forall p :: p in paths <==> Hike(t, p) && |p| == 10
    ensures Distinct(paths)
  {
    var heads := Trailheads(t);
    paths := seq(|heads|, i requires 0 <= i < |heads| => [(heads[i].0, heads[i].1, 0)]);
    StartsAreHikes(t, heads, paths);
    ghost var k: nat := 0;
    while !AllFinished(paths)
      invariant k <= 9 && AllHikes(t, paths, k)
      decreases 9 - k
    {
      UnfinishedBelowNine(t, paths, k);
      GrowClimbs(t, paths, k);
      paths := Round(t, paths);
      k := k + 1;
    }
    FinishedAreTrails(t, paths, k);
  }

  /** One iteration of the search loop: every path is kept, extended or dropped. */
  method Round(t: Topology, paths: seq<seq<Node>>) returns (newPaths: seq<seq<Node>>)
    requires Rectangular(t)
    ensures newPaths == Grow(t, paths)
  {
    newPaths := [];
    for i := 0 to |paths|
      invariant newPaths == Grow(t, paths[..i])
    {
      var path := paths[i];
      GrowSnoc(t, paths, i);
      if |path| > 0 {
        if path[|path| - 1].2 == 9 {
          newPaths := newPaths + [path];
        } else {
          var onward := Onward(t, path);
          newPaths := PushOnward(newPaths, path, onward);
        }
      }
    }
    assert paths[..|paths|] == paths;
  }

  /** The inner loop of a round: one new path per onward neighbour, in order. */
  method PushOnward(newPaths: seq<seq<Node>>, path: seq<Node>, onward: seq<Node>) returns (r: seq<seq<Node>>)
    ensures r == newPaths + Appended(path, onward)
  {
    r := newPaths;
    for j := 0 to |onward|
      invariant r == newPaths + Appended(path, onward[..j])
    {
      r := r + [path + [onward[j]]];
    }
    assert onward[..|onward|] == onward;
  }

  lemma GrowSnoc(t: Topology, paths: seq<seq<Node>>, i: nat)
    requires Rectangular(t) && i < |paths|
    ensures Grow(t, paths[..i + 1]) == Grow(t, paths[..i]) + Extend(t, paths[i])
  {
    assert paths[..i + 1][..i] == paths[..i];
  }

  /** While some path is unfinished, fewer than nine rounds have run. */
  lemma UnfinishedBelowNine(t: Topology, paths: seq<seq<Node>>, k: nat)
    requires Rectangular(t) && k <= 9 && AllHikes(t, paths, k) && !AllFinished(paths)
    ensures k < 9
  {
    var i :| 0 <= i < |paths| && !(|paths[i]| > 0 && paths[i][|paths[i]| - 1].2 == 9);
    assert paths[i] in paths;
    HikeHeight(t, paths[i], k);
  }

  /** Once every path is finished, the paths are exactly the trails of length 10. */
  lemma FinishedAreTrails(t: Topology, paths: seq<seq<Node>>, k: nat)
    requires Rectangular(t) && k <= 9 && AllHikes(t, paths, k) && AllFinished(paths)
    ensures forall p :: p in paths <==> Hike(t, p) && |p| == 10
  {
    forall p | Hike(t, p) && |p| == 10
      ensures p in paths
    {
      HikePrefix(t, p, k + 1);
      var q := p[..k + 1];
      assert q in paths;
      var i := IndexOf(paths, q);
      HikeHeight(t, q, k);
      HikeHeight(t, p, k);
      assert k == 9;
      assert p == q;
    }
    forall p | p in paths
      ensures |p| == 10
    {
      var i := IndexOf(paths, p);
      HikeHeight(t, p, k);
    }
  }

  function IndexOf<T(==)>(s: seq<T>, x: T): (i: nat)
    requires x in s
    ensures i < |s| && s[i] == x
  {
    if s[0] == x then 0 else 1 + IndexOf(s[1..], x)
  }

  /** The start paths, one per trailhead, are exactly the trails of length 1. */
  lemma StartsAreHikes(t: Topology, heads: seq<(nat, nat)>, paths: seq<seq<Node>>)
    requires Rectangular(t)
    requires forall r: nat, c: nat :: (r, c) in heads <==> InGrid(t, r, c) && t[r][c] == 0
    requires RowMajorIncreasing(heads)
    requires |paths| == |heads| && forall i :: 0 <= i < |heads| ==> paths[i] == [(heads[i].0, heads[i].1, 0)]
    ensures AllHikes(t, paths, 0)
  {
    forall p | p in paths
      ensures Hike(t, p) && |p| == 1
    {
      var i := IndexOf(paths, p);
      assert heads[i] in heads;
    }
    forall p: seq<Node> | Hike(t, p) && |p| == 1
      ensures p in paths
    {
      var i := IndexOf(heads, (p[0].0, p[0].1));
      assert p == [p[0]] == paths[i];
    }
    forall i, j | 0 <= i < j < |paths|
      ensures paths[i] != paths[j]
    {
      assert paths[i][0] != paths[j][0];
    }
  }

  function Last(p: seq<Node>): Node
    requires |p| > 0
  {
    p[|p| - 1]
  }

  /** The summits reached by the paths that start at start. */
  function Summits(paths: seq<seq<Node>>, start: Node): set<Node>
  {
    set p | p in paths && |p| > 0 && p[0] == start :: Last(p)
  }

  /** The (start, summit) pairs of the paths that start in starts. */
  function Ends(paths: seq<seq<Node>>, starts: set<Node>): set<(Node, Node)>
  {
    set p | p in paths && |p| > 0 && p[0] in starts :: (p[0], Last(p))
  }

  /** One more start adds its summits, paired with it. */
  lemma EndsAdd(paths: seq<seq<Node>>, starts: set<Node>, s: Node)
    requires s !in starts
    ensures |Ends(paths, starts + {s})| == |Ends(paths, starts)| + |Summits(paths, s)|
  {
    var pairs := set x | x in Summits(paths, s) :: (s, x);
    assert Ends(paths, starts + {s}) == Ends(paths, starts) + pairs;
    assert Ends(paths, starts) !! pairs;
    PairedCard(s, Summits(paths, s));
  }

  lemma {:induction false} PairedCard(s: Node, xs: set<Node>)
    ensures |set x | x in xs :: (s, x)| == |xs|
    decreases |xs|
  {
    if xs != {} {
      var y :| y in xs;
      PairedCard(s, xs - {y});
      assert (set x | x in xs :: (s, x)) == (set x | x in xs - {y} :: (s, x)) + {(s, y)};
    }
  }

  /** Part one: per trailhead, the number of distinct summits its trails reach, summed; that is, the number of (trailhead, summit) pairs joined by a trail. */
  method First(t: Topology) returns (score: nat, pairs: set<(Node, Node)>)
    requires Rectangular(t)
    ensures forall a, b :: (a, b) in pairs <==> exists p :: Hike(t, p) && |p| == 10 && p[0] == a && p[9] == b
    ensures score == |pairs|
  {
    var paths := FindPaths(t);
    var starts := set p | p in paths && |p| > 0 :: p[0];
    pairs := Ends(paths, starts);
    score := CountSummits(paths, starts);
    EndsAreTrailEnds(t, paths, starts);
  }

  /** The sum over the start groups of the number of distinct summits each reaches. */
  method CountSummits(paths: seq<seq<Node>>, starts: set<Node>) returns (score: nat)
    ensures score == |Ends(paths, starts)|
  {
    var remaining := starts;
    score := 0;
    assert Ends(paths, {}) == {};
    while remaining != {}
      invariant remaining <= starts
      invariant score == |Ends(paths, starts - remaining)|
      decreases |remaining|
    {
      var s :| s in remaining;
      EndsAdd(paths, starts - remaining, s);
      assert starts - remaining + {s} == starts - (remaining - {s});
      score := score + |Summits(paths, s)|;
      remaining := remaining - {s};
    }
    assert starts - remaining == starts;
  }

  /** The (start, summit) pairs of all the trails. */
  lemma EndsAreTrailEnds(t: Topology, paths: seq<seq<Node>>, starts: set<Node>)
    requires Rectangular(t)
    requires forall p :: p in paths <==> Hike(t, p) && |p| == 10
    requires starts == set p | p in paths && |p| > 0 :: p[0]
    ensures forall a, b :: (a, b) in Ends(paths, starts) <==> exists p :: Hike(t, p) && |p| == 10 && p[0] == a && p[9] == b
  {
    forall a, b | (a, b) in Ends(paths, starts)
      ensures exists p :: Hike(t, p) && |p| == 10 && p[0] == a && p[9] == b
    {
      var p :| p in paths && |p| > 0 && p[0] in starts && (a, b) == (p[0], Last(p));
      assert Hike(t, p) && |p| == 10;
    }
    forall a, b | exists p :: Hike(t, p) && |p| == 10 && p[0] == a && p[9] == b
      ensures (a, b) in Ends(paths, starts)
    {
      var p :| Hike(t, p) && |p| == 10 && p[0] == a && p[9] == b;
      assert p in paths && p[0] in starts && (a, b) == (p[0], Last(p));
    }
  }

  /** Part two: the number of trails. */
  method Second(t: Topology) returns (score: nat, hikes: set<seq<Node>>)
    requires Rectangular(t)
    ensures forall p :: p in hikes <==> Hike(t, p) && |p| == 10
    ensures score == |hikes|
  {
    var paths := FindPaths(t);
    score := |paths|;
    hikes := set p | p in paths;
    DistinctCard(paths);
  }

  lemma {:induction false} DistinctCard<T>(s: seq<T>)
    requires Distinct(s)
    ensures |set x | x in s| == |s|
  {
    if |s| > 0 {
      var front := s[..|s| - 1];
      assert Distinct(front);
      DistinctCard(front);
      assert (set x | x in s) == (set x | x in front) + {s[|s| - 1]};
      assert s[|s| - 1] !in front;
    }
  }
}
