// Historian hysteria: the distance between two location lists (pair the
// lists up after sorting both) and their similarity score (each left
// number weighted by how often it occurs on the right).
module Day1 {

  function Abs(x: int): int { if x < 0 then -x else x }

  predicate Sorted(s: seq<int>)
  {
    forall i, j :: 0 <= i < j < |s| ==> s[i] <= s[j]
  }

  /** x placed into the ascending sequence s at its first position not below x. */
  function Insert(x: int, s: seq<int>): (r: seq<int>)
    ensures multiset(r) == multiset(s) + multiset{x}
    ensures |r| == |s| + 1
    decreases |s|
  {
    if s == [] then [x]
    else if x <= s[0] then [x] + s
    else
      assert s == [s[0]] + s[1..];
      [s[0]] + Insert(x, s[1..])
  }

  lemma {:induction false} InsertSorted(x: int, s: seq<int>)
    requires Sorted(s)
    ensures Sorted(Insert(x, s))
    decreases |s|
  {
    if s != [] && x > s[0] {
      var tail := Insert(x, s[1..]);
      InsertSorted(x, s[1..]);
      forall k | 0 <= k < |tail| ensures s[0] <= tail[k] {
        assert tail[k] in multiset(tail);
        assert tail[k] == x || tail[k] in multiset(s[1..]);
      }
    }
  }

  /** The ascending rearrangement of s, standing for the library's in-place sort. */
  function SortAscending(s: seq<int>): (r: seq<int>)
    ensures multiset(r) == multiset(s)
    decreases |s|
  {
    if s == [] then []
    else
      assert s == [s[0]] + s[1..];
      Insert(s[0], SortAscending(s[1..]))
  }

  lemma {:induction false} SortAscendingSorted(s: seq<int>)
    ensures Sorted(SortAscending(s))
    decreases |s|
  {
    if s != [] {
      SortAscendingSorted(s[1..]);
      InsertSorted(s[0], SortAscending(s[1..]));
    }
  }

  lemma SortedTail(a: seq<int>)
    requires Sorted(a) && a != []
    ensures Sorted(a[1..])
  {
  }

  lemma SortedHeadIsLeast(a: seq<int>, x: int)
    requires Sorted(a) && x in multiset(a)
    ensures a != [] && a[0] <= x
  {
    var i :| 0 <= i < |a| && a[i] == x;
  }

  /** Two ascending sequences with the same elements are equal, so sorting forgets the input order. */
  lemma {:induction false} SortedUnique(a: seq<int>, b: seq<int>)
    requires Sorted(a) && Sorted(b) && multiset(a) == multiset(b)
    ensures a == b
    decreases |a|
  {
    assert |a| == |multiset(a)| == |multiset(b)| == |b|;
    if a != [] {
      SameHead(a, b);
      TailMultiset(a);
      TailMultiset(b);
      SortedTail(a);
      SortedTail(b);
      SortedUnique(a[1..], b[1..]);
      assert a == [a[0]] + a[1..] && b == [b[0]] + b[1..];
    }
  }

  /** Two non-empty ascending sequences with the same elements start with the same, least, element. */
  lemma SameHead(a: seq<int>, b: seq<int>)
    requires Sorted(a) && Sorted(b) && multiset(a) == multiset(b) && a != [] && b != []
    ensures a[0] == b[0]
  {
    assert a[0] in multiset(a) && b[0] in multiset(b);
    SortedHeadIsLeast(b, a[0]);
    SortedHeadIsLeast(a, b[0]);
  }

  lemma TailMultiset(a: seq<int>)
    requires a != []
    ensures multiset(a[1..]) == multiset(a) - multiset{a[0]}
  {
    assert a == [a[0]] + a[1..];
    assert multiset(a) == multiset{a[0]} + multiset(a[1..]);
  }

  lemma SortDependsOnlyOnMultiset(a: seq<int>, b: seq<int>)
    requires multiset(a) == multiset(b)
    ensures SortAscending(a) == SortAscending(b)
  {
    SortAscendingSorted(a);
    SortAscendingSorted(b);
    SortedUnique(SortAscending(a), SortAscending(b));
  }

  /** The sum of |l - r| over the zipped pairs; zip stops at the shorter list. */
  function ZipDistance(left: seq<int>, right: seq<int>): (d: int)
    ensures left == right ==> d == 0
    decreases |left|
  {
    if left == [] || right == [] then 0
    else Abs(left[0] - right[0]) + ZipDistance(left[1..], right[1..])
  }

  lemma {:induction false} ZipDistanceNonNegative(left: seq<int>, right: seq<int>)
    ensures ZipDistance(left, right) >= 0
    decreases |left|
  {
    if left != [] && right != [] {
      ZipDistanceNonNegative(left[1..], right[1..]);
    }
  }

  /** Part one: the total distance between the two lists once both are sorted. */
  function TotalDistance(left: seq<int>, right: seq<int>): (d: int)
    ensures d >= 0
  {
    ZipDistanceNonNegative(SortAscending(left), SortAscending(right));
    ZipDistance(SortAscending(left), SortAscending(right))
  }

  /** The total distance is never negative and depends only on the two multisets of numbers. */
  lemma TotalDistanceProperties(left: seq<int>, right: seq<int>, left': seq<int>, right': seq<int>)
    requires multiset(left) == multiset(left') && multiset(right) == multiset(right')
    ensures TotalDistance(left, right) >= 0
    ensures TotalDistance(left, right) == TotalDistance(left', right')
    ensures multiset(left) == multiset(right) ==> TotalDistance(left, right) == 0
  {
    if multiset(left) == multiset(right) {
      SortDependsOnlyOnMultiset(left, right);
    }
    ZipDistanceNonNegative(SortAscending(left), SortAscending(right));
    SortDependsOnlyOnMultiset(left, left');
    SortDependsOnlyOnMultiset(right, right');
  }

  /** How often x occurs in s. */
  function Count(s: seq<int>, x: int): nat
  {
    multiset(s)[x]
  }

  /** The occurrence map: one key per distinct number, mapped to how often it occurs. */
  method Occurrences(numbers: seq<int>) returns (occurrences: map<int, int>)
    ensures occurrences.Keys == set x | x in numbers
    ensures forall x :: x in occurrences ==> occurrences[x] == Count(numbers, x)
  {
    occurrences := map[];
    for k := 0 to |numbers|
      invariant occurrences.Keys == set x | x in numbers[..k]
      invariant forall x :: x in occurrences ==> occurrences[x] == Count(numbers[..k], x)
    {
      assert numbers[..k + 1] == numbers[..k] + [numbers[k]];
      var n := numbers[k];
      var old_count := if n in occurrences then occurrences[n] else 0;
      occurrences := occurrences[n := old_count + 1];
    }
    assert numbers[..|numbers|] == numbers;
  }

  /**
   * The similarity as the source forms it: a sum over the distinct left
   * numbers, in whatever order the occurrence map yields them, of
   * number * left count * right count (a missing right count is 0).
   */
  function SimilarityOver(keys: seq<int>, leftCounts: map<int, int>, rightCounts: map<int, int>): int
    requires forall k :: k in keys ==> k in leftCounts
    decreases |keys|
  {
    if keys == [] then 0
    else
      var n := keys[0];
      var rightCount := if n in rightCounts then rightCounts[n] else 0;
      Term(n, leftCounts[n], rightCount) + SimilarityOver(keys[1..], leftCounts, rightCounts)
  }

  /** One summand of the similarity: a number, its left count and its right count multiplied. */
  function Term(n: int, leftCount: int, rightCount: int): int
  {
    n * leftCount * rightCount
  }

  lemma TermStep(n: int, leftCount: int, rightCount: int)
    ensures Term(n, leftCount + 1, rightCount) == Term(n, leftCount, rightCount) + n * rightCount
  {
  }

  /** The similarity summed element by element: each left number times its right count. */
  function ElementSimilarity(left: seq<int>, right: seq<int>): int
    decreases |left|
  {
    if left == [] then 0 else left[0] * Count(right, left[0]) + ElementSimilarity(left[1..], right)
  }

  /** left with every copy of x removed. */
  function Without(s: seq<int>, x: int): (r: seq<int>)
    ensures forall y :: y != x ==> Count(r, y) == Count(s, y)
    ensures x !in r
    ensures forall y :: y in r <==> y in s && y != x
    decreases |s|
  {
    if s == [] then []
    else
      assert s == [s[0]] + s[1..];
      if s[0] == x then Without(s[1..], x)
      else
        var t := Without(s[1..], x);
        assert [s[0]] + t == [s[0]] + t;
        [s[0]] + t
  }

  lemma {:induction false} ElementSimilaritySplit(left: seq<int>, right: seq<int>, x: int)
    ensures ElementSimilarity(left, right) ==
            Term(x, Count(left, x), Count(right, x)) + ElementSimilarity(Without(left, x), right)
    decreases |left|
  {
    if left != [] {
      var h, t := left[0], left[1..];
      assert left == [h] + t;
      assert multiset(left) == multiset{h} + multiset(t);
      var cr := Count(right, x);
      var ct := Count(t, x);
      ElementSimilaritySplit(t, right, x);
      if h == x {
        assert Count(left, x) == ct + 1;
        assert Without(left, x) == Without(t, x);
        TermStep(x, ct, cr);
      } else {
        assert Count(left, x) == ct;
        assert Without(left, x) == [h] + Without(t, x);
        assert Without(left, x)[1..] == Without(t, x);
      }
    }
  }

  /**
   * Whatever order the distinct left numbers are visited in, the source's
   * sum equals the element-by-element sum.
   */
  lemma {:induction false} SimilarityIsElementwise(keys: seq<int>, left: seq<int>, right: seq<int>,
                                                   leftCounts: map<int, int>, rightCounts: map<int, int>)
    requires Tallied(keys, left, right, leftCounts, rightCounts)
    ensures SimilarityOver(keys, leftCounts, rightCounts) == ElementSimilarity(left, right)
    decreases |keys|
  {
    if keys != [] {
      var n := keys[0];
      var rest := Without(left, n);
      ElementSimilaritySplit(left, right, n);
      DropKey(keys, left, right, leftCounts, rightCounts);
      SimilarityIsElementwise(keys[1..], rest, right, CountsOf(rest), rightCounts);
      SimilarityOverAgree(keys[1..], leftCounts, CountsOf(rest), rightCounts);
    } else {
      NoKeysNoLeft(keys, left);
    }
  }

  /**
   * The keys list each distinct left number once, and the two maps hold the
   * number of occurrences of each left and each right number.
   */
  ghost predicate Tallied(keys: seq<int>, left: seq<int>, right: seq<int>,
                          leftCounts: map<int, int>, rightCounts: map<int, int>)
  {
    (forall i, j :: 0 <= i < j < |keys| ==> keys[i] != keys[j]) &&
    (forall x :: x in keys <==> x in left) &&
    leftCounts.Keys == (set x | x in left) && rightCounts.Keys == (set x | x in right) &&
    (forall x :: x in leftCounts ==> leftCounts[x] == Count(left, x)) &&
    (forall x :: x in rightCounts ==> rightCounts[x] == Count(right, x))
  }

  /** The occurrence map of a list, as a value. */
  ghost function CountsOf(s: seq<int>): map<int, int>
  {
    map x | x in s :: Count(s, x)
  }

  /** Every left number is a key, so no keys means no left numbers. */
  lemma NoKeysNoLeft(keys: seq<int>, left: seq<int>)
    requires forall x :: x in keys <==> x in left
    ensures |keys| == 0 ==> |left| == 0
  {
    if |left| > 0 {
      var x := left[0];
      assert x in left;
      assert x in keys;
    }
  }

  /**
   * After the first key, the remaining keys are exactly the distinct numbers
   * left once it is removed, with the same counts; the first key's term is
   * its left count times its right count.
   */
  lemma DropKey(keys: seq<int>, left: seq<int>, right: seq<int>, leftCounts: map<int, int>, rightCounts: map<int, int>)
    requires keys != []
    requires Tallied(keys, left, right, leftCounts, rightCounts)
    ensures Tallied(keys[1..], Without(left, keys[0]), right, CountsOf(Without(left, keys[0])), rightCounts)
    ensures forall x :: x in keys[1..] ==> x in leftCounts && leftCounts[x] == CountsOf(Without(left, keys[0]))[x]
    ensures keys[0] in leftCounts && leftCounts[keys[0]] == Count(left, keys[0])
    ensures (if keys[0] in rightCounts then rightCounts[keys[0]] else 0) == Count(right, keys[0])
  {
    var n := keys[0];
    forall x | x in keys[1..] ensures x in keys && x != n {
      var i :| 0 <= i < |keys[1..]| && keys[1..][i] == x;
      assert keys[i + 1] == x;
    }
    forall i, j | 0 <= i < j < |keys[1..]| ensures keys[1..][i] != keys[1..][j] {
      assert keys[1..][i] == keys[i + 1] && keys[1..][j] == keys[j + 1];
    }
    forall x | x in Without(left, n) ensures x in keys[1..] {
      assert x in keys && x != keys[0];
    }
    assert n in left;
    RightCount(n, right, rightCounts);
  }

  /** The source's right count for n, with zero for a missing key, is n's count on the right. */
  lemma RightCount(n: int, right: seq<int>, rightCounts: map<int, int>)
    requires rightCounts.Keys == (set x | x in right)
    requires forall x :: x in rightCounts ==> rightCounts[x] == Count(right, x)
    ensures (if n in rightCounts then rightCounts[n] else 0) == Count(right, n)
  {
    if n !in rightCounts {
      assert n !in right;
    }
  }

  lemma {:induction false} SimilarityOverAgree(keys: seq<int>, a: map<int, int>, b: map<int, int>, rightCounts: map<int, int>)
    requires forall k :: k in keys ==> k in a && k in b && a[k] == b[k]
    ensures SimilarityOver(keys, a, rightCounts) == SimilarityOver(keys, b, rightCounts)
    decreases |keys|
  {
    if keys != [] {
      SimilarityOverAgree(keys[1..], a, b, rightCounts);
    }
  }

  /**
   * Part two: the sum over the entries of the left occurrence map, taken in
   * an unspecified order, of number * left count * right count.
   */
  method Second(left: seq<int>, right: seq<int>) returns (sum: int)
    ensures sum == ElementSimilarity(left, right)
  {
    var leftCounts := Occurrences(left);
    var rightCounts := Occurrences(right);
    sum := 0;
    var remaining := leftCounts.Keys;
    ghost var seen: seq<int> := [];
    while remaining != {}
      invariant remaining <= leftCounts.Keys
      invariant forall x :: x in seen <==> x in leftCounts && x !in remaining
      invariant forall i, j :: 0 <= i < j < |seen| ==> seen[i] != seen[j]
      invariant sum == SimilarityOver(seen, leftCounts, rightCounts)
      decreases |remaining|
    {
      var n := PickAny(remaining);
      var rightCount := if n in rightCounts then rightCounts[n] else 0;
      sum := Term(n, leftCounts[n], rightCount) + sum;
      seen := [n] + seen;
      remaining := remaining - {n};
    }
    SimilarityIsElementwise(seen, left, right, leftCounts, rightCounts);
  }

  /** Some element of a non-empty set, standing for the unspecified order of a hash map. */
  method PickAny(s: set<int>) returns (x: int)
    requires s != {}
    ensures x in s
  {
    var tagged := set y | y in s :: (y, 0);
    assert tagged != {} by {
      if tagged == {} {
        assert forall y :: y in s ==> (y, 0) in tagged;
      }
    }
    var p :| p in tagged;
    x := p.0;
  }
}
