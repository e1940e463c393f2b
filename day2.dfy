// Red-nosed reports: a level is safe when it is strictly monotone with
// steps of 1 to 3; the problem dampener also accepts a level that becomes
// safe once a single element is removed.
module Day2 {

  function Abs(x: int): int { if x < 0 then -x else x }

  /** The difference between the levels at positions i and i + 1. */
  function Diff(level: seq<int>, i: nat): int
    requires i + 1 < |level|
  {
    level[i + 1] - level[i]
  }

  /** The specification of a safe level: every step has size 1 to 3 and all steps go the same way. */
  predicate SafeSpec(level: seq<int>)
  {
    (forall i :: 0 <= i < |level| - 1 ==> 1 <= Abs(Diff(level, i)) <= 3) &&
    (forall i :: 0 <= i < |level| - 1 ==> (Diff(level, i) > 0) == (Diff(level, 0) > 0))
  }

  /** The check as the source performs it: one pass over the windows with early returns. */
  method IsSafe(level: seq<int>) returns (safe: bool)
    ensures safe == SafeSpec(level)
  {
    var isIncreasing := false;
    if |level| < 2 {
      return true;
    }
    for idx := 0 to |level| - 1
      invariant idx > 0 ==> isIncreasing == (Diff(level, 0) > 0)
      invariant forall i :: 0 <= i < idx ==> 1 <= Abs(Diff(level, i)) <= 3
      invariant forall i :: 0 <= i < idx ==> (Diff(level, i) > 0) == (Diff(level, 0) > 0)
    {
      var diff := level[idx + 1] - level[idx];
      if !(1 <= Abs(diff) <= 3) {
        assert !(1 <= Abs(Diff(level, idx)) <= 3);
        return false;
      }
      if idx == 0 {
        isIncreasing := diff > 0;
      } else {
        var isIncreasingNew := diff > 0;
        if isIncreasing != isIncreasingNew {
          assert (Diff(level, idx) > 0) != (Diff(level, 0) > 0);
          return false;
        }
      }
    }
    return true;
  }

  /** Levels with fewer than two entries have no step, so they are safe. */
  lemma ShortLevelIsSafe(level: seq<int>)
    requires |level| <= 1
    ensures SafeSpec(level)
  {
  }

  predicate StrictlyIncreasing(s: seq<int>)
  {
    forall i, j :: 0 <= i < j < |s| ==> s[i] < s[j]
  }

  predicate StrictlyDecreasing(s: seq<int>)
  {
    forall i, j :: 0 <= i < j < |s| ==> s[i] > s[j]
  }

  /** A safe level is strictly monotone. */
  lemma {:induction false} SafeIsStrictlyMonotone(level: seq<int>)
    requires SafeSpec(level)
    ensures StrictlyIncreasing(level) || StrictlyDecreasing(level)
  {
    if |level| >= 2 {
      if Diff(level, 0) > 0 {
        forall i, j | 0 <= i < j < |level| ensures level[i] < level[j] {
          StepsAdd(level, i, j, true);
        }
      } else {
        forall i, j | 0 <= i < j < |level| ensures level[i] > level[j] {
          StepsAdd(level, i, j, false);
        }
      }
    }
  }

  lemma {:induction false} StepsAdd(level: seq<int>, i: nat, j: nat, up: bool)
    requires SafeSpec(level) && i < j < |level| && (Diff(level, 0) > 0) == up
    ensures up ==> level[i] < level[j]
    ensures !up ==> level[i] > level[j]
    decreases j - i
  {
    assert 1 <= Abs(Diff(level, j - 1)) <= 3;
    if i < j - 1 {
      StepsAdd(level, i, j - 1, up);
    }
  }

  /** The level with the element at idx removed. */
  function Remove(level: seq<int>, idx: nat): (r: seq<int>)
    requires idx < |level|
    ensures |r| == |level| - 1
    ensures forall k :: 0 <= k < idx ==> r[k] == level[k]
    ensures forall k :: idx <= k < |r| ==> r[k] == level[k + 1]
  {
    level[..idx] + level[idx + 1..]
  }

  /** A level the problem dampener tolerates. */
  predicate DampenedSafe(level: seq<int>)
  {
    SafeSpec(level) || exists idx :: 0 <= idx < |level| && SafeSpec(Remove(level, idx))
  }

  function CountSafe(levels: seq<seq<int>>): (n: nat)
    decreases |levels|
  {
    if levels == [] then 0
    else CountSafe(levels[..|levels| - 1]) + (if SafeSpec(levels[|levels| - 1]) then 1 else 0)
  }

  function CountDampened(levels: seq<seq<int>>): (n: nat)
    decreases |levels|
  {
    if levels == [] then 0
    else CountDampened(levels[..|levels| - 1]) + (if DampenedSafe(levels[|levels| - 1]) then 1 else 0)
  }

  /** Part one: the number of safe levels. */
  method First(levels: seq<seq<int>>) returns (safeLevels: nat)
    ensures safeLevels == CountSafe(levels)
  {
    safeLevels := 0;
    for k := 0 to |levels|
      invariant safeLevels == CountSafe(levels[..k])
    {
      assert levels[..k + 1][..k] == levels[..k];
      var ok := IsSafe(levels[k]);
      if ok {
        safeLevels := safeLevels + 1;
      }
    }
    assert levels[..|levels|] == levels;
  }

  /** Part two: a safe level counts once; otherwise each single removal is retried until one is safe. */
  method Second(levels: seq<seq<int>>) returns (safeLevels: nat)
    ensures safeLevels == CountDampened(levels)
  {
    safeLevels := 0;
    for k := 0 to |levels|
      invariant safeLevels == CountDampened(levels[..k])
    {
      assert levels[..k + 1][..k] == levels[..k];
      var level := levels[k];
      var ok := IsSafe(level);
      if ok {
        safeLevels := safeLevels + 1;
      } else {
        for idx := 0 to |level|
          invariant forall j :: 0 <= j < idx ==> !SafeSpec(Remove(level, j))
        {
          var newLevel := Remove(level, idx);
          var newOk := IsSafe(newLevel);
          if newOk {
            safeLevels := safeLevels + 1;
            break;
          }
        }
      }
    }
    assert levels[..|levels|] == levels;
  }

  /** Part one never exceeds part two, and part two never exceeds the number of levels. */
  lemma {:induction false} CountsOrdered(levels: seq<seq<int>>)
    ensures CountSafe(levels) <= CountDampened(levels) <= |levels|
    decreases |levels|
  {
    if levels != [] {
      CountsOrdered(levels[..|levels| - 1]);
    }
  }
}
