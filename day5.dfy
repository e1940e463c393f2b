// Print queue: an update is safe when no ordering rule says a page must
// come on the other side of one where it stands; unsafe updates are
// reordered with a comparator built from the rules.
module Day5 {

  /** The rule left|right: page left must be printed before page right. */
  datatype OrderingRule = OrderingRule(left: int, right: int)

  datatype Ordering = Less | Equal | Greater

  /**
   * The position idx of update breaks a rule: an earlier page b with a rule
   * value|b, or a page a at idx or later (the page itself included) with a
   * rule a|value.
   */
  predicate ViolatedAt(rules: seq<OrderingRule>, update: seq<int>, idx: nat)
    requires idx < |update|
  {
    (exists b :: 0 <= b < idx && OrderingRule(update[idx], update[b]) in rules) ||
    (exists a :: idx <= a < |update| && OrderingRule(update[a], update[idx]) in rules)
  }

  predicate SafeSpec(rules: seq<OrderingRule>, update: seq<int>)
  {
    forall idx :: 0 <= idx < |update| ==> !ViolatedAt(rules, update, idx)
  }

  /** The pages that must come after value, and those that must come before it. */
  method PagesAround(rules: seq<OrderingRule>, value: int) returns (pagesBefore: set<int>, pagesAfter: set<int>)
    ensures forall x :: x in pagesAfter <==> OrderingRule(value, x) in rules
    ensures forall x :: x in pagesBefore <==> OrderingRule(x, value) in rules
  {
    pagesBefore, pagesAfter := {}, {};
    for k := 0 to |rules|
      invariant forall x :: x in pagesAfter <==> OrderingRule(value, x) in rules[..k]
      invariant forall x :: x in pagesBefore <==> OrderingRule(x, value) in rules[..k]
    {
      assert rules[..k + 1] == rules[..k] + [rules[k]];
      var rule := rules[k];
      if rule.left == value {
        pagesAfter := pagesAfter + {rule.right};
      }
      if rule.right == value {
        pagesBefore := pagesBefore + {rule.left};
      }
    }
    assert rules[..|rules|] == rules;
  }

  /** The check as the source performs it, position by position with an early return. */
  method IsSafeUpdate(rules: seq<OrderingRule>, update: seq<int>) returns (safe: bool)
    ensures safe == SafeSpec(rules, update)
  {
    for idx := 0 to |update|
      invariant forall j :: 0 <= j < idx ==> !ViolatedAt(rules, update, j)
    {
      var value := update[idx];
      var pagesBefore, pagesAfter := PagesAround(rules, value);
      var beforeSafe := forall b :: 0 <= b < idx ==> update[b] !in pagesAfter;
      var afterSafe := forall a :: idx <= a < |update| ==> update[a] !in pagesBefore;
      if !beforeSafe || !afterSafe {
        assert ViolatedAt(rules, update, idx);
        return false;
      }
    }
    return true;
  }

  /** An update with no pages breaks no rule. */
  lemma EmptyUpdateIsSafe(rules: seq<OrderingRule>)
    ensures SafeSpec(rules, [])
  {
  }

  /** A rule p|p for a page of the update makes it unsafe, since a page counts as standing after itself. */
  lemma SelfRuleIsUnsafe(rules: seq<OrderingRule>, update: seq<int>, idx: nat)
    requires idx < |update| && OrderingRule(update[idx], update[idx]) in rules
    ensures !SafeSpec(rules, update)
  {
    assert ViolatedAt(rules, update, idx);
  }

  /** The updates whose safety is wanted, in input order. */
  function FilterSafe(rules: seq<OrderingRule>, updates: seq<seq<int>>, wanted: bool): (r: seq<seq<int>>)
    ensures |r| <= |updates|
    ensures forall k :: 0 <= k < |r| ==> SafeSpec(rules, r[k]) == wanted
    decreases |updates|
  {
    if updates == [] then []
    else
      var rest := FilterSafe(rules, updates[..|updates| - 1], wanted);
      if SafeSpec(rules, updates[|updates| - 1]) == wanted then rest + [updates[|updates| - 1]] else rest
  }

  /** The updates split into the safe and the unsafe ones, each list in input order. */
  method PartitionUpdates(rules: seq<OrderingRule>, updates: seq<seq<int>>)
    returns (safe: seq<seq<int>>, notSafe: seq<seq<int>>)
    ensures safe == FilterSafe(rules, updates, true)
    ensures notSafe == FilterSafe(rules, updates, false)
  {
    safe, notSafe := [], [];
    for k := 0 to |updates|
      invariant safe == FilterSafe(rules, updates[..k], true)
      invariant notSafe == FilterSafe(rules, updates[..k], false)
    {
      assert updates[..k + 1][..k] == updates[..k];
      var ok := IsSafeUpdate(rules, updates[k]);
      if ok {
        safe := safe + [updates[k]];
      } else {
        notSafe := notSafe + [updates[k]];
      }
    }
    assert updates[..|updates|] == updates;
  }

  /** Every update lands in exactly one of the two lists, and each list holds only its kind. */
  lemma {:induction false} PartitionIsExact(rules: seq<OrderingRule>, updates: seq<seq<int>>)
    ensures multiset(FilterSafe(rules, updates, true)) + multiset(FilterSafe(rules, updates, false)) == multiset(updates)
    ensures forall u :: u in FilterSafe(rules, updates, true) ==> u in updates && SafeSpec(rules, u)
    ensures forall u :: u in FilterSafe(rules, updates, false) ==> u in updates && !SafeSpec(rules, u)
    decreases |updates|
  {
    if updates != [] {
      var prefix := updates[..|updates| - 1];
      PartitionIsExact(rules, prefix);
      assert updates == prefix + [updates[|updates| - 1]];
    }
  }

  /** The sum of the middle page of every update. */
  function SumMiddleValue(updates: seq<seq<int>>): (r: int)
    requires forall k :: 0 <= k < |updates| ==> |updates[k]| > 0
    ensures (forall k, j :: 0 <= k < |updates| && 0 <= j < |updates[k]| ==> updates[k][j] >= 0) ==> r >= 0
    decreases |updates|
  {
    if updates == [] then 0
    else
      var last := updates[|updates| - 1];
      SumMiddleValue(updates[..|updates| - 1]) + last[|last| / 2]
  }

  lemma {:induction false} SumMiddleValueAppend(a: seq<seq<int>>, b: seq<seq<int>>)
    requires forall k :: 0 <= k < |a| ==> |a[k]| > 0
    requires forall k :: 0 <= k < |b| ==> |b[k]| > 0
    ensures forall k :: 0 <= k < |a + b| ==> |(a + b)[k]| > 0
    ensures SumMiddleValue(a + b) == SumMiddleValue(a) + SumMiddleValue(b)
    decreases |b|
  {
    if b != [] {
      var n := |b| - 1;
      assert (a + b)[..|a + b| - 1] == a + b[..n];
      SumMiddleValueAppend(a, b[..n]);
    } else {
      assert a + b == a;
    }
  }

  /**
   * The comparator of part two: Greater when a rule says b|a, otherwise Less
   * when a rule says a|b, otherwise Equal.
   */
  function Compare(rules: seq<OrderingRule>, a: int, b: int): (o: Ordering)
    ensures o == Greater <==> OrderingRule(b, a) in rules
    ensures o == Less <==> OrderingRule(b, a) !in rules && OrderingRule(a, b) in rules
  {
    if OrderingRule(b, a) in rules then Greater
    else if OrderingRule(a, b) in rules then Less
    else Equal
  }

  /** When the rules never order a pair both ways, the comparator is antisymmetric. */
  lemma CompareAntisymmetric(rules: seq<OrderingRule>, a: int, b: int)
    requires !(OrderingRule(a, b) in rules && OrderingRule(b, a) in rules)
    ensures Compare(rules, a, b) == Greater <==> Compare(rules, b, a) == Less
    ensures Compare(rules, a, b) == Equal <==> Compare(rules, b, a) == Equal
  {
  }

  /** x inserted before the first element that does not compare Less than it. */
  function InsertBy(rules: seq<OrderingRule>, x: int, s: seq<int>): (r: seq<int>)
    ensures multiset(r) == multiset(s) + multiset{x}
    decreases |s|
  {
    if s == [] then [x]
    else if Compare(rules, s[0], x) != Less then [x] + s
    else
      assert s == [s[0]] + s[1..];
      [s[0]] + InsertBy(rules, x, s[1..])
  }

  /** An insertion sort by the rule comparator, standing for the library's sort. */
  function SortByRules(rules: seq<OrderingRule>, update: seq<int>): (r: seq<int>)
    ensures multiset(r) == multiset(update)
    ensures |r| == |update|
    decreases |update|
  {
    if update == [] then []
    else
      assert update == [update[0]] + update[1..];
      InsertBy(rules, update[0], SortByRules(rules, update[1..]))
  }

  function FixAll(rules: seq<OrderingRule>, updates: seq<seq<int>>): (fixed: seq<seq<int>>)
    ensures |fixed| == |updates|
    ensures forall k :: 0 <= k < |fixed| ==>
              multiset(fixed[k]) == multiset(updates[k]) && |fixed[k]| == |updates[k]|
    decreases |updates|
  {
    if updates == [] then []
    else FixAll(rules, updates[..|updates| - 1]) + [SortByRules(rules, updates[|updates| - 1])]
  }

  /** Part one: the middle pages of the safe updates. */
  method First(rules: seq<OrderingRule>, updates: seq<seq<int>>) returns (sumMiddle: int)
    requires forall k :: 0 <= k < |updates| ==> |updates[k]| > 0
    ensures forall k :: 0 <= k < |FilterSafe(rules, updates, true)| ==> |FilterSafe(rules, updates, true)[k]| > 0
    ensures sumMiddle == SumMiddleValue(FilterSafe(rules, updates, true))
  {
    var safe, _ := PartitionUpdates(rules, updates);
    PartitionIsExact(rules, updates);
    NonEmptyStaysNonEmpty(rules, updates, true);
    sumMiddle := SumMiddleValue(safe);
  }

  /** Part two: the middle pages of the unsafe updates once each is reordered. */
  method Second(rules: seq<OrderingRule>, updates: seq<seq<int>>) returns (sumMiddle: int)
    requires forall k :: 0 <= k < |updates| ==> |updates[k]| > 0
    ensures forall k :: 0 <= k < |FixAll(rules, FilterSafe(rules, updates, false))| ==>
              |FixAll(rules, FilterSafe(rules, updates, false))[k]| > 0
    ensures sumMiddle == SumMiddleValue(FixAll(rules, FilterSafe(rules, updates, false)))
  {
    var _, notSafe := PartitionUpdates(rules, updates);
    NonEmptyStaysNonEmpty(rules, updates, false);
    var fixed := FixEach(rules, notSafe);
    sumMiddle := SumMiddleValue(fixed);
  }

  /** The map over the unsafe updates that sorts each one by the rules. */
  method FixEach(rules: seq<OrderingRule>, notSafe: seq<seq<int>>) returns (fixed: seq<seq<int>>)
    ensures fixed == FixAll(rules, notSafe)
  {
    fixed := [];
    for k := 0 to |notSafe|
      invariant fixed == FixAll(rules, notSafe[..k])
    {
      assert notSafe[..k + 1][..k] == notSafe[..k];
      var sorted := SortByRules(rules, notSafe[k]);
      fixed := fixed + [sorted];
    }
    assert notSafe[..|notSafe|] == notSafe;
  }

  lemma {:induction false} NonEmptyStaysNonEmpty(rules: seq<OrderingRule>, updates: seq<seq<int>>, wanted: bool)
    requires forall k :: 0 <= k < |updates| ==> |updates[k]| > 0
    ensures forall k :: 0 <= k < |FilterSafe(rules, updates, wanted)| ==> |FilterSafe(rules, updates, wanted)[k]| > 0
    decreases |updates|
  {
    if updates != [] {
      NonEmptyStaysNonEmpty(rules, updates[..|updates| - 1], wanted);
    }
  }
}
