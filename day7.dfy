// Bridge repair: every way of joining a calibration's numbers left to
// right with + and * (and, in part two, decimal concatenation) is built as
// an operator tree; a calibration counts when some tree evaluates to its
// test value.
module Day7 {

  import opened Common

  /** An operator tree over the calibration numbers. */
  datatype Operator =
    | Identity(n: nat)
    | Add(left: Operator, right: Operator)
    | Multiply(left: Operator, right: Operator)
    | Concat(left: Operator, right: Operator)

  /** The two operator sets: + and * for part one, also concatenation for part two. */
  datatype OperatorSet = PlusTimes | PlusTimesConcat

  datatype Calibration = Calibration(result: nat, numbers: seq<nat>)

  /** The decimal digits of b written after those of a, read back as a number. */
  function ConcatDigits(a: nat, b: nat): (c: nat)
    ensures c >= a && c >= b
  {
    MulAtLeast(Pow10(Digits(b)), a);
    a * Pow10(Digits(b)) + b
  }

  /** Concatenation can be undone: the low Digits(b) digits give back b and the rest gives back a. */
  lemma ConcatSplits(a: nat, b: nat)
    ensures ConcatDigits(a, b) % Pow10(Digits(b)) == b
    ensures ConcatDigits(a, b) / Pow10(Digits(b)) == a
  {
    var p := Pow10(Digits(b));
    DivModUnique(a * p + b, p, a, b);
  }

  /** Concatenating a single digit after a: ten times a plus the digit. */
  lemma ConcatSingleDigit(a: nat, b: nat)
    requires b < 10
    ensures ConcatDigits(a, b) == 10 * a + b
  {
  }

  /** The value of an operator tree. */
  function Result(op: Operator): (v: nat)
    ensures Positive(Leaves(op)) ==> v > 0
  {
    match op
    case Identity(n) => assert Leaves(op)[0] == n; n
    case Add(l, r) => PositiveLeaves(op, l, r); Result(l) + Result(r)
    case Multiply(l, r) => PositiveLeaves(op, l, r); Result(l) * Result(r)
    case Concat(l, r) => PositiveLeaves(op, l, r); ConcatDigits(Result(l), Result(r))
  }

  predicate Positive(ns: seq<nat>)
  {
    forall k :: 0 <= k < |ns| ==> ns[k] > 0
  }

  /** Positive leaves of a tree are positive leaves of both its subtrees. */
  lemma PositiveLeaves(op: Operator, l: Operator, r: Operator)
    requires Leaves(op) == Leaves(l) + Leaves(r)
    ensures Positive(Leaves(op)) ==> Positive(Leaves(l)) && Positive(Leaves(r))
  {
    if Positive(Leaves(op)) {
      forall k | 0 <= k < |Leaves(l)|
        ensures Leaves(l)[k] > 0
      {
        assert Leaves(op)[k] == Leaves(l)[k];
      }
      forall k | 0 <= k < |Leaves(r)|
        ensures Leaves(r)[k] > 0
      {
        assert Leaves(op)[|Leaves(l)| + k] == Leaves(r)[k];
      }
    }
  }

  /** The numbers at the leaves of a tree, left to right. */
  function Leaves(op: Operator): (ns: seq<nat>)
    ensures |ns| >= 1
  {
    match op
    case Identity(n) => [n]
    case Add(l, r) => Leaves(l) + Leaves(r)
    case Multiply(l, r) => Leaves(l) + Leaves(r)
    case Concat(l, r) => Leaves(l) + Leaves(r)
  }

  /** A tree that joins the numbers strictly left to right: every right operand is a single number. */
  predicate LeftNested(op: Operator)
  {
    match op
    case Identity(_) => true
    case Add(l, r) => r.Identity? && LeftNested(l)
    case Multiply(l, r) => r.Identity? && LeftNested(l)
    case Concat(l, r) => r.Identity? && LeftNested(l)
  }

  /** The tree only uses operators of the set. */
  predicate Uses(kind: OperatorSet, op: Operator)
  {
    match op
    case Identity(_) => true
    case Add(l, r) => Uses(kind, l) && Uses(kind, r)
    case Multiply(l, r) => Uses(kind, l) && Uses(kind, r)
    case Concat(l, r) => kind == PlusTimesConcat && Uses(kind, l) && Uses(kind, r)
  }

  function Arity(kind: OperatorSet): nat
  {
    if kind == PlusTimes then 2 else 3
  }

  function Pow(b: nat, e: nat): nat
  {
    if e == 0 then 1 else b * Pow(b, e - 1)
  }

  /** The closure passed to the combination search: op joined with the next number by each operator of the set. */
  function Extend(kind: OperatorSet, op: Operator, number: nat): (r: seq<Operator>)
    ensures |r| == Arity(kind)
    ensures forall y :: y in r <==>
              y == Add(op, Identity(number)) || y == Multiply(op, Identity(number)) ||
              (kind == PlusTimesConcat && y == Concat(op, Identity(number)))
  {
    var both := [Add(op, Identity(number)), Multiply(op, Identity(number))];
    if kind == PlusTimes then both else both + [Concat(op, Identity(number))]
  }

  /** The flat_map of Extend over the current combinations, in order. */
  function FlatExtend(kind: OperatorSet, ops: seq<Operator>, number: nat): (r: seq<Operator>)
    ensures |r| == Arity(kind) * |ops|
    decreases |ops|
  {
    if ops == [] then []
    else FlatExtend(kind, ops[..|ops| - 1], number) + Extend(kind, ops[|ops| - 1], number)
  }

  lemma {:induction false} FlatExtendMembers(kind: OperatorSet, ops: seq<Operator>, number: nat, y: Operator)
    ensures y in FlatExtend(kind, ops, number) <==> exists op :: op in ops && y in Extend(kind, op, number)
    decreases |ops|
  {
    if ops != [] {
      var prefix := ops[..|ops| - 1];
      FlatExtendMembers(kind, prefix, number, y);
      assert ops == prefix + [ops[|ops| - 1]];
    }
  }

  /** The combinations of a list of numbers: one Identity for the first, then each further number joined by every operator. */
  function Combos(kind: OperatorSet, numbers: seq<nat>): (ops: seq<Operator>)
    ensures |ops| == 0 <==> |numbers| == 0
    decreases |numbers|
  {
    if numbers == [] then []
    else if |numbers| == 1 then [Identity(numbers[0])]
    else FlatExtend(kind, Combos(kind, numbers[..|numbers| - 1]), numbers[|numbers| - 1])
  }

  /** The search as the source performs it: a loop that replaces the combinations number by number. */
  method FindCombinations(kind: OperatorSet, numbers: seq<nat>) returns (combinations: seq<Operator>)
    ensures combinations == Combos(kind, numbers)
  {
    combinations := [];
    for idx := 0 to |numbers|
      invariant combinations == Combos(kind, numbers[..idx])
    {
      assert numbers[..idx + 1][..idx] == numbers[..idx];
      if idx == 0 {
        combinations := combinations + [Identity(numbers[idx])];
      } else {
        combinations := FlatExtend(kind, combinations, numbers[idx]);
      }
    }
    assert numbers[..|numbers|] == numbers;
  }

  /** A single number yields exactly one combination, the number itself. */
  lemma SingleNumber(kind: OperatorSet, n: nat)
    ensures Combos(kind, [n]) == [Identity(n)]
  {
  }

  /** There is one combination per choice of operator in each of the |numbers| - 1 gaps. */
  lemma {:induction false} CombinationCount(kind: OperatorSet, numbers: seq<nat>)
    requires |numbers| >= 1
    ensures |Combos(kind, numbers)| == Pow(Arity(kind), |numbers| - 1)
    decreases |numbers|
  {
    if |numbers| > 1 {
      CombinationCount(kind, numbers[..|numbers| - 1]);
    }
  }

  /** Every combination is a left-nested tree over exactly the numbers, using only the operator set. */
  lemma {:induction false} CombinationsAreSound(kind: OperatorSet, numbers: seq<nat>, op: Operator)
    requires op in Combos(kind, numbers)
    ensures LeftNested(op) && Leaves(op) == numbers && Uses(kind, op)
    decreases |numbers|
  {
    if |numbers| > 1 {
      var prefix := numbers[..|numbers| - 1];
      var last := numbers[|numbers| - 1];
      SplitLast(numbers);
      FlatExtendMembers(kind, Combos(kind, prefix), last, op);
      var l :| l in Combos(kind, prefix) && op in Extend(kind, l, last);
      CombinationsAreSound(kind, prefix, l);
      ExtendSound(kind, l, last, op);
    }
  }

  lemma SplitLast(numbers: seq<nat>)
    requires |numbers| >= 1
    ensures numbers == numbers[..|numbers| - 1] + [numbers[|numbers| - 1]]
  {
  }

  /** Extending a left-nested tree by one number keeps it left-nested, appends the number to its leaves and uses only the set's operators. */
  lemma ExtendSound(kind: OperatorSet, l: Operator, last: nat, op: Operator)
    requires LeftNested(l) && Uses(kind, l)
    requires op in Extend(kind, l, last)
    ensures LeftNested(op) && Leaves(op) == Leaves(l) + [last] && Uses(kind, op)
  {
  }

  /** Every left-nested tree over the numbers with operators of the set is one of the combinations. */
  lemma {:induction false} CombinationsAreComplete(kind: OperatorSet, numbers: seq<nat>, op: Operator)
    requires LeftNested(op) && Leaves(op) == numbers && Uses(kind, op)
    ensures op in Combos(kind, numbers)
    decreases op
  {
    if !op.Identity? {
      var l := op.left;
      var prefix := Leaves(l);
      assert numbers == prefix + [op.right.n];
      assert numbers[..|numbers| - 1] == prefix;
      CombinationsAreComplete(kind, prefix, l);
      assert op in Extend(kind, l, op.right.n);
      FlatExtendMembers(kind, Combos(kind, prefix), op.right.n, op);
    }
  }

  /** Every part-one combination is also a part-two combination. */
  lemma PlusTimesWithinConcat(numbers: seq<nat>, op: Operator)
    requires op in Combos(PlusTimes, numbers)
    ensures op in Combos(PlusTimesConcat, numbers)
  {
    CombinationsAreSound(PlusTimes, numbers, op);
    UsesWidens(op);
    CombinationsAreComplete(PlusTimesConcat, numbers, op);
  }

  lemma {:induction false} UsesWidens(op: Operator)
    requires Uses(PlusTimes, op)
    ensures Uses(PlusTimesConcat, op)
  {
    if !op.Identity? {
      UsesWidens(op.left);
      UsesWidens(op.right);
    }
  }

  /** An independent account of the reachable values: fold the numbers left to right, keeping every value reachable so far. */
  function Reachable(kind: OperatorSet, numbers: seq<nat>): set<nat>
    decreases |numbers|
  {
    if numbers == [] then {}
    else if |numbers| == 1 then {numbers[0]}
    else
      Joined(kind, Reachable(kind, numbers[..|numbers| - 1]), numbers[|numbers| - 1])
  }

  /** Every value of before joined with m by each operator of the set. */
  function Joined(kind: OperatorSet, before: set<nat>, m: nat): set<nat>
  {
    (set v | v in before :: v + m) + (set v | v in before :: v * m) +
    (if kind == PlusTimesConcat then set v | v in before :: ConcatDigits(v, m) else {})
  }

  /** The value a single operator produces. */
  function Apply(op: Operator, w: nat, m: nat): nat
    requires !op.Identity?
  {
    match op
    case Add(_, _) => w + m
    case Multiply(_, _) => w * m
    case Concat(_, _) => ConcatDigits(w, m)
  }

  lemma JoinedMembers(kind: OperatorSet, before: set<nat>, m: nat, l: Operator, op: Operator)
    requires op in Extend(kind, l, m)
    ensures Result(op) == Apply(op, Result(l), m)
    ensures Result(l) in before ==> Result(op) in Joined(kind, before, m)
  {
  }

  lemma JoinedWitness(kind: OperatorSet, before: set<nat>, m: nat, v: nat) returns (w: nat, op: Operator)
    requires v in Joined(kind, before, m)
    ensures w in before && !op.Identity? && op.right == Identity(m) && v == Apply(op, w, m)
    ensures op.Concat? ==> kind == PlusTimesConcat
  {
    if w' :| w' in before && v == w' + m {
      w, op := w', Add(Identity(0), Identity(m));
    } else if w' :| w' in before && v == w' * m {
      w, op := w', Multiply(Identity(0), Identity(m));
    } else {
      w :| w in before && kind == PlusTimesConcat && v == ConcatDigits(w, m);
      op := Concat(Identity(0), Identity(m));
    }
  }

  /** The values of the combinations are exactly the reachable values. */
  lemma CombinationValues(kind: OperatorSet, numbers: seq<nat>, v: nat)
    ensures v in Reachable(kind, numbers) <==> exists op :: op in Combos(kind, numbers) && Result(op) == v
  {
    if v in Reachable(kind, numbers) {
      ReachableIsAchieved(kind, numbers, v);
    }
    if exists op :: op in Combos(kind, numbers) && Result(op) == v {
      var op :| op in Combos(kind, numbers) && Result(op) == v;
      AchievedIsReachable(kind, numbers, op);
    }
  }

  lemma {:induction false} ReachableIsAchieved(kind: OperatorSet, numbers: seq<nat>, v: nat)
    requires v in Reachable(kind, numbers)
    ensures exists op :: op in Combos(kind, numbers) && Result(op) == v
    decreases |numbers|
  {
    if |numbers| == 1 {
      assert Identity(numbers[0]) in Combos(kind, numbers);
    } else {
      var prefix := numbers[..|numbers| - 1];
      var m := numbers[|numbers| - 1];
      var w, shape := JoinedWitness(kind, Reachable(kind, prefix), m, v);
      ReachableIsAchieved(kind, prefix, w);
      var l :| l in Combos(kind, prefix) && Result(l) == w;
      var op := match shape
        case Add(_, _) => Add(l, Identity(m))
        case Multiply(_, _) => Multiply(l, Identity(m))
        case Concat(_, _) => Concat(l, Identity(m));
      assert op in Extend(kind, l, m);
      JoinedMembers(kind, Reachable(kind, prefix), m, l, op);
      FlatExtendMembers(kind, Combos(kind, prefix), m, op);
    }
  }

  lemma {:induction false} AchievedIsReachable(kind: OperatorSet, numbers: seq<nat>, op: Operator)
    requires op in Combos(kind, numbers)
    ensures Result(op) in Reachable(kind, numbers)
    decreases |numbers|
  {
    if |numbers| > 1 {
      var prefix := numbers[..|numbers| - 1];
      var m := numbers[|numbers| - 1];
      FlatExtendMembers(kind, Combos(kind, prefix), m, op);
      var l :| l in Combos(kind, prefix) && op in Extend(kind, l, m);
      AchievedIsReachable(kind, prefix, l);
      JoinedMembers(kind, Reachable(kind, prefix), m, l, op);
    }
  }

  /** A calibration is possible with an operator set when some combination evaluates to its test value. */
  predicate Possible(kind: OperatorSet, c: Calibration)
  {
    exists op :: op in Combos(kind, c.numbers) && Result(op) == c.result
  }

  /** The any() over the combinations. */
  method HasResult(kind: OperatorSet, c: Calibration) returns (found: bool)
    ensures found == Possible(kind, c)
    ensures found <==> c.result in Reachable(kind, c.numbers)
  {
    var combinations := FindCombinations(kind, c.numbers);
    found := false;
    for k := 0 to |combinations|
      invariant found <==> exists j :: 0 <= j < k && Result(combinations[j]) == c.result
    {
      if Result(combinations[k]) == c.result {
        found := true;
      }
    }
    CombinationValues(kind, c.numbers, c.result);
  }

  /** The sum of the test values of the possible calibrations. */
  function Total(kind: OperatorSet, cals: seq<Calibration>): nat
    decreases |cals|
  {
    if cals == [] then 0
    else
      var last := cals[|cals| - 1];
      Total(kind, cals[..|cals| - 1]) + (if Possible(kind, last) then last.result else 0)
  }

  /** Part one (PlusTimes) and part two (PlusTimesConcat): the filter_map and sum over the calibrations. */
  method CalibrationTotal(kind: OperatorSet, cals: seq<Calibration>) returns (res: nat)
    ensures res == Total(kind, cals)
  {
    res := 0;
    for k := 0 to |cals|
      invariant res == Total(kind, cals[..k])
    {
      assert cals[..k + 1][..k] == cals[..k];
      var hasResult := HasResult(kind, cals[k]);
      if hasResult {
        res := res + cals[k].result;
      }
    }
    assert cals[..|cals|] == cals;
  }

  /** Every calibration possible in part one is possible in part two. */
  lemma PossibleWidens(c: Calibration)
    requires Possible(PlusTimes, c)
    ensures Possible(PlusTimesConcat, c)
  {
    var op :| op in Combos(PlusTimes, c.numbers) && Result(op) == c.result;
    PlusTimesWithinConcat(c.numbers, op);
  }

  /** The part-two total is at least the part-one total. */
  lemma {:induction false} TotalsOrdered(cals: seq<Calibration>)
    ensures Total(PlusTimes, cals) <= Total(PlusTimesConcat, cals)
    decreases |cals|
  {
    if cals != [] {
      TotalsOrdered(cals[..|cals| - 1]);
      if Possible(PlusTimes, cals[|cals| - 1]) {
        PossibleWidens(cals[|cals| - 1]);
      }
    }
  }
}
