// Day 11: stones that change every time one blinks. The puzzle keeps a
// map from stone number to count; the model checks it against the plain
// list of stones.
module Day11 {
  import opened Common

  /** What one stone becomes after a blink: one stone, or two when it splits. */
  function Blink(n: nat): (r: seq<nat>)
    ensures 1 <= |r| <= 2
    ensures |r| == 2 <==> Splits(n)
  {
    if n == 0 then [1]
    else if Digits(n) % 2 == 0 then Split(n, Pow10(Digits(n) / 2))
    else [n * 2024]
  }

  /** The two halves of a stone cut at p = 10^h: the quotient and the remainder. */
  function Split(n: nat, p: nat): (r: seq<nat>)
    requires p >= 1
    ensures |r| == 2 && r[0] * p + r[1] == n && r[1] < p
  {
    var q, m := n / p, n % p;
    DivMod(n, p);
    [q, m]
  }

  /** A stone splits when it is not 0 and has an even number of digits. */
  predicate Splits(n: nat)
  {
    n != 0 && Digits(n) % 2 == 0
  }

  lemma Pow10Add(a: nat, b: nat)
    ensures Pow10(a + b) == Pow10(a) * Pow10(b)
  {
    if a > 0 {
      Pow10Add(a - 1, b);
    }
  }

  /** A number between 10^(k-1) and 10^k is written with k digits. */
  lemma {:induction false} DigitsExact(m: nat, k: nat)
    requires k >= 1 && m < Pow10(k) && (k == 1 || Pow10(k - 1) <= m)
    ensures Digits(m) == k
  {
    if k > 1 {
      DigitsExact(m / 10, k - 1);
    }
  }

  lemma MulLe(a: nat, b: nat, c: nat)
    requires a <= b
    ensures a * c <= b * c
  {
  }

  /** A split divides the digits in two halves: the left half is written with exactly half the digits, and the right half read after it, padded to half the digits, gives back the stone. */
  lemma SplitHalves(n: nat)
    requires Splits(n)
    ensures Blink(n)[0] * Pow10(Digits(n) / 2) + Blink(n)[1] == n
    ensures Blink(n)[1] < Pow10(Digits(n) / 2)
    ensures Digits(Blink(n)[0]) == Digits(n) / 2
  {
    var d := Digits(n);
    var h := d / 2;
    var p := Pow10(h);
    var r := Split(n, p);
    assert Blink(n) == r;
    EvenDigits(n, d, h);
    Halves(n, h, p, r[0], r[1]);
  }

  /** A number of 2h digits lies between 10^(h-1) * 10^h and 10^h * 10^h. */
  lemma EvenDigits(n: nat, d: nat, h: nat)
    requires Splits(n) && d == Digits(n) && h == d / 2
    ensures h >= 1 && Pow10(h - 1) * Pow10(h) <= n < Pow10(h) * Pow10(h)
  {
    assert d == h + h && h >= 1;
    Pow10Add(h, h);
    Pow10Add(h - 1, h);
    assert h - 1 + h == d - 1;
  }

  lemma DivMod(n: nat, p: nat)
    requires p > 0
    ensures (n / p) * p + n % p == n && n % p < p
  {
  }

  /** A quotient by 10^h of a number of 2h digits has h digits. */
  lemma Halves(n: nat, h: nat, p: nat, q: nat, r: nat)
    requires h >= 1 && p == Pow10(h) && Pow10(h - 1) * p <= n < Pow10(h) * p
    requires n == q * p + r && r < p
    ensures Digits(q) == h
  {
    QuotientBounds(n, p, q, r, Pow10(h - 1), Pow10(h));
    DigitsExact(q, h);
  }

  /** Bounds on n between multiples of p bound the quotient. */
  lemma QuotientBounds(n: nat, p: nat, q: nat, r: nat, lo: nat, hi: nat)
    requires p > 0 && lo * p <= n < hi * p && n == q * p + r && r < p
    ensures lo <= q < hi
  {
    if q >= hi {
      MulLe(hi, q, p);
    } else if q < lo {
      MulLe(q + 1, lo, p);
      MulAddOne(q, p);
    }
  }

  lemma MulAddOne(q: nat, p: nat)
    ensures (q + 1) * p == q * p + p
  {
  }

  /** 1000 splits into 10 and 0: the right half keeps no leading zeros. */
  lemma SplitThousand()
    ensures Blink(1000) == [10, 0]
  {
    DigitsExact(1000, 4);
  }

  /** 11 and 17 split into their two digits. */
  lemma SplitTwoDigits()
    ensures Blink(11) == [1, 1]
    ensures Blink(17) == [1, 7]
  {
    DigitsExact(11, 2);
    DigitsExact(17, 2);
  }

  /** 1 has one digit, so it is multiplied. */
  lemma MultiplyOne()
    ensures Blink(1) == [2024]
  {
  }

  /** The row of stones after one blink, stone by stone. */
  function BlinkList(s: seq<nat>): (r: seq<nat>)
    ensures r == [] <==> s == []
  {
    Flat(Blink, s)
  }

  /** What every stone of s becomes under f, concatenated in order. */
  function Flat(f: nat -> seq<nat>, s: seq<nat>): seq<nat>
  {
    if s == [] then [] else Flat(f, s[..|s| - 1]) + f(s[|s| - 1])
  }

  /** The row of stones after k blinks. */
  function BlinkN(s: seq<nat>, k: nat): seq<nat>
  {
    if k == 0 then s else BlinkList(BlinkN(s, k - 1))
  }

  /** The number of stones of s that split. */
  function SplitCount(s: seq<nat>): nat
  {
    if s == [] then 0 else SplitCount(s[..|s| - 1]) + (if Splits(s[|s| - 1]) then 1 else 0)
  }

  /** A blink adds one stone per split, so the number of stones never decreases. */
  lemma {:induction false} BlinkListLength(s: seq<nat>)
    ensures |BlinkList(s)| == |s| + SplitCount(s)
  {
    if s != [] {
      BlinkListLength(s[..|s| - 1]);
    }
  }

  lemma {:induction false} FlatAppend(f: nat -> seq<nat>, a: seq<nat>, b: seq<nat>)
    ensures Flat(f, a + b) == Flat(f, a) + Flat(f, b)
    decreases |b|
  {
    if b == [] {
      assert a + b == a;
    } else {
      assert (a + b)[..|a + b| - 1] == a + b[..|b| - 1];
      assert (a + b)[|a + b| - 1] == b[|b| - 1];
      FlatAppend(f, a, b[..|b| - 1]);
    }
  }

  /** Blinking at a row is blinking at its parts. */
  lemma BlinkListAppend(a: seq<nat>, b: seq<nat>)
    ensures BlinkList(a + b) == BlinkList(a) + BlinkList(b)
  {
    FlatAppend(Blink, a, b);
  }

  lemma {:induction false} FlatPermutation(f: nat -> seq<nat>, a: seq<nat>, b: seq<nat>)
    requires multiset(a) == multiset(b)
    ensures multiset(Flat(f, a)) == multiset(Flat(f, b))
    decreases |a|
  {
    if a != [] {
      var x := a[|a| - 1];
      var front := a[..|a| - 1];
      assert a == front + [x];
      assert x in multiset(b);
      var i :| 0 <= i < |b| && b[i] == x;
      var b1, b2 := b[..i], b[i + 1..];
      assert b == b1 + [x] + b2;
      RemoveOne(a, b, front, x, b1, b2);
      FlatPermutation(f, front, b1 + b2);
      FlatMove(f, front, x, b1, b2);
    } else {
      assert |b| == |multiset(b)| == 0;
    }
  }

  /** Taking the same stone out of two permutations of a row leaves two permutations. */
  lemma RemoveOne(a: seq<nat>, b: seq<nat>, front: seq<nat>, x: nat, b1: seq<nat>, b2: seq<nat>)
    requires multiset(a) == multiset(b) && a == front + [x] && b == b1 + [x] + b2
    ensures multiset(front) == multiset(b1 + b2)
  {
    assert multiset(b) == multiset(b1 + b2) + multiset{x};
    assert multiset(a) == multiset(front) + multiset{x};
    assert multiset(front) == multiset(a) - multiset{x};
    assert multiset(b1 + b2) == multiset(b) - multiset{x};
  }

  /** Moving one stone from the end of a row into the middle keeps what the row becomes, as a multiset. */
  lemma FlatMove(f: nat -> seq<nat>, front: seq<nat>, x: nat, b1: seq<nat>, b2: seq<nat>)
    requires multiset(Flat(f, front)) == multiset(Flat(f, b1 + b2))
    ensures multiset(Flat(f, front + [x])) == multiset(Flat(f, b1 + [x] + b2))
  {
    FlatAppend(f, b1, b2);
    FlatAppend(f, b1 + [x], b2);
    FlatAppend(f, b1, [x]);
    FlatAppend(f, front, [x]);
    assert Flat(f, [x]) == f(x) by {
      assert [x][..0] == [];
    }
    var fb1, fx, fb2 := Flat(f, b1), f(x), Flat(f, b2);
    assert Flat(f, b1 + [x] + b2) == fb1 + fx + fb2;
    assert multiset(Flat(f, b1 + [x] + b2)) == multiset(fb1) + multiset(fx) + multiset(fb2);
  }

  /** The stones a row becomes do not depend on the order of the row: the count map may visit its entries in any order. */
  lemma BlinkListPermutation(a: seq<nat>, b: seq<nat>)
    requires multiset(a) == multiset(b)
    ensures multiset(BlinkList(a)) == multiset(BlinkList(b))
  {
    FlatPermutation(Blink, a, b);
  }

  function Repeat(x: nat, c: nat): (r: seq<nat>)
    ensures |r| == c && forall i :: 0 <= i < c ==> r[i] == x
  {
    seq(c, _ => x)
  }

  lemma {:induction false} RepeatCount(x: nat, c: nat)
    ensures forall y :: multiset(Repeat(x, c))[y] == if y == x then c else 0
  {
    if c > 0 {
      RepeatCount(x, c - 1);
      assert Repeat(x, c) == Repeat(x, c - 1) + [x];
    }
  }

  /** c copies of the multiset m. */
  ghost function Scale(c: nat, m: multiset<nat>): multiset<nat>
  {
    if c == 0 then multiset{} else Scale(c - 1, m) + m
  }

  /** c equal stones give c copies of what one of them gives. */
  lemma {:induction false} FlatRepeat(f: nat -> seq<nat>, x: nat, c: nat)
    ensures multiset(Flat(f, Repeat(x, c))) == Scale(c, multiset(f(x)))
  {
    if c > 0 {
      FlatRepeat(f, x, c - 1);
      assert Repeat(x, c)[..c - 1] == Repeat(x, c - 1);
    }
  }

  lemma {:induction false} ScaleSingle(c: nat, a: nat)
    ensures forall y :: Scale(c, multiset{a})[y] == if y == a then c else 0
  {
    if c > 0 {
      ScaleSingle(c - 1, a);
    }
  }

  lemma {:induction false} ScaleUnion(c: nat, m1: multiset<nat>, m2: multiset<nat>)
    ensures Scale(c, m1 + m2) == Scale(c, m1) + Scale(c, m2)
  {
    if c > 0 {
      ScaleUnion(c - 1, m1, m2);
    }
  }

  /** A count map: how many stones carry each number. */
  type Counts = map<nat, nat>

  function Get(m: Counts, x: nat): nat
  {
    if x in m then m[x] else 0
  }

  /** entry(x).and_modify(+= c).or_insert(c): adds c to the count of x. */
  function Bump(m: Counts, x: nat, c: nat): (r: Counts)
    ensures forall y :: Get(r, y) == Get(m, y) + (if y == x then c else 0)
    ensures r.Keys == m.Keys + {x}
  {
    m[x := Get(m, x) + c]
  }

  /** The map counts exactly the stones of the multiset. */
  ghost predicate Represents(m: Counts, stones: multiset<nat>)
  {
    forall y :: Get(m, y) == stones[y]
  }

  /** The initial map: the multiplicity of every input number. */
  method CountStones(init: seq<nat>) returns (stones: Counts)
    ensures Represents(stones, multiset(init))
  {
    stones := map[];
    for i := 0 to |init|
      invariant Represents(stones, multiset(init[..i]))
    {
      assert init[..i + 1] == init[..i] + [init[i]];
      stones := Bump(stones, init[i], 1);
    }
    assert init[..|init|] == init;
  }

  /** One blink on the count map: each entry adds its count to what its number becomes. */
  method BlinkCounts(stones: Counts, ghost s: seq<nat>) returns (newStones: Counts)
    requires Represents(stones, multiset(s))
    ensures Represents(newStones, multiset(BlinkList(s)))
  {
    newStones := map[];
    var remaining := stones.Keys;
    ghost var done: seq<nat> := [];
    ghost var left: multiset<nat> := multiset(s);
    while remaining != {}
      invariant Pending(Blink, stones, s, done, left, remaining, newStones)
      decreases |remaining|
    {
      var number: nat :| number in remaining;
      var count := stones[number];
      ghost var before := newStones;
      newStones := AddBlinks(newStones, number, count);
      BlinkStep(Blink, stones, s, done, left, remaining, before, newStones, number);
      done := done + Repeat(number, count);
      left := left[number := 0];
      remaining := remaining - {number};
    }
    assert left == multiset{};
    BlinkListPermutation(done, s);
  }

  /** The state of the blink loop: done holds the stones of the entries taken so far, left the others, and the new map counts what done becomes. */
  ghost predicate Pending(f: nat -> seq<nat>, stones: Counts, s: seq<nat>, done: seq<nat>, left: multiset<nat>,
                          remaining: set<nat>, newStones: Counts)
  {
    remaining <= stones.Keys &&
    multiset(done) + left == multiset(s) &&
    (forall y :: y in left ==> y in remaining) &&
    (forall y :: y in remaining ==> left[y] == multiset(s)[y]) &&
    Represents(newStones, multiset(Flat(f, done)))
  }

  /** Taking one entry keeps the loop state. */
  lemma BlinkStep(f: nat -> seq<nat>, stones: Counts, s: seq<nat>, done: seq<nat>, left: multiset<nat>, remaining: set<nat>,
                  before: Counts, newStones: Counts, number: nat)
    requires Represents(stones, multiset(s))
    requires Pending(f, stones, s, done, left, remaining, before) && number in remaining
    requires forall y :: Get(newStones, y) == Get(before, y) + Scale(stones[number], multiset(f(number)))[y]
    ensures Pending(f, stones, s, done + Repeat(number, stones[number]), left[number := 0], remaining - {number}, newStones)
  {
    var count := stones[number];
    assert left[number] == count by {
      assert Get(stones, number) == multiset(s)[number];
    }
    TakeEntry(f, done, left, newStones, number, count);
    var left' := left[number := 0];
    assert multiset(done + Repeat(number, count)) + left' == multiset(s);
  }

  /** Adding count copies of one stone number. */
  lemma AddOne(stones: Counts, x: nat, count: nat, m: multiset<nat>)
    requires m == multiset{x}
    ensures forall y :: Get(Bump(stones, x, count), y) == Get(stones, y) + Scale(count, m)[y]
  {
    ScaleSingle(count, x);
  }

  /** Adding count copies of each half of a split stone. */
  lemma AddTwo(stones: Counts, x: nat, z: nat, count: nat, m: multiset<nat>)
    requires m == multiset{x} + multiset{z}
    ensures forall y :: Get(Bump(Bump(stones, x, count), z, count), y) == Get(stones, y) + Scale(count, m)[y]
  {
    ScaleUnion(count, multiset{x}, multiset{z});
    ScaleSingle(count, x);
    ScaleSingle(count, z);
  }

  /** The count of one stone number, added to what that number becomes. */
  method AddBlinks(stones: Counts, number: nat, count: nat) returns (newStones: Counts)
    ensures forall y :: Get(newStones, y) == Get(stones, y) + Scale(count, multiset(Blink(number)))[y]
  {
    if number == 0 {
      newStones := Bump(stones, 1, count);
      AddOne(stones, 1, count, multiset(Blink(number)));
    } else {
      var digits := Digits(number);
      if digits % 2 == 0 {
        var half := digits / 2;
        var halves := Split(number, Pow10(half));
        var left, right := halves[0], halves[1];
        newStones := Bump(stones, left, count);
        newStones := Bump(newStones, right, count);
        AddTwo(stones, left, right, count, multiset(Blink(number)));
      } else {
        newStones := Bump(stones, number * 2024, count);
        AddOne(stones, number * 2024, count, multiset(Blink(number)));
      }
    }
  }

  /** Taking every stone of one number from the unprocessed ones into the processed ones. */
  lemma TakeEntry(f: nat -> seq<nat>, done: seq<nat>, left: multiset<nat>, newStones: Counts, number: nat, count: nat)
    requires left[number] == count
    requires forall y :: Get(newStones, y) == multiset(Flat(f, done))[y] + Scale(count, multiset(f(number)))[y]
    ensures Represents(newStones, multiset(Flat(f, done + Repeat(number, count))))
    ensures left == left[number := 0] + multiset(Repeat(number, count))
  {
    var r := Repeat(number, count);
    FlatRepeat(f, number, count);
    FlatAppend(f, done, r);
    TakeAll(left, number, count);
  }

  /** Removing all copies of one number from a multiset. */
  lemma TakeAll(left: multiset<nat>, number: nat, count: nat)
    requires left[number] == count
    ensures left == left[number := 0] + multiset(Repeat(number, count))
  {
    RepeatCount(number, count);
    assert forall y :: left[y] == left[number := 0][y] + multiset(Repeat(number, count))[y];
  }

  /** stones.values().sum(): the total of the counts is the number of stones. */
  method Total(stones: Counts, ghost s: seq<nat>) returns (total: nat)
    requires Represents(stones, multiset(s))
    ensures total == |s|
  {
    total := 0;
    var remaining := stones.Keys;
    ghost var left: multiset<nat> := multiset(s);
    while remaining != {}
      invariant remaining <= stones.Keys
      invariant total + |left| == |s|
      invariant forall y :: y in left ==> y in remaining
      invariant forall y :: y in remaining ==> left[y] == multiset(s)[y]
      decreases |remaining|
    {
      var number: nat :| number in remaining;
      RepeatCount(number, stones[number]);
      assert left == left[number := 0] + multiset(Repeat(number, stones[number]));
      total := total + stones[number];
      left := left[number := 0];
      remaining := remaining - {number};
    }
    assert left == multiset{};
  }

  /** solve(): the number of stones after the given number of blinks, and the count map it is read from. */
  method Solve(init: seq<nat>, iterations: nat) returns (total: nat, stones: Counts)
    ensures Represents(stones, multiset(BlinkN(init, iterations)))
    ensures total == |BlinkN(init, iterations)|
  {
    stones := CountStones(init);
    for i := 0 to iterations
      invariant Represents(stones, multiset(BlinkN(init, i)))
    {
      stones := BlinkCounts(stones, BlinkN(init, i));
    }
    total := Total(stones, BlinkN(init, iterations));
  }

  /** The number of stones never decreases from one blink to the next. */
  lemma TotalsNeverDecrease(init: seq<nat>, k: nat)
    ensures |BlinkN(init, k + 1)| >= |BlinkN(init, k)|
  {
    BlinkListLength(BlinkN(init, k));
  }
}
