// Corrupted-memory multiplications: the tokens produced by the lexer are
// summed either unconditionally (part one) or under the do()/don't()
// switch (part two).
module Day3 {

  datatype Instruction = Do | DoNot

  datatype Token =
    | Garbage
    | Mul(left: int, right: int)
    | Instr(instruction: Instruction)

  /** What one token adds to the part-one sum. */
  function Contribution(t: Token): int
  {
    match t
    case Mul(l, r) => l * r
    case _ => 0
  }

  /** Part one: the sum of `left * right` over every multiplication. */
  function MulSum(tokens: seq<Token>): (r: int)
    ensures (forall k :: 0 <= k < |tokens| ==> !tokens[k].Mul?) ==> r == 0
    decreases |tokens|
  {
    if tokens == [] then 0
    else MulSum(tokens[..|tokens| - 1]) + Contribution(tokens[|tokens| - 1])
  }

  lemma {:induction false} MulSumAppend(a: seq<Token>, b: seq<Token>)
    ensures MulSum(a + b) == MulSum(a) + MulSum(b)
    decreases |b|
  {
    if b == [] {
      assert a + b == a;
    } else {
      var n := |b| - 1;
      assert (a + b)[..|a + b| - 1] == a + b[..n];
      MulSumAppend(a, b[..n]);
    }
  }

  /** Garbage and the two switches never change the part-one sum. */
  lemma OnlyMultiplicationsCount(tokens: seq<Token>, t: Token)
    requires !t.Mul?
    ensures MulSum(tokens + [t]) == MulSum(tokens)
    ensures MulSum([t] + tokens) == MulSum(tokens)
  {
    MulSumAppend(tokens, [t]);
    MulSumAppend([t], tokens);
    assert MulSum([t]) == MulSum([]) + Contribution(t);
  }

  /** The switch state after the given tokens: the most recent instruction, Do at the start. */
  function LastInstruction(tokens: seq<Token>): Instruction
    decreases |tokens|
  {
    if tokens == [] then Do
    else if tokens[|tokens| - 1].Instr? then tokens[|tokens| - 1].instruction
    else LastInstruction(tokens[..|tokens| - 1])
  }

  /** Part two, as a specification: a multiplication counts only when the most recent switch before it is Do. */
  function EnabledSum(tokens: seq<Token>): (r: int)
    ensures (forall k :: 0 <= k < |tokens| ==> !tokens[k].Mul?) ==> r == 0
    decreases |tokens|
  {
    if tokens == [] then 0
    else
      var prefix := tokens[..|tokens| - 1];
      var t := tokens[|tokens| - 1];
      EnabledSum(prefix) + (if t.Mul? && LastInstruction(prefix) == Do then Contribution(t) else 0)
  }

  /** Part two: the two-state machine, starting in Do and switching on every instruction token. */
  method Second(tokens: seq<Token>) returns (result: int)
    ensures result == EnabledSum(tokens)
  {
    result := 0;
    var instruction := Do;
    for i := 0 to |tokens|
      invariant result == EnabledSum(tokens[..i])
      invariant instruction == LastInstruction(tokens[..i])
    {
      assert tokens[..i + 1][..i] == tokens[..i];
      match tokens[i]
      case Garbage =>
      case Mul(l, r) =>
        if instruction == Do {
          result := result + l * r;
        }
      case Instr(next) =>
        instruction := next;
    }
    assert tokens[..|tokens|] == tokens;
  }

  /** A multiplication counts in part two exactly when the switch is on at its position. */
  lemma {:induction false} EnabledSumAppendMul(tokens: seq<Token>, l: int, r: int)
    ensures EnabledSum(tokens + [Mul(l, r)]) ==
            EnabledSum(tokens) + (if LastInstruction(tokens) == Do then l * r else 0)
  {
    assert (tokens + [Mul(l, r)])[..|tokens|] == tokens;
  }

  /** Without any don't() token, part two equals part one. */
  lemma {:induction false} NoDoNotMeansAllCount(tokens: seq<Token>)
    requires forall i :: 0 <= i < |tokens| ==> tokens[i] != Instr(DoNot)
    ensures LastInstruction(tokens) == Do
    ensures EnabledSum(tokens) == MulSum(tokens)
    decreases |tokens|
  {
    if tokens != [] {
      var prefix := tokens[..|tokens| - 1];
      assert forall i :: 0 <= i < |prefix| ==> prefix[i] == tokens[i];
      NoDoNotMeansAllCount(prefix);
    }
  }

  /** After a don't() and before the next do(), no multiplication counts. */
  lemma {:induction false} DisabledTailAddsNothing(prefix: seq<Token>, tail: seq<Token>)
    requires forall i :: 0 <= i < |tail| ==> tail[i] != Instr(Do)
    ensures LastInstruction(prefix + [Instr(DoNot)] + tail) == DoNot
    ensures EnabledSum(prefix + [Instr(DoNot)] + tail) == EnabledSum(prefix)
    decreases |tail|
  {
    var head := prefix + [Instr(DoNot)];
    if tail == [] {
      assert head + tail == head;
      assert head[..|head| - 1] == prefix;
    } else {
      var n := |tail| - 1;
      assert (head + tail)[..|head + tail| - 1] == head + tail[..n];
      assert forall i :: 0 <= i < n ==> tail[..n][i] == tail[i];
      DisabledTailAddsNothing(prefix, tail[..n]);
    }
  }
}
