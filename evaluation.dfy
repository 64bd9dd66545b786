/** What `eval` computes on whole families of sides: a single operand, two
    operands, three operands with precedence and left associativity, a
    parenthesised pair, and a negated last operand.  Spaces never matter,
    and a leading `-` means `0-`. */
module Evaluation {
  import opened Outcomes
  import opened Numbers
  import opened Preprocessing
  import opened Reduction

  /** An operand text the constructor of `Number` accepts. */
  predicate Operand(u: string) {
    u != [] && IsOperandText(u) && WellFormedToken(u)
  }

  /** The `Number` an accepted operand text stands for. */
  function Parsed(u: string): Number
    requires Operand(u)
  {
    ParseNumber(u).value
  }

  // --------------------------------------------------------------- flat sides

  /** Operands separated by single binary operators, e.g. `2x+3*4`. */
  predicate Flat(s: string) {
    && s != []
    && IsDigitOrX(s[0])
    && IsDigitOrX(s[|s| - 1])
    && (forall k :: 0 <= k < |s| ==> IsDigitOrX(s[k]) || IsBinary(s[k]))
    && (forall k :: 0 < k < |s| ==> IsDigitOrX(s[k - 1]) || IsDigitOrX(s[k]))
  }

  lemma FlatOperand(u: string)
    requires Operand(u)
    ensures Flat(u)
  {
  }

  lemma FlatExtend(s: string, op: char, v: string)
    requires Flat(s) && IsBinary(op) && Operand(v)
    ensures Flat(s + [op] + v)
  {
    var t := s + [op] + v;
    forall k | 0 <= k < |t|
      ensures IsDigitOrX(t[k]) || IsBinary(t[k])
    {
      if k < |s| {
        assert t[k] == s[k];
      } else if k > |s| {
        assert t[k] == v[k - |s| - 1];
      }
    }
    forall k | 0 < k < |t|
      ensures IsDigitOrX(t[k - 1]) || IsDigitOrX(t[k])
    {
      if k < |s| {
        assert t[k - 1] == s[k - 1] && t[k] == s[k];
      } else if k == |s| {
        assert t[k - 1] == s[k - 1];
      } else {
        assert t[k] == v[k - |s| - 1];
      }
    }
  }

  /** `preprocess` leaves a flat side as it is. */
  lemma FlatPreprocessed(s: string)
    requires Flat(s)
    ensures Normalize(s) == s && Preprocessed(s) == s
  {
    assert ' ' !in s;
    forall i | 0 <= i < |s| - 1
      ensures !(s[i] == '(' && s[i + 1] == '+') && !(s[i] == '(' && s[i + 1] == '-') && !(s[i] == '+' && s[i + 1] == '-')
    {
      assert IsDigitOrX(s[i]) || IsDigitOrX(s[i + 1]);
    }
    forall i | 0 < i < |s| && s[i] == '-'
      ensures !IsNegationContext(s[i - 1])
    {
      assert IsDigitOrX(s[i - 1]);
    }
    PreprocessedPlain(s);
  }

  // ---------------------------------------------------------- scanning pieces

  /** The scan passes over operand characters without doing anything. */
  lemma {:induction false} ScanSkip(s: string, i: nat, j: nat, st: Stacks)
    requires i <= j <= |s| && StackOps(st.ops)
    requires forall k :: i <= k < j ==> IsDigitOrX(s[k])
    ensures ScanFrom(s, i, st) == ScanFrom(s, j, st)
    decreases j - i
  {
    if i < j {
      ScanDigit(s, i, st);
      ScanSkip(s, i + 1, j, st);
    }
  }

  /** One operand character: the scan moves on. */
  lemma ScanDigit(s: string, i: nat, st: Stacks)
    requires i < |s| && IsDigitOrX(s[i]) && StackOps(st.ops)
    ensures ScanFrom(s, i, st) == ScanFrom(s, i + 1, st)
  {
  }

  /** The operand found before `j` is the whole run that starts at `i`. */
  lemma OperandRun(s: string, i: nat, j: nat)
    requires i < j <= |s|
    requires forall k :: i <= k < j ==> IsDigitOrX(s[k])
    requires i == 0 || !IsDigitOrX(s[i - 1])
    ensures HasPrevNum(j, s) && TokenStart(s, j) == i && Token(s, j) == s[i..j]
  {
  }

  /** Scanning an operand that starts at `i` and is ended by the operator
      character at `j`. */
  lemma ScanOperand(s: string, i: nat, j: nat, st: Stacks)
    requires i < j < |s| && StackOps(st.ops)
    requires Operand(s[i..j]) && !IsDigitOrX(s[j])
    requires i == 0 || !IsDigitOrX(s[i - 1])
    ensures ScanFrom(s, i, st) == match OperatorStep(Stacks(st.nums + [Parsed(s[i..j])], st.ops), s[j])
                                  case Err(e) => Err(e)
                                  case Ok(st1) => ScanFrom(s, j + 1, st1)
  {
    forall k | i <= k < j
      ensures IsDigitOrX(s[k])
    {
      assert s[k] == s[i..j][k - i];
    }
    ScanSkip(s, i, j, st);
    OperandRun(s, i, j);
    ScanUnfold(s, j, st);
  }

  /** Scanning an operator character that follows another operator. */
  lemma ScanOperatorAfterOperator(s: string, j: nat, st: Stacks)
    requires 0 < j < |s| && StackOps(st.ops)
    requires !IsDigitOrX(s[j - 1]) && !IsDigitOrX(s[j])
    ensures ScanFrom(s, j, st) == match OperatorStep(st, s[j])
                                  case Err(e) => Err(e)
                                  case Ok(st1) => ScanFrom(s, j + 1, st1)
  {
    ScanUnfold(s, j, st);
  }

  /** Scanning a `(` that no operand precedes: it is pushed. */
  lemma ScanOpen(s: string, i: nat, st: Stacks)
    requires i < |s| && s[i] == '(' && (i == 0 || !IsDigitOrX(s[i - 1])) && StackOps(st.ops)
    ensures ScanFrom(s, i, st) == ScanFrom(s, i + 1, Stacks(st.nums, st.ops + ['(']))
  {
    ScanUnfold(s, i, st);
    assert PushOperand(s, i, st) == Ok(st);
  }

  /** The operand that starts at `i` and ends before `j` is what
      `PushOperand` pushes at `j`. */
  lemma PushRun(s: string, i: nat, j: nat, st: Stacks)
    requires i < j <= |s|
    requires Operand(s[i..j]) && (i == 0 || !IsDigitOrX(s[i - 1]))
    ensures PushOperand(s, j, st) == Ok(Stacks(st.nums + [Parsed(s[i..j])], st.ops))
  {
    forall k | i <= k < j
      ensures IsDigitOrX(s[k])
    {
      assert s[k] == s[i..j][k - i];
    }
    OperandRun(s, i, j);
  }

  /** An operator that finds the stack stopped at its priority is pushed. */
  lemma PushOperator(st: Stacks, c: char)
    requires StackOps(st.ops) && (IsBinary(c) || c == '~') && Stopped(st.ops, Priority(c))
    ensures OperatorStep(st, c) == Ok(Stacks(st.nums, st.ops + [c]))
  {
  }

  /** A binary operator reduces the stacks down to its priority and is
      then pushed. */
  lemma OperatorStepBinary(st: Stacks, c: char)
    requires StackOps(st.ops) && IsBinary(c)
    ensures OperatorStep(st, c) == match Reduce(st, Priority(c))
                                   case Err(e) => Err(e)
                                   case Ok(st2) => Ok(Stacks(st2.nums, st2.ops + [c]))
  {
  }

  /** The last operand, from `i` to the end: the scan leaves the stacks
      alone, and `Finish` pushes the operand and reduces everything. */
  lemma FinishOperand(s: string, i: nat, st: Stacks)
    requires i < |s| && StackOps(st.ops)
    requires Operand(s[i..]) && (i == 0 || !IsDigitOrX(s[i - 1]))
    ensures ScanFrom(s, i, st) == Ok(st)
    ensures Finish(s, st) == Collapse(Stacks(st.nums + [Parsed(s[i..])], st.ops))
  {
    forall k | i <= k < |s|
      ensures IsDigitOrX(s[k])
    {
      assert s[k] == s[i..][k - i];
    }
    ScanSkip(s, i, |s|, st);
    assert s[i..|s|] == s[i..];
    PushRun(s, i, |s|, st);
  }

  // ------------------------------------------------------------- flat results

  /** A lone operand evaluates to what it parses to. */
  lemma EvalOne(u: string)
    requires Operand(u)
    ensures EvalResult(u) == Ok(Parsed(u))
  {
    FlatOperand(u);
    FlatPreprocessed(u);
    assert u[0..] == u;
    FinishOperand(u, 0, Stacks([], []));
    assert [] + [Parsed(u)] == [Parsed(u)];
  }

  /** Reducing one binary operator over two operands. */
  lemma ReducePair(x: Number, y: Number, op: char, p: int)
    requires IsBinary(op) && Priority(op) >= p
    ensures Reduce(Stacks([x, y], [op]), p) ==
              match Calc(x, y, op)
              case Err(e) => Err(e)
              case Ok(c) => Ok(Stacks([c], []))
  {
    var st := Stacks([x, y], [op]);
    ApplyBinary([x, y], op);
    var r := Calc(x, y, op);
    if r.Ok? {
      assert [x, y][..0] + [r.value] == [r.value];
      ReducePopApplies(st, p, [r.value]);
      assert st.ops[..0] == [];
      ReduceStopped(Stacks([r.value], []), p);
    } else {
      ReducePopFails(st, p, r.failure);
    }
  }

  /** What `Finish` makes of a last operand `y` after `x op`. */
  lemma FinishPair(x: Number, y: Number, op: char)
    requires IsBinary(op)
    ensures Collapse(Stacks([x, y], [op])) == Calc(x, y, op)
  {
    ReducePair(x, y, op, 0);
  }

  /** `eval` of a preprocessed side whose scan ends in `st`. */
  lemma EvalScanned(e: string, st: Stacks)
    requires e != [] && ScanFrom(e, 0, Stacks([], [])) == Ok(st)
    ensures EvalPreprocessed(e) == Finish(e, st)
  {
  }

  /** `eval` of a preprocessed side whose scan ends in `st`, with the last
      operand starting at `i`. */
  lemma EvalAfterScan(e: string, i: nat, st: Stacks)
    requires 0 < i < |e| && StackOps(st.ops) && Operand(e[i..]) && !IsDigitOrX(e[i - 1])
    requires ScanFrom(e, 0, Stacks([], [])) == Ok(st)
    ensures EvalPreprocessed(e) == Collapse(Stacks(st.nums + [Parsed(e[i..])], st.ops))
  {
    EvalScanned(e, st);
    FinishOperand(e, i, st);
  }

  /** A flat side is evaluated as it stands. */
  lemma EvalFlat(s: string)
    requires Flat(s)
    ensures EvalResult(s) == EvalPreprocessed(s)
  {
    FlatPreprocessed(s);
  }

  /** The scan of a first operand and the binary operator after it. */
  lemma ScanFirstOperand(s: string, j: nat)
    requires 0 < j < |s| && Operand(s[..j]) && IsBinary(s[j])
    ensures ScanFrom(s, 0, Stacks([], [])) == ScanFrom(s, j + 1, Stacks([Parsed(s[..j])], [s[j]]))
  {
    var s0 := Stacks([], []);
    assert s[0..j] == s[..j];
    ScanOperand(s, 0, j, s0);
    assert s0.nums + [Parsed(s[..j])] == [Parsed(s[..j])];
    PushOperator(Stacks([Parsed(s[..j])], []), s[j]);
    assert [] + [s[j]] == [s[j]];
  }

  /** `u op v` evaluates to `calc(u, v, op)`. */
  lemma EvalTwo(u: string, op: char, v: string)
    requires Operand(u) && Operand(v) && IsBinary(op)
    ensures EvalResult(u + [op] + v) == Calc(Parsed(u), Parsed(v), op)
  {
    var s := u + [op] + v;
    FlatOperand(u);
    FlatExtend(u, op, v);
    EvalFlat(s);
    var pu, pv := Parsed(u), Parsed(v);
    assert s[..|u|] == u && s[|u|] == op && s[|u| + 1..] == v;
    ScanFirstOperand(s, |u|);
    var s1 := Stacks([pu], [op]);
    FinishOperand(s, |u| + 1, s1);
    EvalScanned(s, s1);
    assert s1.nums + [pv] == [pu, pv];
    FinishPair(pu, pv, op);
  }

  /** Reducing two binary operators over three operands. */
  lemma FinishTriple(x: Number, y: Number, z: Number, op1: char, op2: char)
    requires IsBinary(op1) && IsBinary(op2)
    ensures Collapse(Stacks([x, y, z], [op1, op2])) == (var r :- Calc(y, z, op2); Calc(x, r, op1))
  {
    var full := Stacks([x, y, z], [op1, op2]);
    ApplyBinary([x, y, z], op2);
    var r := Calc(y, z, op2);
    if r.Ok? {
      assert [x, y, z][..1] + [r.value] == [x, r.value];
      CollapsePop(full, [x, r.value]);
      assert full.ops[..1] == [op1];
      FinishPair(x, r.value, op1);
    } else {
      ReducePopFails(full, 0, r.failure);
    }
  }

  /** `Collapse` after a top operator whose application gives `next`. */
  lemma CollapsePop(st: Stacks, next: seq<Number>)
    requires StackOps(st.ops) && !Stopped(st.ops, 0)
    requires Apply(st.nums, st.ops[|st.ops| - 1]) == Ok(next)
    ensures StackOps(st.ops[..|st.ops| - 1])
    ensures Collapse(st) == Collapse(Stacks(next, st.ops[..|st.ops| - 1]))
  {
    ReducePopApplies(st, 0, next);
    CollapseSame(st, Stacks(next, st.ops[..|st.ops| - 1]));
  }

  /** Two stack states that reduce alike collapse alike. */
  lemma CollapseSame(st: Stacks, st2: Stacks)
    requires StackOps(st.ops) && StackOps(st2.ops) && Reduce(st, 0) == Reduce(st2, 0)
    ensures Collapse(st) == Collapse(st2)
  {
  }


  /** The scan of a second operand `y`, between `x op1` and a binary
      operator `s[j]` of no higher priority: `op1` is applied first. */
  lemma ScanSecondApplied(s: string, i: nat, j: nat, x: Number, op1: char)
    requires 0 < i < j < |s| && Operand(s[i..j]) && IsBinary(s[j]) && !IsDigitOrX(s[i - 1])
    requires IsBinary(op1) && Priority(op1) >= Priority(s[j])
    ensures ScanFrom(s, i, Stacks([x], [op1])) ==
              match Calc(x, Parsed(s[i..j]), op1)
              case Err(e) => Err(e)
              case Ok(c) => ScanFrom(s, j + 1, Stacks([c], [s[j]]))
  {
    var y := Parsed(s[i..j]);
    var st := Stacks([x], [op1]);
    ScanOperand(s, i, j, st);
    assert st.nums + [y] == [x, y];
    OperatorAfterPair(x, y, op1, s[j]);
  }

  /** A binary operator `c` after `x op1 y`, when `op1` has no lower
      priority: `op1` is applied and `c` pushed. */
  lemma OperatorAfterPair(x: Number, y: Number, op1: char, c: char)
    requires IsBinary(op1) && IsBinary(c) && Priority(op1) >= Priority(c)
    ensures OperatorStep(Stacks([x, y], [op1]), c) ==
              match Calc(x, y, op1)
              case Err(e) => Err(e)
              case Ok(v) => Ok(Stacks([v], [c]))
  {
    ReducePair(x, y, op1, Priority(c));
    OperatorStepBinary(Stacks([x, y], [op1]), c);
    assert [] + [c] == [c];
  }

  /** The scan of a second operand `y`, between `x op1` and a binary
      operator `s[j]` of higher priority: both stay on the stacks. */
  lemma ScanSecondKept(s: string, i: nat, j: nat, x: Number, op1: char)
    requires 0 < i < j < |s| && Operand(s[i..j]) && IsBinary(s[j]) && !IsDigitOrX(s[i - 1])
    requires IsBinary(op1) && Priority(op1) < Priority(s[j])
    ensures ScanFrom(s, i, Stacks([x], [op1])) ==
              ScanFrom(s, j + 1, Stacks([x, Parsed(s[i..j])], [op1, s[j]]))
  {
    var y := Parsed(s[i..j]);
    var st := Stacks([x], [op1]);
    ScanOperand(s, i, j, st);
    var st2 := Stacks([x, y], [op1]);
    assert st.nums + [y] == st2.nums;
    PushOperator(st2, s[j]);
    assert [op1] + [s[j]] == [op1, s[j]];
  }

  /** Three operands at fixed places in `s`: `s[..j1]`, `s[j1 + 1..j2]`
      and `s[j2 + 1..]`, separated by the binary operators `s[j1]` and
      `s[j2]`. */
  predicate ThreeAt(s: string, j1: nat, j2: nat) {
    && 0 < j1 && j1 + 1 < j2 && j2 + 1 < |s|
    && Operand(s[..j1]) && Operand(s[j1 + 1..j2]) && Operand(s[j2 + 1..])
    && IsBinary(s[j1]) && IsBinary(s[j2])
  }

  /** The scan of three operands when `s[j2]` has no higher priority than
      `s[j1]`. */
  lemma ScanThreeApplied(s: string, j1: nat, j2: nat)
    requires ThreeAt(s, j1, j2) && Priority(s[j1]) >= Priority(s[j2])
    ensures ScanFrom(s, 0, Stacks([], [])) ==
              match Calc(Parsed(s[..j1]), Parsed(s[j1 + 1..j2]), s[j1])
              case Err(e) => Err(e)
              case Ok(c) => Ok(Stacks([c], [s[j2]]))
  {
    ScanFirstOperand(s, j1);
    ScanSecondApplied(s, j1 + 1, j2, Parsed(s[..j1]), s[j1]);
    var l := Calc(Parsed(s[..j1]), Parsed(s[j1 + 1..j2]), s[j1]);
    if l.Ok? {
      FinishOperand(s, j2 + 1, Stacks([l.value], [s[j2]]));
    }
  }

  /** The scan of three operands when `s[j2]` has the higher priority. */
  lemma ScanThreeKept(s: string, j1: nat, j2: nat)
    requires ThreeAt(s, j1, j2) && Priority(s[j1]) < Priority(s[j2])
    ensures ScanFrom(s, 0, Stacks([], [])) ==
              Ok(Stacks([Parsed(s[..j1]), Parsed(s[j1 + 1..j2])], [s[j1], s[j2]]))
  {
    ScanFirstOperand(s, j1);
    ScanSecondKept(s, j1 + 1, j2, Parsed(s[..j1]), s[j1]);
    FinishOperand(s, j2 + 1, Stacks([Parsed(s[..j1]), Parsed(s[j1 + 1..j2])], [s[j1], s[j2]]));
  }

  /** `x op1 y op2 z` as arithmetic has it: the higher priority first, and
      from the left among equal priorities. */
  function ThreeValue(x: Number, op1: char, y: Number, op2: char, z: Number): Result<Number>
    requires IsBinary(op1) && IsBinary(op2)
  {
    if Priority(op1) >= Priority(op2) then
      var l :- Calc(x, y, op1); Calc(l, z, op2)
    else
      var r :- Calc(y, z, op2); Calc(x, r, op1)
  }

  /** `ThreeValue` when the left operator is applied first. */
  lemma AppliedValue(x: Number, op1: char, y: Number, op2: char, z: Number)
    requires IsBinary(op1) && IsBinary(op2) && Priority(op1) >= Priority(op2)
    ensures ThreeValue(x, op1, y, op2, z) == (var l :- Calc(x, y, op1); Calc(l, z, op2))
  {
  }

  /** `ThreeValue` when the right operator is applied first. */
  lemma KeptValue(x: Number, op1: char, y: Number, op2: char, z: Number)
    requires IsBinary(op1) && IsBinary(op2) && Priority(op1) < Priority(op2)
    ensures ThreeValue(x, op1, y, op2, z) == (var r :- Calc(y, z, op2); Calc(x, r, op1))
  {
  }

  lemma EvalThreeAppliedAt(s: string, j1: nat, j2: nat)
    requires ThreeAt(s, j1, j2) && Priority(s[j1]) >= Priority(s[j2])
    ensures EvalPreprocessed(s) == ThreeValue(Parsed(s[..j1]), s[j1], Parsed(s[j1 + 1..j2]), s[j2], Parsed(s[j2 + 1..]))
  {
    ScanThreeApplied(s, j1, j2);
    AppliedValue(Parsed(s[..j1]), s[j1], Parsed(s[j1 + 1..j2]), s[j2], Parsed(s[j2 + 1..]));
    var l := Calc(Parsed(s[..j1]), Parsed(s[j1 + 1..j2]), s[j1]);
    if l.Ok? {
      var pw := Parsed(s[j2 + 1..]);
      var s3 := Stacks([l.value], [s[j2]]);
      EvalAfterScan(s, j2 + 1, s3);
      assert s3.nums + [pw] == [l.value, pw];
      FinishPair(l.value, pw, s[j2]);
    } else {
      assert ScanFrom(s, 0, Stacks([], [])) == Err(l.failure);
    }
  }

  lemma EvalThreeKeptAt(s: string, j1: nat, j2: nat)
    requires ThreeAt(s, j1, j2) && Priority(s[j1]) < Priority(s[j2])
    ensures EvalPreprocessed(s) == ThreeValue(Parsed(s[..j1]), s[j1], Parsed(s[j1 + 1..j2]), s[j2], Parsed(s[j2 + 1..]))
  {
    ScanThreeKept(s, j1, j2);
    var pu, pv, pw := Parsed(s[..j1]), Parsed(s[j1 + 1..j2]), Parsed(s[j2 + 1..]);
    var s3 := Stacks([pu, pv], [s[j1], s[j2]]);
    EvalAfterScan(s, j2 + 1, s3);
    assert s3.nums + [pw] == [pu, pv, pw];
    CollapseKept(pu, pv, pw, s[j1], s[j2]);
  }

  /** Three operands left with two operators, the upper of higher priority. */
  lemma CollapseKept(x: Number, y: Number, z: Number, op1: char, op2: char)
    requires IsBinary(op1) && IsBinary(op2) && Priority(op1) < Priority(op2)
    ensures Collapse(Stacks([x, y, z], [op1, op2])) == ThreeValue(x, op1, y, op2, z)
  {
    FinishTriple(x, y, z, op1, op2);
    KeptValue(x, op1, y, op2, z);
  }

  lemma EvalThreeAt(s: string, j1: nat, j2: nat)
    requires ThreeAt(s, j1, j2)
    ensures EvalPreprocessed(s) == ThreeValue(Parsed(s[..j1]), s[j1], Parsed(s[j1 + 1..j2]), s[j2], Parsed(s[j2 + 1..]))
  {
    if Priority(s[j1]) >= Priority(s[j2]) {
      EvalThreeAppliedAt(s, j1, j2);
    } else {
      EvalThreeKeptAt(s, j1, j2);
    }
  }

  /** Three operands at the places `ThreeAt` names make a flat side. */
  lemma ThreeAtFlat(s: string, j1: nat, j2: nat)
    requires ThreeAt(s, j1, j2)
    ensures Flat(s)
  {
    forall k | 0 <= k < |s| && k != j1 && k != j2
      ensures IsDigitOrX(s[k])
    {
      if k < j1 {
        assert s[k] == s[..j1][k];
      } else if k < j2 {
        assert s[k] == s[j1 + 1..j2][k - j1 - 1];
      } else {
        assert s[k] == s[j2 + 1..][k - j2 - 1];
      }
    }
  }

  /** A side made of three operands and two binary operators: the operator
      of higher priority is applied first, and of two operators of the same
      priority the left one. */
  lemma EvalThree(s: string, j1: nat, j2: nat)
    requires ThreeAt(s, j1, j2)
    ensures EvalResult(s) == ThreeValue(Parsed(s[..j1]), s[j1], Parsed(s[j1 + 1..j2]), s[j2], Parsed(s[j2 + 1..]))
  {
    ThreeAtFlat(s, j1, j2);
    EvalFlat(s);
    EvalThreeAt(s, j1, j2);
  }

  /** `u op1 v op2 w` for three operand texts: the precedence of `ThreeValue`. */
  lemma EvalThreeOperands(u: string, op1: char, v: string, op2: char, w: string)
    requires Operand(u) && Operand(v) && Operand(w) && IsBinary(op1) && IsBinary(op2)
    ensures EvalResult(u + [op1] + v + [op2] + w) == ThreeValue(Parsed(u), op1, Parsed(v), op2, Parsed(w))
  {
    var s := u + [op1] + v + [op2] + w;
    var j1, j2 := |u|, |u| + 1 + |v|;
    assert s[..j1] == u && s[j1] == op1 && s[j1 + 1..j2] == v && s[j2] == op2 && s[j2 + 1..] == w;
    EvalThree(s, j1, j2);
  }

  // ------------------------------------------------------------ parentheses

  /** `(u op1 v) op2 w` with `u = s[1..j1]`, `v = s[j1 + 1..j2]` and
      `w = s[j2 + 2..]`. */
  predicate ParenAt(s: string, j1: nat, j2: nat) {
    && 1 < j1 && j1 + 1 < j2 && j2 + 2 < |s|
    && s[0] == '(' && s[j2] == ')'
    && Operand(s[1..j1]) && Operand(s[j1 + 1..j2]) && Operand(s[j2 + 2..])
    && IsBinary(s[j1]) && IsBinary(s[j2 + 1])
  }

  /** `preprocess` leaves such a side as it is. */
  lemma ParenPlain(s: string, j1: nat, j2: nat)
    requires ParenAt(s, j1, j2)
    ensures Preprocessed(s) == s
  {
    forall k | 0 <= k < |s| && k != 0 && k != j1 && k != j2 && k != j2 + 1
      ensures IsDigitOrX(s[k])
    {
      if k < j1 {
        assert s[k] == s[1..j1][k - 1];
      } else if k < j2 {
        assert s[k] == s[j1 + 1..j2][k - j1 - 1];
      } else {
        assert s[k] == s[j2 + 2..][k - j2 - 2];
      }
    }
    assert ' ' !in s;
    PreprocessedPlain(s);
  }

  /** Reducing `( x op y` down to the `(`. */
  lemma ReduceToParen(x: Number, y: Number, op: char)
    requires IsBinary(op)
    ensures Reduce(Stacks([x, y], ['(', op]), 0) ==
              match Calc(x, y, op)
              case Err(e) => Err(e)
              case Ok(c) => Ok(Stacks([c], ['(']))
  {
    var r := Calc(x, y, op);
    if r.Ok? {
      ReduceToParenOk(x, y, op, r.value);
    } else {
      ApplyBinary([x, y], op);
      ReducePopFails(Stacks([x, y], ['(', op]), 0, r.failure);
    }
  }

  lemma ReduceToParenOk(x: Number, y: Number, op: char, c: Number)
    requires IsBinary(op) && Calc(x, y, op) == Ok(c)
    ensures Reduce(Stacks([x, y], ['(', op]), 0) == Ok(Stacks([c], ['(']))
  {
    var st, st1 := Stacks([x, y], ['(', op]), Stacks([c], ['(']);
    ApplyBinary([x, y], op);
    assert [x, y][..0] + [c] == [c];
    assert Apply(st.nums, st.ops[|st.ops| - 1]) == Ok([c]);
    ReducePopApplies(st, 0, [c]);
    assert Stacks([c], st.ops[..|st.ops| - 1]) == st1;
    ReduceStopped(st1, 0);
  }

  /** `)` after `( x op y`: the pair is reduced and the `(` popped. */
  lemma CloseParen(x: Number, y: Number, op: char)
    requires IsBinary(op)
    ensures OperatorStep(Stacks([x, y], ['(', op]), ')') ==
              match Calc(x, y, op)
              case Err(e) => Err(e)
              case Ok(c) => Ok(Stacks([c], []))
  {
    ReduceToParen(x, y, op);
    var l := Calc(x, y, op);
    if l.Ok? {
      assert ['('][..0] == [];
    }
  }

  /** The scan of `( u op1`. */
  lemma ScanParenOpen(s: string, j1: nat, j2: nat)
    requires ParenAt(s, j1, j2)
    ensures ScanFrom(s, 0, Stacks([], [])) == ScanFrom(s, j1 + 1, Stacks([Parsed(s[1..j1])], ['(', s[j1]]))
  {
    var pu := Parsed(s[1..j1]);
    var sOpen := Stacks([], ['(']);
    ScanOpen(s, 0, Stacks([], []));
    assert [] + ['('] == sOpen.ops;
    ScanOperand(s, 1, j1, sOpen);
    assert sOpen.nums + [pu] == [pu];
    PushOperator(Stacks([pu], ['(']), s[j1]);
    assert ['('] + [s[j1]] == ['(', s[j1]];
  }

  /** The scan of `op2 w` once the parenthesis has reduced to `c`. */
  lemma ScanParenClosed(s: string, j1: nat, j2: nat, c: Number)
    requires ParenAt(s, j1, j2)
    ensures ScanFrom(s, j2 + 1, Stacks([c], [])) == Ok(Stacks([c], [s[j2 + 1]]))
  {
    var s3 := Stacks([c], []);
    ScanOperatorAfterOperator(s, j2 + 1, s3);
    PushOperator(s3, s[j2 + 1]);
    assert [] + [s[j2 + 1]] == [s[j2 + 1]];
    FinishOperand(s, j2 + 2, Stacks([c], [s[j2 + 1]]));
  }

  /** The scan of `( u op1 v ) op2`. */
  lemma ScanParen(s: string, j1: nat, j2: nat)
    requires ParenAt(s, j1, j2)
    ensures ScanFrom(s, 0, Stacks([], [])) ==
              match Calc(Parsed(s[1..j1]), Parsed(s[j1 + 1..j2]), s[j1])
              case Err(e) => Err(e)
              case Ok(c) => Ok(Stacks([c], [s[j2 + 1]]))
  {
    var pu, pv := Parsed(s[1..j1]), Parsed(s[j1 + 1..j2]);
    ScanParenOpen(s, j1, j2);
    var s1 := Stacks([pu], ['(', s[j1]]);
    ScanOperand(s, j1 + 1, j2, s1);
    assert s1.nums + [pv] == [pu, pv];
    CloseParen(pu, pv, s[j1]);
    var l := Calc(pu, pv, s[j1]);
    if l.Ok? {
      ScanParenClosed(s, j1, j2, l.value);
    }
  }

  /** `(u op1 v) op2 w`: the parenthesised pair is applied first whatever
      the priorities. */
  lemma EvalParenthesised(s: string, j1: nat, j2: nat)
    requires ParenAt(s, j1, j2)
    ensures EvalResult(s) ==
              (var l :- Calc(Parsed(s[1..j1]), Parsed(s[j1 + 1..j2]), s[j1]); Calc(l, Parsed(s[j2 + 2..]), s[j2 + 1]))
  {
    ParenPlain(s, j1, j2);
    assert EvalResult(s) == EvalPreprocessed(s);
    ScanParen(s, j1, j2);
    var l := Calc(Parsed(s[1..j1]), Parsed(s[j1 + 1..j2]), s[j1]);
    if l.Ok? {
      EvalParenTail(s, j1, j2, l.value);
    }
  }

  /** The end of `eval` once the parenthesis has reduced to `c`. */
  lemma EvalParenTail(s: string, j1: nat, j2: nat, c: Number)
    requires ParenAt(s, j1, j2)
    requires ScanFrom(s, 0, Stacks([], [])) == Ok(Stacks([c], [s[j2 + 1]]))
    ensures EvalPreprocessed(s) == Calc(c, Parsed(s[j2 + 2..]), s[j2 + 1])
  {
    var pw := Parsed(s[j2 + 2..]);
    var s3 := Stacks([c], [s[j2 + 1]]);
    EvalAfterScan(s, j2 + 2, s3);
    assert s3.nums + [pw] == [c, pw];
    FinishPair(c, pw, s[j2 + 1]);
  }

  // ------------------------------------------------------- a negated operand

  /** `u op -v` with `u = s[..j]`, `op = s[j]` one of `- * /`, and
      `v = s[j + 2..]`. */
  predicate NegatedAt(s: string, j: nat) {
    && 0 < j && j + 2 < |s|
    && (s[j] == '-' || s[j] == '*' || s[j] == '/') && s[j + 1] == '-'
    && Operand(s[..j]) && Operand(s[j + 2..])
  }

  /** Without its `--` rewrite, `preprocess` marks the second sign as a
      negation and changes nothing else; so does the source's `preprocess`
      when `op` is `*` or `/`. */
  lemma NegatedMarked(s: string, j: nat)
    requires NegatedAt(s, j)
    ensures InsertZeros(s) == s
    ensures PreprocessedIntended(s) == s[j + 1 := '~']
    ensures s[j] != '-' ==> Normalize(s) == s && Preprocessed(s) == s[j + 1 := '~']
  {
    forall k | 0 <= k < |s| && k != j && k != j + 1
      ensures IsDigitOrX(s[k])
    {
      if k < j {
        assert s[k] == s[..j][k];
      } else {
        assert s[k] == s[j + 2..][k - j - 2];
      }
    }
    assert ' ' !in s;
    InsertZerosPlain(s);
    if s[j] != '-' {
      NormalizePlain(s);
    }
    MarkNegationUnique(s, s[j + 1 := '~']);
  }

  /** `eval` after `preprocess` of `u op ~v`. */
  lemma EvalMarkedNegation(t: string, j: nat)
    requires 0 < j && j + 2 < |t| && (t[j] == '-' || t[j] == '*' || t[j] == '/') && t[j + 1] == '~'
    requires Operand(t[..j]) && Operand(t[j + 2..])
    ensures EvalPreprocessed(t) == Calc(Parsed(t[..j]), Neg(Parsed(t[j + 2..])), t[j])
  {
    ScanFirstOperand(t, j);
    EvalNegatedAfterApplied(t, j, Parsed(t[..j]));
  }

  /** `u op -v` for `op` one of `* /`: the second sign negates `v`.  (For
      `u--v` see `DoubleMinusAsWritten`.) */
  lemma EvalNegated(s: string, j: nat)
    requires NegatedAt(s, j) && s[j] != '-'
    ensures EvalResult(s) == Calc(Parsed(s[..j]), Neg(Parsed(s[j + 2..])), s[j])
  {
    var t := s[j + 1 := '~'];
    NegatedMarked(s, j);
    assert t[..j] == s[..j] && t[j + 2..] == s[j + 2..];
    EvalMarkedNegation(t, j);
  }

  /** Without the `--` rewrite, `u op -v` for `op` one of `- * /`: the
      second sign negates `v`. */
  lemma EvalNegatedIntended(s: string, j: nat)
    requires NegatedAt(s, j)
    ensures EvalResultIntended(s) == Calc(Parsed(s[..j]), Neg(Parsed(s[j + 2..])), s[j])
  {
    var t := s[j + 1 := '~'];
    NegatedMarked(s, j);
    assert t[..j] == s[..j] && t[j + 2..] == s[j + 2..];
    EvalMarkedNegation(t, j);
  }

  /** `u op -w` for two operand texts and `op` one of `* /`. */
  lemma EvalNegatedOperands(u: string, op: char, w: string)
    requires Operand(u) && Operand(w) && (op == '*' || op == '/')
    ensures EvalResult(u + [op] + "-" + w) == Calc(Parsed(u), Neg(Parsed(w)), op)
  {
    var s := u + [op] + "-" + w;
    assert s[..|u|] == u && s[|u|] == op && s[|u| + 1] == '-' && s[|u| + 2..] == w;
    assert NegatedAt(s, |u|);
    EvalNegated(s, |u|);
  }

  /** A `~` on top of the operator stack negates the top operand before
      anything else is reduced. */
  lemma CollapseNegTop(nums: seq<Number>, ops: seq<char>, w: Number)
    requires StackOps(ops)
    ensures StackOps(ops + ['~'])
    ensures Collapse(Stacks(nums + [w], ops + ['~'])) == Collapse(Stacks(nums + [Neg(w)], ops))
  {
    var st := Stacks(nums + [w], ops + ['~']);
    assert st.ops[..|st.ops| - 1] == ops;
    assert st.nums[..|st.nums| - 1] + [Neg(w)] == nums + [Neg(w)];
    CollapsePop(st, nums + [Neg(w)]);
  }

  /** `u op1 v op2 -w`: three operands whose last is negated, with `op2`
      one of `* /`. */
  predicate ThreeNegatedAt(s: string, j1: nat, j2: nat) {
    && 0 < j1 && j1 + 1 < j2 && j2 + 2 < |s|
    && Operand(s[..j1]) && Operand(s[j1 + 1..j2]) && Operand(s[j2 + 2..])
    && IsBinary(s[j1]) && (s[j2] == '*' || s[j2] == '/') && s[j2 + 1] == '-'
  }

  /** `preprocess` marks the sign before the last operand as a negation and
      changes nothing else. */
  lemma ThreeNegatedMarked(s: string, j1: nat, j2: nat)
    requires ThreeNegatedAt(s, j1, j2)
    ensures Preprocessed(s) == s[j2 + 1 := '~']
  {
    forall k | 0 <= k < |s| && k != j1 && k != j2 && k != j2 + 1
      ensures IsDigitOrX(s[k])
    {
      if k < j1 {
        assert s[k] == s[..j1][k];
      } else if k < j2 {
        assert s[k] == s[j1 + 1..j2][k - j1 - 1];
      } else {
        assert s[k] == s[j2 + 2..][k - j2 - 2];
      }
    }
    assert ' ' !in s;
    NormalizePlain(s);
    MarkNegationUnique(s, s[j2 + 1 := '~']);
  }

  /** `ThreeNegatedAt` after `preprocess`: the second sign is a `~`. */
  predicate ThreeMarkedAt(t: string, j1: nat, j2: nat) {
    && 0 < j1 && j1 + 1 < j2 && j2 + 2 < |t|
    && Operand(t[..j1]) && Operand(t[j1 + 1..j2]) && Operand(t[j2 + 2..])
    && IsBinary(t[j1]) && (t[j2] == '-' || t[j2] == '*' || t[j2] == '/') && t[j2 + 1] == '~'
  }

  /** The scan of the `~` after a binary operator and the operand after
      it, to the end of the side. */
  lemma ScanNegatedLast(t: string, k: nat, st: Stacks)
    requires 0 < k && k + 1 < |t| && t[k] == '~' && IsBinary(t[k - 1]) && Operand(t[k + 1..])
    requires StackOps(st.ops) && st.ops != [] && IsBinary(st.ops[|st.ops| - 1])
    ensures ScanFrom(t, k, st) == Ok(Stacks(st.nums, st.ops + ['~']))
  {
    ScanOperatorAfterOperator(t, k, st);
    PushOperator(st, '~');
    FinishOperand(t, k + 1, Stacks(st.nums, st.ops + ['~']));
  }

  /** The preprocessed `u op1 v op2 ~w`, when `op1` is applied first. */
  lemma EvalThreeNegatedApplied(t: string, j1: nat, j2: nat)
    requires ThreeMarkedAt(t, j1, j2) && Priority(t[j1]) >= Priority(t[j2])
    ensures EvalPreprocessed(t) ==
              ThreeValue(Parsed(t[..j1]), t[j1], Parsed(t[j1 + 1..j2]), t[j2], Neg(Parsed(t[j2 + 2..])))
  {
    var pu, pv, pw := Parsed(t[..j1]), Parsed(t[j1 + 1..j2]), Parsed(t[j2 + 2..]);
    ScanFirstOperand(t, j1);
    ScanSecondApplied(t, j1 + 1, j2, pu, t[j1]);
    AppliedValue(pu, t[j1], pv, t[j2], Neg(pw));
    var l := Calc(pu, pv, t[j1]);
    if l.Ok? {
      EvalNegatedAfterApplied(t, j2, l.value);
    } else {
      assert ScanFrom(t, 0, Stacks([], [])) == Err(l.failure);
    }
  }

  /** A side whose scan reaches, with stacks `nums` and `ops`, a `~` after
      a binary operator and then a last operand `w`: it evaluates to what
      is left once `-w` is pushed and everything reduced. */
  lemma EvalNegatedTail(t: string, k: nat, nums: seq<Number>, ops: seq<char>)
    requires 0 < k && k + 1 < |t| && t[k] == '~' && IsBinary(t[k - 1]) && Operand(t[k + 1..])
    requires StackOps(ops) && ops != [] && IsBinary(ops[|ops| - 1])
    requires ScanFrom(t, 0, Stacks([], [])) == ScanFrom(t, k, Stacks(nums, ops))
    ensures EvalPreprocessed(t) == Collapse(Stacks(nums + [Neg(Parsed(t[k + 1..]))], ops))
  {
    var st := Stacks(nums, ops);
    ScanNegatedLast(t, k, st);
    var st1 := Stacks(nums, ops + ['~']);
    EvalAfterScan(t, k + 1, st1);
    CollapseNegTop(nums, ops, Parsed(t[k + 1..]));
  }

  /** The end of `EvalThreeNegatedApplied` once `op1` gave `c`. */
  lemma EvalNegatedAfterApplied(t: string, j2: nat, c: Number)
    requires 0 < j2 && j2 + 2 < |t| && IsBinary(t[j2]) && t[j2 + 1] == '~' && Operand(t[j2 + 2..])
    requires ScanFrom(t, 0, Stacks([], [])) == ScanFrom(t, j2 + 1, Stacks([c], [t[j2]]))
    ensures EvalPreprocessed(t) == Calc(c, Neg(Parsed(t[j2 + 2..])), t[j2])
  {
    var nw := Neg(Parsed(t[j2 + 2..]));
    EvalNegatedTail(t, j2 + 1, [c], [t[j2]]);
    assert [c] + [nw] == [c, nw];
    FinishPair(c, nw, t[j2]);
  }

  /** The preprocessed `u op1 v op2 ~w`, when `op2` is applied first. */
  lemma EvalThreeNegatedKept(t: string, j1: nat, j2: nat)
    requires ThreeMarkedAt(t, j1, j2) && Priority(t[j1]) < Priority(t[j2])
    ensures EvalPreprocessed(t) ==
              ThreeValue(Parsed(t[..j1]), t[j1], Parsed(t[j1 + 1..j2]), t[j2], Neg(Parsed(t[j2 + 2..])))
  {
    var pu, pv := Parsed(t[..j1]), Parsed(t[j1 + 1..j2]);
    ScanFirstOperand(t, j1);
    ScanSecondKept(t, j1 + 1, j2, pu, t[j1]);
    EvalNegatedAfterKept(t, j2, pu, t[j1], pv);
    KeptValue(pu, t[j1], pv, t[j2], Neg(Parsed(t[j2 + 2..])));
  }

  /** The end of `EvalThreeNegatedKept` with `x op1 y` still on the stacks. */
  lemma EvalNegatedAfterKept(t: string, j2: nat, x: Number, op1: char, y: Number)
    requires 0 < j2 && j2 + 2 < |t| && IsBinary(t[j2]) && t[j2 + 1] == '~' && Operand(t[j2 + 2..])
    requires IsBinary(op1)
    requires ScanFrom(t, 0, Stacks([], [])) == ScanFrom(t, j2 + 1, Stacks([x, y], [op1, t[j2]]))
    ensures EvalPreprocessed(t) == (var r :- Calc(y, Neg(Parsed(t[j2 + 2..])), t[j2]); Calc(x, r, op1))
  {
    var nw := Neg(Parsed(t[j2 + 2..]));
    EvalNegatedTail(t, j2 + 1, [x, y], [op1, t[j2]]);
    assert [x, y] + [nw] == [x, y, nw];
    FinishTriple(x, y, nw, op1, t[j2]);
  }

  /** `u op1 v op2 -w` for three operand texts and `op2` one of `* /`:
      the precedence of `ThreeValue`, with the last operand negated. */
  lemma EvalThreeNegated(u: string, op1: char, v: string, op2: char, w: string)
    requires Operand(u) && Operand(v) && Operand(w) && IsBinary(op1)
    requires op2 == '*' || op2 == '/'
    ensures EvalResult(u + [op1] + v + [op2] + "-" + w) ==
              ThreeValue(Parsed(u), op1, Parsed(v), op2, Neg(Parsed(w)))
  {
    var s := u + [op1] + v + [op2] + "-" + w;
    var j1, j2 := |u|, |u| + 1 + |v|;
    assert s[..j1] == u && s[j1] == op1 && s[j1 + 1..j2] == v && s[j2] == op2 && s[j2 + 1] == '-' && s[j2 + 2..] == w;
    assert ThreeNegatedAt(s, j1, j2);
    ThreeNegatedMarked(s, j1, j2);
    var t := s[j2 + 1 := '~'];
    assert t[..j1] == u && t[j1] == op1 && t[j1 + 1..j2] == v && t[j2] == op2 && t[j2 + 2..] == w;
    assert ThreeMarkedAt(t, j1, j2);
    if Priority(op1) >= Priority(op2) {
      EvalThreeNegatedApplied(t, j1, j2);
    } else {
      EvalThreeNegatedKept(t, j1, j2);
    }
  }

  // -------------------------------------------------------- the double minus

  /** A `--` between two operands: the second text the source's normalisation
      turns it into, `u-0-v`. */
  lemma DoubleMinusRewritten(s: string, j: nat)
    requires NegatedAt(s, j) && s[j] == '-'
    ensures Normalize(s) == s[..j] + "-0-" + s[j + 2..]
  {
    NegatedMarked(s, j);
    var u, v := s[..j], s[j + 2..];
    OperandHasNoMinus(u);
    OperandHasNoMinus(v);
    assert s == u + "--" + v;
    ReplaceDoubleMinus(u, v);
  }

  /** An operand text holds no `-`. */
  lemma OperandHasNoMinus(u: string)
    requires Operand(u)
    ensures '-' !in u
  {
    forall k | 0 <= k < |u|
      ensures u[k] != '-'
    {
      assert IsDigitOrX(u[k]);
    }
  }

  /** The source's normalisation of `u--v` when neither side holds a `-`. */
  lemma ReplaceDoubleMinus(u: string, v: string)
    requires '-' !in u && '-' !in v
    ensures ReplaceAll(u + "--" + v, "--", "-0-") == u + "-0-" + v
  {
    var tail := "--" + v;
    assert u + "--" + v == u + tail;
    ReplaceAllSkip(u, tail, "--", "-0-");
    assert StartsWith(tail, "--");
    assert tail[2..] == v;
    ReplaceAllSkip(v, [], "--", "-0-");
    assert v + [] == v;
    assert ReplaceAll(tail, "--", "-0-") == "-0-" + v;
  }

  /** As written: `u--v` evaluates to `(u - 0) - v`. */
  lemma DoubleMinusAsWritten(s: string, j: nat)
    requires NegatedAt(s, j) && s[j] == '-'
    ensures EvalResult(s) == Ok(Sub(Sub(Parsed(s[..j]), Number(0, 0)), Parsed(s[j + 2..])))
  {
    var w := s[..j] + "-0-" + s[j + 2..];
    DoubleMinusRewritten(s, j);
    assert w[..j] == s[..j] && w[j] == '-' && w[j + 1..j + 2] == "0" && w[j + 2] == '-' && w[j + 3..] == s[j + 2..];
    assert Parsed("0") == Number(0, 0);
    assert ThreeAt(w, j, j + 2);
    ThreeAtFlat(w, j, j + 2);
    FlatPreprocessed(w);
    EvalThreeAt(w, j, j + 2);
  }

  /** As written, `u--v` means `u - v` at every `x`. */
  lemma DoubleMinusAsWrittenValue(s: string, j: nat, t: int)
    requires NegatedAt(s, j) && s[j] == '-'
    ensures EvalResult(s).Ok?
    ensures Value(EvalResult(s).value, t) == Value(Parsed(s[..j]), t) - Value(Parsed(s[j + 2..]), t)
  {
    DoubleMinusAsWritten(s, j);
    var u, v := Parsed(s[..j]), Parsed(s[j + 2..]);
    AddSubNegValue(u, Number(0, 0), t);
    AddSubNegValue(Sub(u, Number(0, 0)), v, t);
  }

  /** Corrected: `u--v` evaluates to `u - (-v)`. */
  lemma DoubleMinus(s: string, j: nat)
    requires NegatedAt(s, j) && s[j] == '-'
    ensures EvalResultIntended(s) == Ok(Sub(Parsed(s[..j]), Neg(Parsed(s[j + 2..]))))
  {
    EvalNegatedIntended(s, j);
  }

  /** Corrected, `u--v` means `u + v` at every `x`. */
  lemma DoubleMinusValue(s: string, j: nat, t: int)
    requires NegatedAt(s, j) && s[j] == '-'
    ensures EvalResultIntended(s).Ok?
    ensures Value(EvalResultIntended(s).value, t) == Value(Parsed(s[..j]), t) + Value(Parsed(s[j + 2..]), t)
  {
    DoubleMinus(s, j);
    var u, v := Parsed(s[..j]), Parsed(s[j + 2..]);
    AddSubNegValue(v, v, t);
    AddSubNegValue(u, Neg(v), t);
  }

  // --------------------------------------------------------- spaces and signs

  /** Spaces never change what a side evaluates to. */
  lemma EvalIgnoresSpaces(s: string)
    ensures EvalResult(s) == EvalResult(Drop(' ', s))
  {
    ReplaceCharByNothing(s, ' ');
    ReplaceAllSkip(Drop(' ', s), [], " ", "");
    assert Drop(' ', s) + [] == Drop(' ', s);
    assert InsertZeros(s) == InsertZeros(Drop(' ', s));
    assert Normalize(s) == Normalize(Drop(' ', s));
  }

  /** A side that starts with `-` is evaluated as `0` followed by it. */
  lemma EvalLeadingMinus(s: string)
    requires ' ' !in s && s != [] && s[0] == '-'
    ensures EvalResult(s) == EvalResult("0" + s)
  {
    ReplaceAllSkip(s, [], " ", "");
    assert s + [] == s;
    var z := "0" + s;
    assert ' ' !in z by {
      assert forall k :: 1 <= k < |z| ==> z[k] == s[k - 1];
    }
    ReplaceAllSkip(z, [], " ", "");
    assert z + [] == z;
    assert InsertZeros(s) == InsertZeros(z);
    assert Normalize(s) == Normalize(z);
  }
}
