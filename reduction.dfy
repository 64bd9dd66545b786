/** The evaluator of `EquationSolver` as functions: the operator priorities,
    the reduction of the two stacks (`compute`), the scan of a preprocessed
    expression (`eval`) and the operand lookup behind it (`hasPrevNum`,
    `getPrevNum`).  The methods of `Solver.EquationSolver` are proved to
    compute exactly these. */
module Reduction {
  import opened Outcomes
  import opened Numbers
  import opened Preprocessing

  // ------------------------------------------------------------- priorities

  /** The keys of the priority map. */
  predicate IsOperator(c: char) {
    c == '+' || c == '-' || c == '*' || c == '/' || c == '~' || c == '(' || c == ')'
  }

  /** The priority map filled in by the constructor. */
  function Priority(c: char): (p: int)
    requires IsOperator(c)
    ensures 1 <= p <= 4
    ensures p == 4 <==> c == '(' || c == ')'
    ensures (c == '+' || c == '-') <==> p == 1
    ensures (c == '*' || c == '/') <==> p == 2
    ensures c == '~' <==> p == 3
  {
    match c
    case '+' => 1
    case '-' => 1
    case '*' => 2
    case '/' => 2
    case '~' => 3
    case _ => 4
  }

  /** The operators `calc` applies to two operands. */
  predicate IsBinary(c: char) {
    c == '+' || c == '-' || c == '*' || c == '/'
  }

  /** What the operator stack can hold: `)` is never pushed. */
  predicate IsStackOp(c: char) {
    IsBinary(c) || c == '~' || c == '('
  }

  predicate StackOps(ops: seq<char>) {
    forall k :: 0 <= k < |ops| ==> IsStackOp(ops[k])
  }

  predicate NoOpenParen(ops: seq<char>) {
    forall k :: 0 <= k < |ops| ==> ops[k] != '('
  }

  /** The number of binary operators in `ops`. */
  function BinaryCount(ops: seq<char>): nat
    decreases |ops|
  {
    if ops == [] then 0
    else BinaryCount(ops[..|ops| - 1]) + (if IsBinary(ops[|ops| - 1]) then 1 else 0)
  }

  // -------------------------------------------------------------- reduction

  /** The operand stack and the operator stack, tops at the ends. */
  datatype Stacks = Stacks(nums: seq<Number>, ops: seq<char>)

  /** Where `compute(p)` stops: an empty operator stack, a top of lower
      priority than `p`, or an open parenthesis on top. */
  predicate Stopped(ops: seq<char>, p: int)
    requires StackOps(ops)
  {
    ops == [] || Priority(ops[|ops| - 1]) < p || ops[|ops| - 1] == '('
  }

  /** `compute(p)`: pop and apply operators of priority at least `p` down
      to the nearest `(`.  A `~` replaces the top operand by its negation; a
      binary operator replaces the two top operands `num1`, `num2` (top) by
      `num1 op num2`.  Too few operands is Java's `EmptyStackException`. */
  function Reduce(st: Stacks, p: int): (r: Result<Stacks>)
    requires StackOps(st.ops)
    ensures r.Ok? ==> StackOps(r.value.ops) && Stopped(r.value.ops, p)
    decreases |st.ops|
  {
    if st.ops == [] || Priority(st.ops[|st.ops| - 1]) < p || st.ops[|st.ops| - 1] == '(' then
      Ok(st)
    else
      var top := st.ops[|st.ops| - 1];
      var next :- Apply(st.nums, top);
      Reduce(Stacks(next, st.ops[..|st.ops| - 1]), p)
  }

  /** `fin` is what reducing `st` at priority `p` may leave: a prefix of
      the operator stack, of which only operators of priority at least `p`
      and no `(` were popped, with one operand gone per binary operator
      popped and the operands below the ones touched unchanged. */
  ghost predicate ReducedFrom(st: Stacks, fin: Stacks, p: int)
    requires StackOps(st.ops)
  {
    && |fin.ops| <= |st.ops| && fin.ops == st.ops[..|fin.ops|]
    && NoOpenParen(st.ops[|fin.ops|..])
    && (forall k :: |fin.ops| <= k < |st.ops| ==> Priority(st.ops[k]) >= p)
    && |fin.nums| + BinaryCount(st.ops[|fin.ops|..]) == |st.nums|
    && (|fin.ops| == |st.ops| ==> fin == st)
    && (|fin.ops| < |st.ops| ==>
          |fin.nums| >= 1 && fin.nums[..|fin.nums| - 1] == st.nums[..|fin.nums| - 1])
  }

  /** What `Reduce` leaves is `ReducedFrom` the stacks it started with; it
      fails only on a missing operand or a division by zero. */
  lemma {:induction false} ReduceShape(st: Stacks, p: int)
    requires StackOps(st.ops)
    ensures Reduce(st, p).Ok? ==> ReducedFrom(st, Reduce(st, p).value, p)
    ensures Reduce(st, p).Err? ==> Reduce(st, p).failure == EmptyStack || Reduce(st, p).failure == DivisionByZero
    decreases |st.ops|
  {
    if st.ops == [] || Priority(st.ops[|st.ops| - 1]) < p || st.ops[|st.ops| - 1] == '(' {
      NothingPopped(st.ops);
    } else {
      var top := st.ops[|st.ops| - 1];
      var rest := st.ops[..|st.ops| - 1];
      var next := Apply(st.nums, top);
      if next.Ok? {
        var st1 := Stacks(next.value, rest);
        ReduceShape(st1, p);
        if Reduce(st1, p).Ok? {
          ReduceStep(st, next.value, rest, top, Reduce(st1, p).value, p);
        }
      }
    }
  }

  /** When `Reduce` stops at once, nothing is popped. */
  lemma NothingPopped(ops: seq<char>)
    ensures ops[..|ops|] == ops && ops[|ops|..] == []
    ensures NoOpenParen(ops[|ops|..]) && BinaryCount(ops[|ops|..]) == 0
  {
  }

  /** `Reduce` on stacks where it stops at once. */
  lemma ReduceStopped(st: Stacks, p: int)
    requires StackOps(st.ops) && Stopped(st.ops, p)
    ensures Reduce(st, p) == Ok(st)
  {
  }

  /** `Reduce` after a top operator whose application fails. */
  lemma ReducePopFails(st: Stacks, p: int, e: Failure)
    requires StackOps(st.ops) && !Stopped(st.ops, p)
    requires Apply(st.nums, st.ops[|st.ops| - 1]) == Err(e)
    ensures Reduce(st, p) == Err(e)
  {
  }

  /** `Reduce` after a top operator whose application gives `next`. */
  lemma ReducePopApplies(st: Stacks, p: int, next: seq<Number>)
    requires StackOps(st.ops) && !Stopped(st.ops, p)
    requires Apply(st.nums, st.ops[|st.ops| - 1]) == Ok(next)
    ensures StackOps(st.ops[..|st.ops| - 1])
    ensures Reduce(st, p) == Reduce(Stacks(next, st.ops[..|st.ops| - 1]), p)
  {
  }

  /** A binary operator applied to the operand stack. */
  lemma ApplyBinary(nums: seq<Number>, op: char)
    requires IsBinary(op) && |nums| >= 2
    ensures Apply(nums, op) ==
              match Calc(nums[|nums| - 2], nums[|nums| - 1], op)
              case Err(e) => Err(e)
              case Ok(v) => Ok(nums[..|nums| - 2] + [v])
  {
  }

  /** One operator applied to the operand stack. */
  function Apply(nums: seq<Number>, op: char): (r: Result<seq<Number>>)
    requires IsStackOp(op) && op != '('
    ensures r.Ok? ==> |r.value| + (if IsBinary(op) then 1 else 0) == |nums|
    ensures r.Ok? ==> |r.value| >= 1 && r.value[..|r.value| - 1] == nums[..|r.value| - 1]
    ensures r.Err? ==> r.failure == EmptyStack || r.failure == DivisionByZero
    ensures r.Err? && r.failure == EmptyStack <==> |nums| < (if IsBinary(op) then 2 else 1)
    ensures op == '~' && |nums| >= 1 ==> r == Ok(nums[..|nums| - 1] + [Neg(nums[|nums| - 1])])
  {
    if op == '~' then
      if |nums| == 0 then Err(EmptyStack)
      else Ok(nums[..|nums| - 1] + [Neg(nums[|nums| - 1])])
    else if |nums| < 2 then Err(EmptyStack)
    else
      var v :- Calc(nums[|nums| - 2], nums[|nums| - 1], op);
      Ok(nums[..|nums| - 2] + [v])
  }

  /** The contract of `Reduce` carried over one popped operator. */
  lemma ReduceStep(st: Stacks, next: seq<Number>, rest: seq<char>, top: char, fin: Stacks, p: int)
    requires StackOps(st.ops) && st.ops != [] && top == st.ops[|st.ops| - 1] && rest == st.ops[..|st.ops| - 1]
    requires IsStackOp(top) && top != '(' && Priority(top) >= p
    requires |next| + (if IsBinary(top) then 1 else 0) == |st.nums|
    requires |next| >= 1 && next[..|next| - 1] == st.nums[..|next| - 1]
    requires ReducedFrom(Stacks(next, rest), fin, p)
    ensures ReducedFrom(st, fin, p)
  {
    var popped := st.ops[|fin.ops|..];
    assert popped == rest[|fin.ops|..] + [top];
    assert popped[..|popped| - 1] == rest[|fin.ops|..];
    assert |fin.nums| <= |next|;
  }

  // ------------------------------------------------------- operand lookup

  /** The start of the run of operand characters that ends just before `i`. */
  function TokenStart(s: string, i: nat): (f: nat)
    requires i <= |s|
    ensures f <= i
    ensures forall k :: f <= k < i ==> IsDigitOrX(s[k])
    ensures f == 0 || !IsDigitOrX(s[f - 1])
    decreases i
  {
    if i == 0 || !IsDigitOrX(s[i - 1]) then i else TokenStart(s, i - 1)
  }

  /** `hasPrevNum`: an operand ends just before `idx`, i.e. the run of
      operand characters ending there is not empty. */
  function HasPrevNum(idx: nat, s: string): (r: bool)
    ensures r <==> idx <= |s| && TokenStart(s, idx) < idx
  {
    if idx == 0 then false
    else if idx > |s| then false
    else IsDigitOrX(s[idx - 1])
  }

  /** The operand text that ends just before `i`. */
  function Token(s: string, i: nat): (t: string)
    requires i <= |s|
    ensures IsOperandText(t)
  {
    s[TokenStart(s, i)..i]
  }

  /** Push the operand ending before `i`, if there is one. */
  function PushOperand(s: string, i: nat, st: Stacks): (r: Result<Stacks>)
    requires i <= |s|
    ensures r.Ok? ==> r.value.ops == st.ops
    ensures !HasPrevNum(i, s) ==> r == Ok(st)
    ensures HasPrevNum(i, s) ==>
              match ParseNumber(Token(s, i))
              case Ok(n) => r == Ok(Stacks(st.nums + [n], st.ops))
              case Err(e) => r == Err(e)
  {
    if HasPrevNum(i, s) then
      var n :- ParseNumber(Token(s, i));
      Ok(Stacks(st.nums + [n], st.ops))
    else Ok(st)
  }

  // ----------------------------------------------------------------- the scan

  /** What the scan does with an operator character `c` once the operand
      before it is pushed: push `(`; for `)` reduce down to the nearest `(`
      and pop it; for any other operator reduce to its priority and push
      it.  A `)` with no `(` left is Java's `EmptyStackException`; a
      character with no priority is the `NullPointerException` of unboxing
      `prior.get(c)`. */
  function OperatorStep(st: Stacks, c: char): (r: Result<Stacks>)
    requires StackOps(st.ops)
    ensures r.Ok? ==> StackOps(r.value.ops)
  {
    if c == '(' then
      Ok(Stacks(st.nums, st.ops + ['(']))
    else if c == ')' then
      var st2 :- Reduce(st, 0);
      if st2.ops == [] then Err(EmptyStack)
      else Ok(Stacks(st2.nums, st2.ops[..|st2.ops| - 1]))
    else if !IsOperator(c) then
      Err(UnknownOperator(c))
    else
      var st2 :- Reduce(st, Priority(c));
      Ok(Stacks(st2.nums, st2.ops + [c]))
  }

  /** `(` is pushed; a character with no priority fails; `)` pops down to
      and including the nearest `(`, passing no other `(`; any other
      operator ends on top of the operator stack. */
  lemma OperatorStepShape(st: Stacks, c: char)
    requires StackOps(st.ops)
    ensures c == '(' ==> OperatorStep(st, c) == Ok(Stacks(st.nums, st.ops + ['(']))
    ensures !IsOperator(c) ==> OperatorStep(st, c) == Err(UnknownOperator(c))
    ensures var r := OperatorStep(st, c);
            c == ')' && r.Ok? ==>
              |r.value.ops| < |st.ops| && r.value.ops == st.ops[..|r.value.ops|] &&
              st.ops[|r.value.ops|] == '(' && NoOpenParen(st.ops[|r.value.ops| + 1..])
    ensures var r := OperatorStep(st, c);
            r.Ok? && c != '(' && c != ')' ==>
              IsStackOp(c) && r.value.ops != [] && r.value.ops[|r.value.ops| - 1] == c
  {
    if c == ')' {
      ReduceShape(st, 0);
      var st2 := Reduce(st, 0);
      if st2.Ok? && st2.value.ops != [] {
        var n := |st2.value.ops|;
        assert st.ops[n - 1] == st2.value.ops[n - 1];
        assert st2.value.ops[..n - 1] == st.ops[..n - 1];
      }
    }
  }

  /** `)` once the reduction to the parenthesis has left no operator. */
  lemma StepCloseEmpty(st: Stacks, st2: Stacks)
    requires StackOps(st.ops) && Reduce(st, 0) == Ok(st2) && st2.ops == []
    ensures OperatorStep(st, ')') == Err(EmptyStack)
  {
    var r := Reduce(st, 0);
    assert r.Ok? && r.value == st2;
  }

  /** `)` once the reduction to the parenthesis has left an operator. */
  lemma StepClose(st: Stacks, st2: Stacks)
    requires StackOps(st.ops) && Reduce(st, 0) == Ok(st2) && st2.ops != []
    ensures OperatorStep(st, ')') == Ok(Stacks(st2.nums, st2.ops[..|st2.ops| - 1]))
  {
    var r := Reduce(st, 0);
    assert r.Ok? && r.value == st2;
  }

  /** A binary operator or `~` once the reduction to its priority succeeded. */
  lemma StepPush(st: Stacks, st2: Stacks, c: char)
    requires StackOps(st.ops) && IsOperator(c) && c != '(' && c != ')'
    requires Reduce(st, Priority(c)) == Ok(st2)
    ensures OperatorStep(st, c) == Ok(Stacks(st2.nums, st2.ops + [c]))
  {
    var r := Reduce(st, Priority(c));
    assert r.Ok? && r.value == st2;
  }

  /** The body of the scan for an operator character `s[i]`: push the
      operand before it, then handle the operator. */
  function Step(s: string, i: nat, st: Stacks): (r: Result<Stacks>)
    requires i < |s| && StackOps(st.ops)
    ensures r.Ok? ==> StackOps(r.value.ops)
  {
    var st1 :- PushOperand(s, i, st);
    OperatorStep(st1, s[i])
  }

  /** The loop of `eval` from position `i` on: operand characters are
      skipped, every other character is a `Step`. */
  function ScanFrom(s: string, i: nat, st: Stacks): (r: Result<Stacks>)
    requires i <= |s| && StackOps(st.ops)
    ensures r.Ok? ==> StackOps(r.value.ops)
    decreases |s| - i
  {
    if i == |s| then Ok(st)
    else if IsDigitOrX(s[i]) then ScanFrom(s, i + 1, st)
    else
      var st1 :- Step(s, i, st);
      ScanFrom(s, i + 1, st1)
  }

  /** One round of the scan at an operator character. */
  lemma ScanUnfold(s: string, i: nat, st: Stacks)
    requires i < |s| && !IsDigitOrX(s[i]) && StackOps(st.ops)
    ensures ScanFrom(s, i, st) == match Step(s, i, st)
                                  case Err(e) => Err(e)
                                  case Ok(st1) => ScanFrom(s, i + 1, st1)
  {
  }

  /** The end of `eval`: push the last operand, reduce everything, and take
      the single operand left.  Anything else left over fails the source's
      assertions (`Unreduced`). */
  function Finish(s: string, st: Stacks): (r: Result<Number>)
    requires StackOps(st.ops)
  {
    var st1 :- PushOperand(s, |s|, st);
    Collapse(st1)
  }

  /** Reduce everything on the stacks and take the single operand left. */
  function Collapse(st: Stacks): (r: Result<Number>)
    requires StackOps(st.ops)
  {
    var st2 :- Reduce(st, 0);
    if |st2.nums| == 1 && st2.ops == [] then Ok(st2.nums[0]) else Err(Unreduced)
  }

  /** `eval` after `preprocess`: an empty side is `(0, 0)`; otherwise the
      scan and the final reduction. */
  function EvalPreprocessed(e: string): Result<Number> {
    if e == [] then Ok(Number(0, 0))
    else
      var st :- ScanFrom(e, 0, Stacks([], []));
      Finish(e, st)
  }

  /** `eval` without the `--` rewrite of `preprocess`, where `a--b` means
      `a - (-b)`.  An expression with nothing but spaces is `(0, 0)`. */
  function EvalResultIntended(expr: string): (r: Result<Number>)
    ensures Drop(' ', expr) == [] ==> r == Ok(Number(0, 0))
  {
    InsertZerosHead(expr);
    EvalPreprocessed(PreprocessedIntended(expr))
  }

  /** `eval`: the `a·x + b` form an expression denotes.  An expression with
      nothing but spaces is `(0, 0)`. */
  function EvalResult(expr: string): (r: Result<Number>)
    ensures Drop(' ', expr) == [] ==> r == Ok(Number(0, 0))
  {
    NormalizeShape(expr);
    EvalPreprocessed(Preprocessed(expr))
  }
}
