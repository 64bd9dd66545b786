/** The class `EquationSolver`: its two stacks are fields that `compute`,
    `eval` and `solve` update in place.  Each method is proved to agree
    with the function of `Reduction` or `Solving` that specifies it. */
module Solver {
  import opened Outcomes
  import opened Numbers
  import opened Preprocessing
  import opened Reduction
  import opened Solving

  datatype Option<T> = None | Some(value: T)

  class EquationSolver {
    /** The operand stack, top last. */
    var nums: seq<Number>
    /** The operator stack, top last. */
    var ops: seq<char>

    /** Only operators with a priority, and never `)`, are on the operator stack. */
    ghost predicate Valid()
      reads this
    {
      StackOps(ops)
    }

    constructor()
      ensures Valid() && nums == [] && ops == []
    {
      nums := [];
      ops := [];
    }

    /** `compute(p)`: the loop that pops and applies operators; a Java
        exception thrown inside it is returned as the failure. */
    method Compute(p: int) returns (failure: Option<Failure>)
      requires Valid()
      modifies this
      ensures Valid()
      ensures match Reduce(old(Stacks(nums, ops)), p)
              case Ok(st) => failure == None && nums == st.nums && ops == st.ops
              case Err(e) => failure == Some(e)
    {
      ghost var start := Stacks(nums, ops);
      while ops != []
        invariant StackOps(ops)
        invariant Reduce(Stacks(nums, ops), p) == Reduce(start, p)
        decreases |ops|
      {
        var top := ops[|ops| - 1];
        if Priority(top) < p {
          break;
        }
        if top == '(' {
          break;
        }
        ghost var before := Stacks(nums, ops);
        ops := ops[..|ops| - 1];
        var applied := ApplyTop(nums, top);
        if applied.Err? {
          ReducePopFails(before, p, applied.failure);
          return Some(applied.failure);
        }
        nums := applied.value;
        ReducePopApplies(before, p, nums);
      }
      ReduceStopped(Stacks(nums, ops), p);
      return None;
    }

    /** The body of the loop of `compute` once `top` is popped: pop one
        operand for `~`, two for a binary operator, and push the result. */
    static method ApplyTop(nums: seq<Number>, top: char) returns (r: Result<seq<Number>>)
      requires IsStackOp(top) && top != '('
      ensures r == Apply(nums, top)
    {
      var stack := nums;
      var res: Number;
      if top == '~' {
        if stack == [] {
          return Err(EmptyStack);
        }
        var num := stack[|stack| - 1];
        stack := stack[..|stack| - 1];
        res := Neg(num);
      } else {
        if stack == [] {
          return Err(EmptyStack);
        }
        var num2 := stack[|stack| - 1];
        stack := stack[..|stack| - 1];
        if stack == [] {
          return Err(EmptyStack);
        }
        var num1 := stack[|stack| - 1];
        stack := stack[..|stack| - 1];
        ApplyBinary(nums, top);
        assert nums[..|nums| - 2] == stack;
        var value := Calc(num1, num2, top);
        if value.Err? {
          return Err(value.failure);
        }
        res := value.value;
      }
      return Ok(stack + [res]);
    }

    /** `getPrevNum`: scan back from `i` over operand characters and parse
        the run found. */
    static method GetPrevNum(i: nat, expr: string) returns (r: Result<Number>)
      requires HasPrevNum(i, expr)
      ensures r == ParseNumber(expr[TokenStart(expr, i)..i])
    {
      var first: int := i - 1;
      while first >= 0
        invariant -1 <= first < i
        invariant TokenStart(expr, first + 1) == TokenStart(expr, i)
        decreases first
      {
        if !IsDigitOrX(expr[first]) {
          break;
        }
        first := first - 1;
      }
      first := first + 1;
      r := ParseNumber(expr[first..i]);
    }

    /** The `if (hasPrevNum(i, expr)) nums.push(getPrevNum(i, expr))` of
        `eval`; a `NumberFormatException` is returned as the failure. */
    method PushPrevNum(i: nat, expr: string) returns (failure: Option<Failure>)
      requires i <= |expr|
      modifies this
      ensures ops == old(ops)
      ensures match PushOperand(expr, i, old(Stacks(nums, ops)))
              case Ok(st) => failure == None && nums == st.nums && ops == st.ops
              case Err(e) => failure == Some(e)
    {
      if HasPrevNum(i, expr) {
        var num := GetPrevNum(i, expr);
        if num.Err? {
          return Some(num.failure);
        }
        nums := nums + [num.value];
      }
      return None;
    }

    /** The handling of an operator character `c` in the loop of `eval`;
        a Java exception is returned as the failure. */
    method HandleOperator(c: char) returns (failure: Option<Failure>)
      requires Valid()
      modifies this
      ensures Valid()
      ensures match OperatorStep(old(Stacks(nums, ops)), c)
              case Ok(st) => failure == None && nums == st.nums && ops == st.ops
              case Err(e) => failure == Some(e)
    {
      ghost var before := Stacks(nums, ops);
      if c == '(' {
        ops := ops + [c];
      } else if c == ')' {
        failure := Compute(0);
        if failure.Some? {
          return;
        }
        if ops == [] {
          StepCloseEmpty(before, Stacks(nums, ops));
          return Some(EmptyStack);
        }
        StepClose(before, Stacks(nums, ops));
        ops := ops[..|ops| - 1];
      } else {
        if !IsOperator(c) {
          return Some(UnknownOperator(c));
        }
        failure := Compute(Priority(c));
        if failure.Some? {
          return;
        }
        StepPush(before, Stacks(nums, ops), c);
        ops := ops + [c];
      }
      return None;
    }

    /** The loop of `eval` over the preprocessed expression `e`; a Java
        exception thrown inside it is returned as the failure. */
    method Scan(e: string) returns (failure: Option<Failure>)
      requires Valid()
      modifies this
      ensures Valid()
      ensures match ScanFrom(e, 0, old(Stacks(nums, ops)))
              case Ok(st) => failure == None && nums == st.nums && ops == st.ops
              case Err(x) => failure == Some(x)
    {
      ghost var start := Stacks(nums, ops);
      var n := |e|;
      for i := 0 to n
        invariant StackOps(ops)
        invariant ScanFrom(e, i, Stacks(nums, ops)) == ScanFrom(e, 0, start)
      {
        var c := e[i];
        if !IsDigitOrX(c) {
          ghost var before := Stacks(nums, ops);
          ScanUnfold(e, i, before);
          failure := PushPrevNum(i, e);
          if failure.Some? {
            return;
          }
          failure := HandleOperator(c);
          if failure.Some? {
            return;
          }
          assert Step(e, i, before) == Ok(Stacks(nums, ops));
        }
      }
      return None;
    }

    /** `eval`: clear both stacks, preprocess, scan, and reduce what is
        left; the result is the single operand remaining. */
    method Eval(expr: string) returns (r: Result<Number>)
      modifies this
      ensures Valid()
      ensures r == EvalResult(expr)
      ensures r.Ok? ==> nums == [] && ops == []
    {
      nums := [];
      ops := [];
      var e := Preprocess(expr);
      if |e| == 0 {
        return Ok(Number(0, 0));
      }
      var failure := Scan(e);
      if failure.Some? {
        return Err(failure.value);
      }
      failure := PushPrevNum(|e|, e);
      if failure.Some? {
        return Err(failure.value);
      }
      failure := Compute(0);
      if failure.Some? {
        return Err(failure.value);
      }
      if |nums| != 1 || ops != [] {
        return Err(Unreduced);
      }
      r := Ok(nums[0]);
      nums := [];
    }

    /** `solve`: split the statement at `=`, evaluate both sides and
        classify `a·x = b`. */
    method Solve(stmt: string) returns (sol: Solution)
      requires Valid()
      modifies this
      ensures Valid()
      ensures sol == SolveResult(stmt)
      ensures !sol.NotAnEquation? && !sol.Failed? ==> nums == [] && ops == []
    {
      var exprs := Split(stmt, '=');
      if |exprs| != 2 {
        return NotAnEquation;
      }
      var left := Eval(exprs[0]);
      if left.Err? {
        return Failed(left.failure);
      }
      var right := Eval(exprs[1]);
      if right.Err? {
        return Failed(right.failure);
      }
      sol := Classify(left.value, right.value);
    }
  }
}
