# Linear equation solver — a Dafny model

This project models the core of `Main.java`, a small solver for linear
equations in one variable `x` such as `-(4 + x) * 2 + 5x = 2x + 10`.

- **`Number`** is the pair `(a, b)` that stands for `a·x + b`. The model
  keeps its token parser (the constructor) and its closed arithmetic
  (`calc`, `add`, `sub`, `mul`, `div`, `neg`). It lives in the `Numbers`
  module, with Java's truncating `/` and `%` in `JavaInt`.
- **`preprocess`** removes spaces and inserts a `0` in front of a leading
  sign, after `(` before a sign and between `+-`. It then rewrites every
  `--` to `-0-`, and marks every unary minus as `~` in an in-place pass
  over a character array. This is module `Preprocessing`.
- **`eval` and `compute`** form the two-stack operator-precedence
  reducer. It has an operand stack of `Number`s, an operator stack of
  characters and the priority table. `Reduction` states it as functions,
  and the class `Solver.EquationSolver` keeps the two stacks as fields,
  updated in place by `Compute`, `Eval` and `Solve`. Each method is proved
  equal to the function that specifies it.
- **`solve`** splits the statement at `=` with Java's `split`, which drops
  trailing empty pieces. It evaluates both sides and classifies `a·x = b`.
  `Solving` holds it.

A Java exception becomes a `Failure` value:
- `NumberFormatException` is `BadToken`;
- the `NullPointerException` of a missing priority is `UnknownOperator`;
- `EmptyStackException` is `EmptyStack`;
- `ArithmeticException` is `DivisionByZero`;
- a failed final assertion of `eval` is `Unreduced`.

`Evaluation` proves what `eval` computes for the shapes of expression the
solver is built for:
- one operand;
- two operands;
- three operands under both precedence orders;
- a parenthesised pair;
- a negated operand.

`Examples` works through three of the built-in statements and the `3--2`
discrepancy.

The model follows the code, also where the code departs from its evident
intent:
- `solve` accepts a statement with trailing `=` signs (`a=b=`), because
  `split` drops the empty pieces after them.
- `mul` silently drops the `x²` term, and `div` ignores the divisor's `x`
  part. Neither is reported as an error.
- `--` is rewritten to `-0-`, so `u--v` means `u - 0 - v` and not
  `u - (-v)` (see Findings). `Preprocessed`, `EvalResult`, `SolveResult`
  and the class `EquationSolver` all follow the code here. The pipeline
  without that rewrite is kept beside it as `PreprocessedIntended` and
  `EvalResultIntended`.

## Model

| member | source | states |
|---|---|---|
| JavaInt.TruncDiv | Main.java:272-273 | Java's `/` on `int`, rounding toward zero; what that means is proved by `TruncDivSpec` |
| JavaInt.TruncRem | Main.java:78 | Java's `%` on `int`; proved by `TruncRemSpec` and `RemZeroIffDivides` |
| JavaInt.TruncDivSpec | Main.java:272-273 | Java's `/` truncates toward zero: the remainder `x - q·y` is smaller than `y` in magnitude, is zero or has the sign of `x`, and `abs(q·y) <= abs(x)` |
| JavaInt.TruncRemSpec | Main.java:78 | Java's `%` recombines with `/` (`x == q·y + r`), `abs(r) < abs(y)`, and a non-zero `r` has the sign of `x` |
| JavaInt.RemZeroIffDivides | Main.java:78-79 | `b % a == 0` exactly when `a` divides `b`, and then `(b / a)·a == b` |
| JavaInt.QuotientUnique | Main.java:79 | for an exact multiple `x = k·y`, Java's `x / y` is `k` |
| Numbers.ValueDetermines | Main.java:209-212 | a pair `(a, b)` is determined by the values of `a·x + b` at 0 and 1, so it means exactly that linear form |
| Numbers.Add | Main.java:249-254 | `add`, fieldwise; `AddSubNegValue` proves it adds the values at every `x` |
| Numbers.Sub | Main.java:256-261 | `sub`, fieldwise; `AddSubNegValue` proves it subtracts the values at every `x` |
| Numbers.Neg | Main.java:277-282 | `neg`, fieldwise; `AddSubNegValue` proves it negates the value at every `x` |
| Numbers.Mul | Main.java:263-268 | `mul`; `MulValue` and `MulExactIff` state what it computes and when it is exact |
| Numbers.Div | Main.java:270-275 | `div`, by the divisor's constant only; `DivBounds`, `DivValue` and `DivExact` state what it computes |
| Numbers.AddSubNegValue | Main.java:249-261 | `add`, `sub` and `neg` are addition, subtraction and negation of the forms' values at every `x` |
| Numbers.MulValue | Main.java:263-268 | the product of the values is the value of `mul` plus the dropped term `a1·a2·x²` |
| Numbers.MulExactIff | Main.java:263-268 | `mul` is the product at every `x` if and only if one factor has no `x` part |
| Numbers.DivBounds | Main.java:270-275 | each field of `div` is truncated: its multiple of the divisor is no larger in magnitude than the field |
| Numbers.DivValue | Main.java:270-275 | the dividend's value is the quotient's value times the divisor's constant plus the fieldwise remainders |
| Numbers.DivExact | Main.java:270-275 | when the divisor is a constant that divides both fields, `div` inverts multiplication at every `x` |
| Numbers.Calc | Main.java:231-246 | `calc` fails only for `/` by a divisor with constant part 0; any other operator yields `(0, 0)` |
| Numbers.CalcValue | Main.java:231-246 | `+` and `-` are the sum and difference of values; `*` is the product when one side is constant; an exact `/` undoes `*` |
| Numbers.ParseNumber | Main.java:213-229 | `""` is `(0,0)`, `x` is `(1,0)`, a digit run `n` is `(0,n)`, `nx` is `(n,0)`; any other operand text fails with `BadToken` |
| Numbers.IsNum | Main.java:284-287 | `isnum`: a non-empty token is a constant when its last character is not `x`; `ParseNumber`, `ParseDigits` and `ParseDigitsX` show the two readings it selects |
| Numbers.IsDigitOrX | Main.java:289-291 | an ASCII digit or `x`; the scan and `TokenStart` use it to delimit operands |
| Numbers.ParseDigits | Main.java:219-220 | the decimal text of every `n` parses to `(0, n)` |
| Numbers.ParseDigitsX | Main.java:222-227 | the decimal text of every `n` followed by `x` parses to `(n, 0)` |
| Preprocessing.ReplaceAll | Main.java:137-155 | `String.replace`, left to right and without overlaps; `ReplaceCharByNothing`, `ReplaceAllDrop`, `ReplaceAllNoPair` and `InsertZeroPairs` state what it does |
| Preprocessing.ReplaceCharByNothing | Main.java:137 | replacing a one-character text by nothing deletes every occurrence of that character |
| Preprocessing.ReplaceAllDrop | Main.java:149-155 | when the replacement differs from the pattern only by `0`s, the text with its `0`s taken out is unchanged |
| Preprocessing.ReplaceAllNoPair | Main.java:149-155 | a text without the two-character pattern is left as it is |
| Preprocessing.InsertZeroPairs | Main.java:149-155 | after putting `0` between every `cd` (`c` and `d` different), no `cd` is left, and a pair absent before stays absent |
| Preprocessing.Drop | Main.java:137 | `replace(" ", "")` leaves no space and never lengthens the text |
| Preprocessing.MarkNegation | Main.java:157-163 | the negation pass keeps the length and the first character, and rewrites each later character from the already rewritten one before it |
| Preprocessing.MarkNegationUnique | Main.java:157-163 | that left-to-right description determines the pass's result |
| Preprocessing.MarkNegationInPlace | Main.java:157-163 | the loop over the character array leaves exactly `MarkNegation` of the old contents |
| Preprocessing.Preprocess | Main.java:135-167 | `preprocess`, step by step as written (spaces, leading signs, the four `replace`s including `--` to `-0-`, then the in-place negation loop), returns exactly `Preprocessed` |
| Preprocessing.InsertZeros | Main.java:137-153 | the rewrites of `preprocess` before its `--` rewrite; its lemmas below state what they leave |
| Preprocessing.InsertZerosHead | Main.java:137-147 | that text is empty exactly when the input holds only spaces, and never starts with `+` or `-` |
| Preprocessing.InsertZerosNoSpaces | Main.java:137 | no space is left in it |
| Preprocessing.InsertZerosOnlyZeros | Main.java:137-153 | those rewrites only remove spaces and insert `0`s: with all `0`s removed, the output equals the input with spaces and `0`s removed |
| Preprocessing.InsertZerosNoPairs | Main.java:149-153 | no `(+`, `(-` or `+-` is left |
| Preprocessing.Normalize | Main.java:137-155 | the whole normalisation of `preprocess`, the `--` rewrite included; `NormalizeShape` states what it leaves |
| Preprocessing.NormalizeShape | Main.java:137-155 | after the whole normalisation: empty exactly for all-space input, no leading sign, no spaces, only `0`s inserted, and no `(+`, `(-` or `+-` |
| Preprocessing.NormalizeHead | Main.java:137-155 | the emptiness, leading-sign and no-space facts of `NormalizeShape` |
| Preprocessing.NormalizeOnlyZeros | Main.java:137-155 | the normalisation only removes spaces and inserts `0`s |
| Preprocessing.NormalizeNoPairs | Main.java:149-155 | the `--` rewrite leaves no `(+`, `(-` or `+-` behind |
| Preprocessing.Preprocessed | Main.java:135-167 | what `preprocess` returns; `PreprocessedShape` and `Preprocess` state what it is |
| Preprocessing.PreprocessedIntended | Main.java:135-167 | `preprocess` without its `--` rewrite, the corrected reading of Findings; `NegatedMarked` and `DoubleMinus` use it |
| Preprocessing.PreprocessedShape | Main.java:135-167 | after `preprocess`: empty exactly for all-space input, no spaces, no leading sign, no `(+`, and every `-` left is binary (not after `+ - * / (`) |
| Preprocessing.NormalizePlain | Main.java:137-155 | a side with no spaces, no leading sign and none of `(+ (- +- --` is left as it is by the normalisation |
| Preprocessing.PreprocessedPlain | Main.java:135-167 | a side as above in which no `-` follows `+ - * / (` is left as it is by `preprocess`, with or without the `--` rewrite |
| Reduction.Priority | Main.java:50-56 | the priority table: `+ -` are 1, `* /` are 2, `~` is 3, `( )` are 4 |
| Reduction.Apply | Main.java:193-204 | one step of `compute`: `~` negates the top operand; a binary operator replaces the two top operands by one; lower operands are kept; `EmptyStack` exactly when too few operands |
| Reduction.Reduce | Main.java:187-206 | `compute(p)` ends with an empty operator stack, an `(` on top or a top of priority below `p` |
| Reduction.ReduceShape | Main.java:187-206 | `compute(p)` pops only a suffix of operators, none of them `(` and all of priority at least `p`; it removes one operand per binary operator popped and leaves lower operands alone; it fails only with `EmptyStack` or `DivisionByZero` |
| Reduction.HasPrevNum | Main.java:169-174 | `hasPrevNum(i, s)` holds exactly when `i <= length` and an operand run ends just before `i` |
| Reduction.TokenStart | Main.java:176-185 | the run found by scanning back from `i` is maximal: all operand characters, and not preceded by one |
| Reduction.PushOperand | Main.java:101-103 | the operand before `i` is pushed when there is one, the operator stack is unchanged, and a bad token fails |
| Reduction.OperatorStepShape | Main.java:105-116 | `(` is pushed; `)` pops down to and including the nearest `(`; any other operator is reduced against and then pushed on top; a character without priority fails |
| Reduction.OperatorStep | Main.java:105-116 | one operator character keeps the operator stack holding only operators with a priority, never `)` |
| Reduction.Step | Main.java:99-117 | one round of the loop of `eval` keeps that invariant of the operator stack |
| Reduction.ScanFrom | Main.java:97-118 | the loop of `eval` keeps that invariant of the operator stack |
| Reduction.Finish | Main.java:120-133 | the end of `eval`: push the last operand, reduce everything, and return the single operand left (else `Unreduced`); `EvalAfterScan` and `FinishPair` state it on whole sides |
| Reduction.Collapse | Main.java:125-133 | `compute(0)` and the final pop; `FinishPair`, `FinishTriple` and `CollapseNegTop` state its results |
| Reduction.EvalPreprocessed | Main.java:92-133 | `eval` after `preprocess`: an empty text is `(0, 0)`, else scan and finish; the `Evaluation` lemmas state its values |
| Reduction.EvalResult | Main.java:87-133 | `eval` as written: an expression of nothing but spaces evaluates to `(0, 0)`; the `Evaluation` lemmas state its other values |
| Reduction.EvalResultIntended | Main.java:87-133 | `eval` without the `--` rewrite: an expression of nothing but spaces evaluates to `(0, 0)`; `DoubleMinus` and `EvalNegatedIntended` state its values on `u--v` |
| Solver.EquationSolver.constructor | Main.java:46-49 | a new solver has two empty stacks |
| Solver.EquationSolver.Compute | Main.java:187-206 | the loop leaves the stacks `compute(p)` specifies, or reports its exception |
| Solver.EquationSolver.ApplyTop | Main.java:193-204 | the pops and push of one loop round compute `Apply` |
| Solver.EquationSolver.GetPrevNum | Main.java:176-185 | the backward scan parses exactly the maximal operand run ending before `i` |
| Solver.EquationSolver.PushPrevNum | Main.java:101-103 | pushes the previous operand as `PushOperand` says, leaving the operator stack alone |
| Solver.EquationSolver.HandleOperator | Main.java:105-116 | one operator character updates the stacks as `OperatorStep` says |
| Solver.EquationSolver.Scan | Main.java:94-118 | the loop of `eval` leaves the stacks the scan specifies |
| Solver.EquationSolver.Eval | Main.java:87-133 | `eval` on the fields returns `EvalResult`, whatever the stacks held before, and a successful `eval` leaves both stacks empty |
| Solver.EquationSolver.Solve | Main.java:59-85 | `solve` returns `SolveResult`, and leaves both stacks empty when both sides evaluated |
| Solving.SplitAll | Main.java:60 | cutting at every `=` gives at least one piece, none holding an `=` |
| Solving.DropTrailingEmpty | Main.java:60 | `split` drops exactly the trailing empty pieces: what is kept is a prefix ending in a non-empty piece, and only empty pieces follow it |
| Solving.TrimEnd | Main.java:60 | the statement with its trailing `=`s dropped is a prefix not ending in `=`, followed only by `=`s |
| Solving.DropTrailingSplit | Main.java:60 | dropping trailing empty pieces is cutting the statement with its trailing `=`s dropped |
| Solving.SplitAllCount | Main.java:60 | cutting at every `=` gives one piece more than there are `=`s |
| Solving.SplitAllJoin | Main.java:60 | joining the pieces with `=` gives the statement back |
| Solving.SplitJoin | Main.java:60 | cutting pieces joined by `=` gives the pieces back |
| Solving.SplitTwo | Main.java:60-63 | `split("=")` gives two pieces exactly when one `=` is left after trailing `=`s are dropped; the pieces joined by `=` give that text |
| Solving.SplitEquation | Main.java:60 | `l=r` with `=`-free sides splits into `[l, r]`, into `[l]` when `r` is empty, and into nothing when both are |
| Solving.Split | Main.java:60 | `split("=")`; `SplitTwo`, `SplitEquation` and `DropTrailingSplit` state what it returns |
| Solving.Classify | Main.java:68-84 | the answer for sides `l` and `r` is one of Infinite, No solution, an integer or a fraction; `ClassifyMeaning` states which, and that a fraction is `b/a` |
| Solving.LinearEquation | Main.java:68-70 | `t` solves `left = right` exactly when `a·t == b`, for `a = aL - aR` and `b = bR - bL` |
| Solving.ClassifyMeaning | Main.java:68-84 | Infinite means every `x` solves it; No solution comes exactly when `aL == aR` and `bL != bR`; No solution or a fraction means none does; the integer answer is the only solution; a fraction is `NonInteger(b, a)` with `b = bR - bL` and `a = aL - aR`, `a` does not divide `b`, and `t` solves the equation exactly when `a·t == b` |
| Solving.SolveResult | Main.java:59-63 | the answer is "not a valid equation" exactly when the statement, trailing `=`s dropped, does not hold exactly one `=` |
| Solving.SolveEquation | Main.java:59-85 | `l=r` is answered by evaluating `l`, then `r`, and classifying; a failure of either side is the answer |
| Evaluation.FlatPreprocessed | Main.java:135-167 | `preprocess` leaves operands joined by single binary operators unchanged |
| Evaluation.EvalOne | Main.java:87-133 | one operand evaluates to its parse |
| Evaluation.EvalTwo | Main.java:87-133 | `u op v` evaluates to `calc(u, v, op)` |
| Evaluation.EvalThree | Main.java:187-206 | `u op1 v op2 w` applies `op1` first exactly when its priority is at least that of `op2` |
| Evaluation.EvalThreeOperands | Main.java:187-206 | the same, built from three operand texts |
| Evaluation.EvalParenthesised | Main.java:105-111 | in `(u op1 v) op2 w` the group is reduced first, whatever the priorities |
| Evaluation.NegatedMarked | Main.java:149-163 | in `u op -w`, without the `--` rewrite exactly the second sign is marked `~` for `op` one of `- * /`; the source's `preprocess` does the same for `op` one of `* /` |
| Evaluation.EvalNegated | Main.java:195-198 | `u op -w` for `op` one of `* /` evaluates to `calc(u, neg(w), op)` |
| Evaluation.EvalNegatedIntended | Main.java:195-198 | without the `--` rewrite, `u op -w` for `op` one of `- * /` evaluates to `calc(u, neg(w), op)` |
| Evaluation.EvalNegatedOperands | Main.java:195-198 | the same as `EvalNegated`, built from two operand texts |
| Evaluation.EvalThreeNegated | Main.java:187-206 | `u op1 v op2 -w` with `op2` one of `* /` follows the precedence of the three-operand case, with `w` negated |
| Evaluation.DoubleMinusRewritten | Main.java:155 | as written, `u--v` is rewritten to `u-0-v` |
| Evaluation.DoubleMinusAsWritten | Main.java:155 | as written, `u--v` evaluates to `(u - 0) - v` |
| Evaluation.DoubleMinusAsWrittenValue | Main.java:155 | as written, `u--v` has the value `u - v` at every `x` |
| Evaluation.DoubleMinus | Main.java:155-163 | corrected (`EvalResultIntended`), `u--v` evaluates to `u - (-v)` |
| Evaluation.DoubleMinusValue | Main.java:155-163 | corrected (`EvalResultIntended`), `u--v` has the value `u + v` at every `x` |
| Evaluation.EvalIgnoresSpaces | Main.java:137 | spaces do not change what an expression evaluates to |
| Evaluation.EvalLeadingMinus | Main.java:145-147 | a leading `-` reads as `0-` |
| Examples.FirstLine | Main.java:8 | `-x + 3 = 6` is answered `x = -3` |
| Examples.ThirdLine | Main.java:10 | `x + 3 = x + 6` is answered "No solution" |
| Examples.SeventhLine | Main.java:14 | `3 * -2 = -2x / -1` is answered `x = -3`, the sides being `(0,-6)` and `(2,0)` |
| Examples.Precedence | Main.java:50-53 | `2+3*4` is 14 |
| Examples.Accumulation | Main.java:249-254 | `x+x+x` is `3x` |
| Examples.Parenthesised | Main.java:105-111 | `(2+3)*4` is 20 |
| Examples.DoubleMinusCounterexample | Main.java:155 | `3--2` evaluates to 1 as written and to 5 when corrected |
| Examples.DoubleMinusStatement | Main.java:155 | so `3--2=1` is answered "Infinite solutions" |

## Left out

- `Main.main` (Main.java:4-35) is not modelled: it reads the built-in test lines with a `Scanner` and prints. Three of its lines are worked through in `Examples`.
- The fraction answer of `solve` (Main.java:80-82) uses `double` and `%f` formatting. It is modelled as `NonInteger(b, a)`, carrying the numerator and the denominator.
- `System.err` printing in `calc`'s default case (Main.java:241-243) is left out. The `(0, 0)` result is kept. `Reduce` never passes `calc` such an operator.
- The `HashMap` of priorities (Main.java:47-56) is the function `Reduction.Priority`. A character without an entry gives `UnknownOperator`, where Java throws a `NullPointerException`.
- Numbers.ParseNumber: `Integer.valueOf` throws for values beyond 32 bits; here any digit run parses to its unbounded value.
- Numbers.IsDigit: Java's `Character.isDigit` also accepts non-ASCII digits; only `0`–`9` are modelled.
- Numbers.Add: the 32-bit wrap-around of Java's `int` is not modelled; integers are unbounded.
- Numbers.Sub: the 32-bit wrap-around is not modelled.
- Numbers.Mul: the 32-bit wrap-around is not modelled.
- Numbers.Neg: negating `Integer.MIN_VALUE` wraps in Java; not modelled.
- Numbers.Div: `Integer.MIN_VALUE / -1` wraps in Java; not modelled.
- Solving.Classify: the subtractions `aL - aR` and `bR - bL` and the quotient `b / a` may wrap in Java; not modelled.
- Solver.EquationSolver.Eval: the `assert`s at Main.java:128-129 are modelled as the failure `Unreduced`. The JVM disables `assert` by default, and the source would then simply pop the top operand, or throw `EmptyStackException` when none is left (as on the input `()`). The model reports `Unreduced` in both cases.
- Evaluation.EvalNegated: covers `op` one of `* /` only. For `u--v` the source's `--` rewrite applies, and `DoubleMinusAsWritten` states what `eval` then gives.
- Evaluation.EvalNegatedOperands: covers `op` one of `* /` only, for the same reason.
- Evaluation.EvalThreeNegated: covers `op2` one of `* /` only, for the same reason.
- Evaluation.NegatedMarked: states the source's `preprocess` of `u op -w` for `op` one of `* /` only. For `-` it states the pipeline without the `--` rewrite, and `DoubleMinusRewritten` states the source's.
- Evaluation: what `eval` computes is proved for the shapes listed above. No closed-form meaning is proved for arbitrarily nested expressions.

## Findings

| source | as written | input that shows it | evidently intended | confidence | as-written member | corrected member |
|---|---|---|---|---|---|---|
| Main.java:155 | `--` is rewritten to `-0-`, so `u--v` means `u - 0 - v` | `3--2` evaluates to `(0, 1)` | `u--v` is `u - (-v)`, so `3--2` is `(0, 5)`; the other rewrites (`(-`, `+-`) keep the meaning | high (proved; not executed) | Evaluation.DoubleMinusAsWritten | Evaluation.DoubleMinus |

The corrected definition is `Reduction.EvalResultIntended`, built on
`Preprocessing.PreprocessedIntended`. `EvalResult`, `SolveResult` and the
solver class keep the code's behaviour.
