/** The class `Number` of the source: a pair `(a, b)` standing for the
    linear form `a·x + b`, its parser for operand texts, and its closed
    arithmetic. */
module Numbers {
  import opened JavaInt
  import opened Outcomes

  datatype Number = Number(a: int, b: int)

  /** The value of the linear form at `x = t`: what a `Number` means. */
  function Value(n: Number, t: int): int {
    n.a * t + n.b
  }

  /** Two linear forms that agree at 0 and at 1 are the same pair, so a
      `Number` is determined by its values. */
  lemma ValueDetermines(m: Number, n: Number)
    requires Value(m, 0) == Value(n, 0) && Value(m, 1) == Value(n, 1)
    ensures m == n
  {
    assert m.b == Value(m, 0) && n.b == Value(n, 0);
    assert m.a == Value(m, 1) - m.b && n.a == Value(n, 1) - n.b;
  }

  // ---------------------------------------------------------------- arithmetic

  /** `add`. */
  function Add(m: Number, n: Number): Number {
    Number(m.a + n.a, m.b + n.b)
  }

  /** `sub`. */
  function Sub(m: Number, n: Number): Number {
    Number(m.a - n.a, m.b - n.b)
  }

  /** `neg`. */
  function Neg(m: Number): Number {
    Number(-m.a, -m.b)
  }

  /** `mul`: distributes and keeps only the `x` and constant terms. */
  function Mul(m: Number, n: Number): Number {
    Number(m.a * n.b + m.b * n.a, m.b * n.b)
  }

  /** `add`, `sub` and `neg` give the form of the sum, the difference and
      the negation at every point `x = t`. */
  lemma AddSubNegValue(m: Number, n: Number, t: int)
    ensures Value(Add(m, n), t) == Value(m, t) + Value(n, t)
    ensures Value(Sub(m, n), t) == Value(m, t) - Value(n, t)
    ensures Value(Neg(m), t) == -Value(m, t)
  {
  }

  /** The product of two forms is what `mul` gives plus the `x²` term
      `mul` drops. */
  lemma MulValue(m: Number, n: Number, t: int)
    ensures Value(m, t) * Value(n, t) == m.a * n.a * (t * t) + Value(Mul(m, n), t)
  {
    var a, b, c, d := m.a, m.b, n.a, n.b;
    calc {
      Value(m, t) * Value(n, t);
      (a * t + b) * (c * t + d);
      { assert (a * t + b) * (c * t + d) == (a * t) * (c * t) + (a * t) * d + b * (c * t) + b * d; }
      (a * t) * (c * t) + (a * t) * d + b * (c * t) + b * d;
      { assert (a * t) * (c * t) == a * c * (t * t);
        assert (a * t) * d + b * (c * t) == (a * d + b * c) * t; }
      a * c * (t * t) + (a * d + b * c) * t + b * d;
    }
  }

  /** `mul` gives the product form exactly when at most one factor mentions
      `x`; otherwise the lost `x²` term shows at `x = 1`. */
  lemma MulExactIff(m: Number, n: Number)
    ensures (forall t :: Value(Mul(m, n), t) == Value(m, t) * Value(n, t)) <==> (m.a == 0 || n.a == 0)
  {
    if m.a != 0 && n.a != 0 {
      MulValue(m, n, 1);
      assert m.a * n.a != 0;
    } else {
      forall t
        ensures Value(Mul(m, n), t) == Value(m, t) * Value(n, t)
      {
        MulValue(m, n, t);
      }
    }
  }

  /** `div` truncate-divides both fields by the divisor's constant part and
      ignores the divisor's `x` part. */
  function Div(m: Number, d: Number): Number
    requires d.b != 0
  {
    Number(TruncDiv(m.a, d.b), TruncDiv(m.b, d.b))
  }

  /** Neither field of a quotient, multiplied back, grows past the dividend's. */
  lemma DivBounds(m: Number, d: Number)
    requires d.b != 0
    ensures Abs(Div(m, d).a * d.b) <= Abs(m.a) && Abs(Div(m, d).b * d.b) <= Abs(m.b)
  {
    TruncDivSpec(m.a, d.b);
    TruncDivSpec(m.b, d.b);
  }

  /** Fieldwise, what `div` loses is the Java remainder of each field: the
      dividend is the quotient times the divisor's constant part plus the
      form made of the two remainders. */
  lemma DivValue(m: Number, d: Number, t: int)
    requires d.b != 0
    ensures Value(m, t) == Value(Div(m, d), t) * d.b + Value(Number(TruncRem(m.a, d.b), TruncRem(m.b, d.b)), t)
  {
    var r := Div(m, d);
    TruncRemSpec(m.a, d.b);
    TruncRemSpec(m.b, d.b);
    Recombine(m.a, m.b, r.a, r.b, TruncRem(m.a, d.b), TruncRem(m.b, d.b), d.b, t);
  }

  lemma Recombine(ma: int, mb: int, qa: int, qb: int, ra: int, rb: int, y: int, t: int)
    requires ma == qa * y + ra && mb == qb * y + rb
    ensures ma * t + mb == (qa * t + qb) * y + (ra * t + rb)
  {
    calc {
      ma * t + mb;
      (qa * y + ra) * t + qb * y + rb;
      { assert (qa * y + ra) * t == qa * y * t + ra * t; }
      qa * y * t + ra * t + qb * y + rb;
      { assert qa * y * t + qb * y == (qa * t + qb) * y; }
      (qa * t + qb) * y + (ra * t + rb);
    }
  }

  /** When the divisor is a constant that divides both fields, `div` gives
      the form of the exact quotient. */
  lemma DivExact(m: Number, d: Number, t: int)
    requires d.a == 0 && d.b != 0
    requires m.a % d.b == 0 && m.b % d.b == 0
    ensures Value(Div(m, d), t) * Value(d, t) == Value(m, t)
  {
    RemZeroIffDivides(m.a, d.b);
    RemZeroIffDivides(m.b, d.b);
    DivValue(m, d, t);
    assert Value(d, t) == d.b;
    assert Value(Number(TruncRem(m.a, d.b), TruncRem(m.b, d.b)), t) == 0;
  }

  /** `calc`: the binary operator `op` applied to two forms.  Division by a
      divisor with constant part 0 is Java's `ArithmeticException`; any other
      character falls into the default case, which yields `(0, 0)`. */
  function Calc(m: Number, n: Number, op: char): (r: Result<Number>)
    ensures r.Err? <==> op == '/' && n.b == 0
    ensures r.Err? ==> r.failure == DivisionByZero
    ensures op != '+' && op != '-' && op != '*' && op != '/' ==> r == Ok(Number(0, 0))
  {
    match op
    case '+' => Ok(Add(m, n))
    case '-' => Ok(Sub(m, n))
    case '*' => Ok(Mul(m, n))
    case '/' => if n.b == 0 then Err(DivisionByZero) else Ok(Div(m, n))
    case _ => Ok(Number(0, 0))
  }

  /** What `calc` means at a point `x = t`: the sum, the difference, the
      product when at most one factor mentions `x`, and the exact quotient
      when the divisor is a constant dividing both fields. */
  lemma CalcValue(m: Number, n: Number, op: char, t: int)
    ensures op == '+' ==> Value(Calc(m, n, op).value, t) == Value(m, t) + Value(n, t)
    ensures op == '-' ==> Value(Calc(m, n, op).value, t) == Value(m, t) - Value(n, t)
    ensures op == '*' && (m.a == 0 || n.a == 0) ==> Value(Calc(m, n, op).value, t) == Value(m, t) * Value(n, t)
    ensures op == '/' && n.a == 0 && n.b != 0 && m.a % n.b == 0 && m.b % n.b == 0 ==>
              Value(Calc(m, n, op).value, t) * n.b == Value(m, t)
  {
    AddSubNegValue(m, n, t);
    MulValue(m, n, t);
    if op == '/' && n.a == 0 && n.b != 0 && m.a % n.b == 0 && m.b % n.b == 0 {
      DivExact(m, n, t);
    }
  }

  // ------------------------------------------------------------ operand texts

  predicate IsDigit(c: char) {
    '0' <= c <= '9'
  }

  /** `isDigitOrX`: the characters an operand text is made of. */
  predicate IsDigitOrX(c: char) {
    IsDigit(c) || c == 'x'
  }

  predicate AllDigits(s: string) {
    forall k :: 0 <= k < |s| ==> IsDigit(s[k])
  }

  /** A run of operand characters, as the evaluator cuts them out. */
  predicate IsOperandText(s: string) {
    forall k :: 0 <= k < |s| ==> IsDigitOrX(s[k])
  }

  /** An operand text `Integer.valueOf` accepts: an `x` may only stand last. */
  predicate WellFormedToken(s: string) {
    forall k :: 0 <= k < |s| - 1 ==> s[k] != 'x'
  }

  function DigitValue(c: char): nat
    requires IsDigit(c)
  {
    c as int - '0' as int
  }

  /** The number a run of decimal digits denotes (leading zeros allowed). */
  function DigitsValue(s: string): nat
    requires AllDigits(s)
    decreases |s|
  {
    if s == [] then 0 else DigitsValue(s[..|s| - 1]) * 10 + DigitValue(s[|s| - 1])
  }

  function DigitChar(d: nat): (c: char)
    requires d < 10
    ensures IsDigit(c) && DigitValue(c) == d
  {
    ('0' as int + d) as char
  }

  /** The shortest decimal text of `n`; it reads back as `n`. */
  function Digits(n: nat): (s: string)
    ensures s != [] && AllDigits(s)
    ensures DigitsValue(s) == n
    decreases n
  {
    if n < 10 then
      [DigitChar(n)]
    else
      var s := Digits(n / 10) + [DigitChar(n % 10)];
      assert s[..|s| - 1] == Digits(n / 10);
      s
  }

  /** `isnum`: an operand text that does not end in `x` is a constant. */
  predicate IsNum(s: string)
    requires |s| > 0
  {
    s[|s| - 1] != 'x'
  }

  /** The constructor `Number(String)`: the empty text is `(0, 0)`, a run of
      digits sets only `b`, digits followed by `x` set only `a`, and a bare
      `x` is `(1, 0)`.  A text with an `x` before its end makes
      `Integer.valueOf` throw. */
  function ParseNumber(tok: string): (r: Result<Number>)
    requires IsOperandText(tok)
    ensures r.Ok? <==> WellFormedToken(tok)
    ensures r.Err? ==> r.failure == BadToken
    ensures r.Ok? ==> r.value.a == 0 || r.value.b == 0
    ensures tok == "" ==> r == Ok(Number(0, 0))
    ensures tok == "x" ==> r == Ok(Number(1, 0))
    ensures tok != "" && AllDigits(tok) ==> r == Ok(Number(0, DigitsValue(tok)))
    ensures |tok| > 1 && tok[|tok| - 1] == 'x' && AllDigits(tok[..|tok| - 1])
            ==> r == Ok(Number(DigitsValue(tok[..|tok| - 1]), 0))
  {
    if |tok| == 0 then
      Ok(Number(0, 0))
    else if IsNum(tok) then
      if AllDigits(tok) then Ok(Number(0, DigitsValue(tok)))
      else
        assert !WellFormedToken(tok) by {
          var k :| 0 <= k < |tok| && !IsDigit(tok[k]);
          assert tok[k] == 'x' && k < |tok| - 1;
        }
        Err(BadToken)
    else if |tok| == 1 then
      Ok(Number(1, 0))
    else
      var digits := tok[..|tok| - 1];
      if AllDigits(digits) then Ok(Number(DigitsValue(digits), 0))
      else
        assert !WellFormedToken(tok) by {
          var k :| 0 <= k < |digits| && !IsDigit(digits[k]);
          assert tok[k] == 'x';
        }
        Err(BadToken)
  }

  /** The decimal text of `n` parses back as the constant `n`. */
  lemma ParseDigits(n: nat)
    ensures IsOperandText(Digits(n)) && ParseNumber(Digits(n)) == Ok(Number(0, n))
  {
  }

  /** The decimal text of `n` followed by `x` parses back as `n·x`. */
  lemma ParseDigitsX(n: nat)
    ensures IsOperandText(Digits(n) + "x") && ParseNumber(Digits(n) + "x") == Ok(Number(n, 0))
  {
    var s := Digits(n) + "x";
    assert s[..|s| - 1] == Digits(n);
  }
}
