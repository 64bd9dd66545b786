/** Worked examples: the sample statements of the program's own input, a
    few sides with precedence, parentheses and negation, and `3--2`, where
    the code departs from its evident intent, proved of the model. */
module Examples {
  import opened Outcomes
  import opened Numbers
  import opened Preprocessing
  import opened Reduction
  import opened Evaluation
  import opened Solving

  lemma {:induction false} DropNone(c: char, u: string)
    requires c !in u
    ensures Drop(c, u) == u
    decreases |u|
  {
    if u != [] {
      assert u[1..] + [] == u[1..];
      DropNone(c, u[1..]);
      assert [u[0]] + u[1..] == u;
    }
  }

  lemma DropSpaceAfter(u: string, v: string)
    requires ' ' !in u
    ensures Drop(' ', u + " " + v) == u + Drop(' ', v)
  {
    DropConcat(' ', u + " ", v);
    DropConcat(' ', u, " ");
    DropNone(' ', u);
    assert Drop(' ', " ") == [] by {
      assert " "[1..] == [];
    }
    assert Drop(' ', u + " ") == u;
    assert u + " " + v == (u + " ") + v;
  }

  /** A one-digit operand. */
  lemma ParsedDigit(c: char)
    requires IsDigit(c)
    ensures Operand([c]) && Parsed([c]) == Number(0, DigitValue(c))
  {
    var s := [c];
    assert AllDigits(s) && IsOperandText(s) && WellFormedToken(s);
    assert s[..|s| - 1] == [];
    assert DigitsValue(s) == DigitValue(c);
    assert ParseNumber(s) == Ok(Number(0, DigitValue(c)));
  }

  /** The operand `x`. */
  lemma ParsedX()
    ensures Operand("x") && Parsed("x") == Number(1, 0)
  {
  }

  /** A one-digit coefficient of `x`. */
  lemma ParsedDigitX(c: char)
    requires IsDigit(c)
    ensures Operand([c, 'x']) && Parsed([c, 'x']) == Number(DigitValue(c), 0)
  {
    var s := [c, 'x'];
    assert IsOperandText(s) && WellFormedToken(s);
    assert s[..|s| - 1] == [c];
    ParsedDigit(c);
    assert DigitsValue([c]) == DigitValue(c);
    assert ParseNumber(s) == Ok(Number(DigitValue(c), 0));
  }

  /** `0-x+3` is `(0 - x) + 3`. */
  lemma EvalFirstLeftZero()
    ensures EvalResult("0-x+3") == ThreeValue(Number(0, 0), '-', Number(1, 0), '+', Number(0, 3))
  {
    ParsedDigit('0');
    ParsedX();
    ParsedDigit('3');
    assert "0-x+3" == "0" + ['-'] + "x" + ['+'] + "3";
    EvalThreeOperands("0", '-', "x", '+', "3");
  }

  lemma FirstLeftValue()
    ensures ThreeValue(Number(0, 0), '-', Number(1, 0), '+', Number(0, 3)) == Ok(Number(-1, 3))
  {
    assert Calc(Number(0, 0), Number(1, 0), '-') == Ok(Number(-1, 0));
  }

  /** `-x+3` is `-1·x + 3`. */
  lemma EvalFirstLeft()
    ensures EvalResult("-x+3") == Ok(Number(-1, 3))
  {
    EvalLeadingMinus("-x+3");
    JoinedTexts();
    EvalFirstLeftZero();
    FirstLeftValue();
  }

  /** A side with spaces evaluates like the side without them. */
  lemma EvalSpaced(e: string, d: string, n: Number)
    requires Drop(' ', e) == d && EvalResult(d) == Ok(n)
    ensures EvalResult(e) == Ok(n)
  {
    EvalIgnoresSpaces(e);
  }

  /** A statement `l=r` whose sides evaluate to `ln` and `rn` is classified
      by them. */
  lemma SolvedBySides(stmt: string, l: string, r: string, ln: Number, rn: Number, sol: Solution)
    requires stmt == l + "=" + r && '=' !in l && '=' !in r && r != []
    requires EvalResult(l) == Ok(ln) && EvalResult(r) == Ok(rn)
    requires Classify(ln, rn) == sol
    ensures SolveResult(stmt) == sol
  {
    SolveEquation(l, r);
  }

  /** The joins of literal texts the examples below rely on. */
  lemma JoinedTexts()
    ensures "0" + "-x+3" == "0-x+3"
    ensures "-x" + "+3" == "-x+3"
    ensures "x" + "+3" == "x+3"
    ensures "x" + "+6" == "x+6"
    ensures "3" + "*-2" == "3*-2"
    ensures "-2x" + "/-1" == "-2x/-1"
    ensures "0" + "-2x/-1" == "0-2x/-1"
  {
  }

  /** The example statements are their two sides joined by `=`. */
  lemma StatementTexts()
    ensures "-x + 3 = 6" == "-x + 3 " + "=" + " 6"
    ensures "x + 3 = x + 6" == "x + 3 " + "=" + " x + 6"
    ensures "3 * -2 = -2x / -1" == "3 * -2 " + "=" + " -2x / -1"
    ensures "3--2=1" == "3--2" + "=" + "1"
  {
  }

  /** None of the sides of the example statements holds an `=`. */
  lemma SidesHaveNoEquals()
    ensures '=' !in "-x + 3 " && '=' !in " 6"
    ensures '=' !in "x + 3 " && '=' !in " x + 6"
    ensures '=' !in "3 * -2 " && '=' !in " -2x / -1"
    ensures '=' !in "3--2" && '=' !in "1"
  {
  }

  /** The classification of a statement whose sides give `l` and `r`, when
      `t` solves it and `t + 1` does not. */
  lemma ClassifyOne(l: Number, r: Number, t: int)
    requires Solves(l, r, t) && !Solves(l, r, t + 1)
    ensures Classify(l, r) == Unique(t)
  {
    ClassifyMeaning(l, r);
  }

  /** The classification when both sides have the same `x` part and
      different constants. */
  lemma ClassifyNone(l: Number, r: Number)
    requires l.a == r.a && l.b != r.b
    ensures Classify(l, r) == NoSolution
  {
  }

  // ----------------------------------------------------- `-x + 3 = 6`

  lemma SpacesFirst()
    ensures Drop(' ', "-x + 3 ") == "-x+3"
    ensures Drop(' ', " 6") == "6"
  {
    assert "-x + 3 " == "-x" + " " + "+ 3 ";
    SpacesFirstRest();
    DropSpaceAfter("-x", "+ 3 ");
    JoinedTexts();
    assert " 6" == "" + " " + "6";
    DropSpaceAfter("", "6");
    DropNone(' ', "6");
  }

  lemma SpacesFirstRest()
    ensures Drop(' ', "+ 3 ") == "+3"
  {
    assert "+ 3 " == "+" + " " + "3 ";
    SpacesDigitLast('3');
    DropSpaceAfter("+", "3 ");
  }

  /** A digit followed by a space. */
  lemma SpacesDigitLast(c: char)
    requires IsDigit(c)
    ensures Drop(' ', [c, ' ']) == [c]
  {
    assert [c, ' '] == [c] + " " + "";
    DropSpaceAfter([c], "");
  }

  /** `-x + 3 = 6`: `x = -3`. */
  lemma FirstClassified()
    ensures Classify(Number(-1, 3), Number(0, 6)) == Unique(-3)
  {
    ClassifyOne(Number(-1, 3), Number(0, 6), -3);
  }

  lemma FirstLine()
    ensures SolveResult("-x + 3 = 6") == Unique(-3)
  {
    var l, r := "-x + 3 ", " 6";
    StatementTexts();
    FirstSides();
    SidesHaveNoEquals();
    FirstClassified();
    SolvedBySides("-x + 3 = 6", l, r, Number(-1, 3), Number(0, 6), Unique(-3));
  }

  lemma FirstSides()
    ensures EvalResult("-x + 3 ") == Ok(Number(-1, 3))
    ensures EvalResult(" 6") == Ok(Number(0, 6))
  {
    SpacesFirst();
    EvalFirstLeft();
    EvalSpaced("-x + 3 ", "-x+3", Number(-1, 3));
    ParsedDigit('6');
    EvalOne("6");
    EvalSpaced(" 6", "6", Number(0, 6));
  }

  // ------------------------------------------------- `x + 3 = x + 6`

  lemma SpacesThirdLeft()
    ensures Drop(' ', "x + 3 ") == "x+3"
  {
    assert "x + 3 " == "x" + " " + "+ 3 ";
    SpacesFirstRest();
    DropSpaceAfter("x", "+ 3 ");
    JoinedTexts();
  }

  lemma SpacesThirdRight()
    ensures Drop(' ', " x + 6") == "x+6"
  {
    assert " x + 6" == "" + " " + "x + 6";
    SpacesThirdRightRest();
    DropSpaceAfter("", "x + 6");
  }

  lemma SpacesThirdRightRest()
    ensures Drop(' ', "x + 6") == "x+6"
  {
    assert "x + 6" == "x" + " " + "+ 6";
    SpacesThirdRightLast();
    DropSpaceAfter("x", "+ 6");
    JoinedTexts();
  }

  lemma SpacesThirdRightLast()
    ensures Drop(' ', "+ 6") == "+6"
  {
    assert "+ 6" == "+" + " " + "6";
    DropNone(' ', "6");
    DropSpaceAfter("+", "6");
  }

  /** `x+c` for a one-digit `c` is `x + c`. */
  lemma EvalXPlus(c: char)
    requires IsDigit(c)
    ensures EvalResult(['x', '+', c]) == Ok(Number(1, DigitValue(c)))
  {
    ParsedX();
    ParsedDigit(c);
    assert ['x', '+', c] == "x" + ['+'] + [c];
    EvalTwo("x", '+', [c]);
  }

  /** `x + 3 = x + 6`: no solution. */
  lemma ThirdClassified()
    ensures Classify(Number(1, 3), Number(1, 6)) == NoSolution
  {
    ClassifyNone(Number(1, 3), Number(1, 6));
  }

  lemma ThirdLine()
    ensures SolveResult("x + 3 = x + 6") == NoSolution
  {
    var l, r := "x + 3 ", " x + 6";
    StatementTexts();
    ThirdSides();
    SidesHaveNoEquals();
    ThirdClassified();
    SolvedBySides("x + 3 = x + 6", l, r, Number(1, 3), Number(1, 6), NoSolution);
  }

  lemma ThirdSides()
    ensures EvalResult("x + 3 ") == Ok(Number(1, 3))
    ensures EvalResult(" x + 6") == Ok(Number(1, 6))
  {
    SpacesThirdLeft();
    SpacesThirdRight();
    EvalXPlus('3');
    EvalSpaced("x + 3 ", "x+3", Number(1, 3));
    EvalXPlus('6');
    EvalSpaced(" x + 6", "x+6", Number(1, 6));
  }

  // --------------------------------------------- `3 * -2 = -2x / -1`

  lemma SpacesSeventhLeft()
    ensures Drop(' ', "3 * -2 ") == "3*-2"
  {
    assert "3 * -2 " == "3" + " " + "* -2 ";
    SpacesSeventhLeftRest();
    DropSpaceAfter("3", "* -2 ");
    JoinedTexts();
  }

  lemma SpacesSeventhLeftRest()
    ensures Drop(' ', "* -2 ") == "*-2"
  {
    assert "* -2 " == "*" + " " + "-2 ";
    SpacesSeventhLeftLast();
    DropSpaceAfter("*", "-2 ");
  }

  lemma SpacesSeventhLeftLast()
    ensures Drop(' ', "-2 ") == "-2"
  {
    assert "-2 " == "-2" + " " + "";
    DropSpaceAfter("-2", "");
  }

  lemma SpacesSeventhRight()
    ensures Drop(' ', " -2x / -1") == "-2x/-1"
  {
    assert " -2x / -1" == "" + " " + "-2x / -1";
    SpacesSeventhRightRest();
    DropSpaceAfter("", "-2x / -1");
  }

  lemma SpacesSeventhRightRest()
    ensures Drop(' ', "-2x / -1") == "-2x/-1"
  {
    assert "-2x / -1" == "-2x" + " " + "/ -1";
    SpacesSeventhRightLast();
    DropSpaceAfter("-2x", "/ -1");
    JoinedTexts();
  }

  lemma SpacesSeventhRightLast()
    ensures Drop(' ', "/ -1") == "/-1"
  {
    assert "/ -1" == "/" + " " + "-1";
    DropNone(' ', "-1");
    DropSpaceAfter("/", "-1");
  }

  /** `3*-2` is `-6`. */
  lemma EvalSeventhLeft()
    ensures EvalResult("3*-2") == Ok(Number(0, -6))
  {
    ParsedDigit('3');
    ParsedDigit('2');
    SeventhLeftPieces();
    EvalNegatedOperands("3", '*', "2");
    SeventhLeftValue();
  }

  lemma SeventhLeftPieces()
    ensures "3*-2" == "3" + ['*'] + "-" + "2"
  {
  }

  lemma SeventhLeftValue()
    ensures Calc(Number(0, 3), Neg(Number(0, 2)), '*') == Ok(Number(0, -6))
  {
    assert Neg(Number(0, 2)) == Number(0, -2);
  }

  /** `-2x/-1` is `2x`: `0 - (2x / -1)`. */
  lemma EvalSeventhRight()
    ensures EvalResult("-2x/-1") == Ok(Number(2, 0))
  {
    EvalLeadingMinus("-2x/-1");
    SeventhRightPieces();
    ParsedDigit('0');
    ParsedDigitX('2');
    assert [ '2', 'x' ] == "2x";
    ParsedDigit('1');
    EvalThreeNegated("0", '-', "2x", '/', "1");
    SeventhRightValue();
  }

  lemma SeventhRightPieces()
    ensures "0" + "-2x/-1" == "0" + ['-'] + "2x" + ['/'] + "-" + "1"
  {
    JoinedTexts();
  }

  lemma SeventhRightValue()
    ensures ThreeValue(Number(0, 0), '-', Number(2, 0), '/', Neg(Number(0, 1))) == Ok(Number(2, 0))
  {
    assert Neg(Number(0, 1)) == Number(0, -1);
    assert Calc(Number(2, 0), Number(0, -1), '/') == Ok(Number(-2, 0));
  }

  /** `3 * -2 = -2x / -1`: `x = -3`. */
  lemma SeventhClassified()
    ensures Classify(Number(0, -6), Number(2, 0)) == Unique(-3)
  {
    ClassifyOne(Number(0, -6), Number(2, 0), -3);
  }

  lemma SeventhLine()
    ensures SolveResult("3 * -2 = -2x / -1") == Unique(-3)
  {
    var l, r := "3 * -2 ", " -2x / -1";
    StatementTexts();
    SeventhLeftSide();
    SeventhRightSide();
    SidesHaveNoEquals();
    SeventhClassified();
    SolvedBySides("3 * -2 = -2x / -1", l, r, Number(0, -6), Number(2, 0), Unique(-3));
  }

  lemma SeventhLeftSide()
    ensures EvalResult("3 * -2 ") == Ok(Number(0, -6))
  {
    SpacesSeventhLeft();
    EvalSeventhLeft();
    EvalSpaced("3 * -2 ", "3*-2", Number(0, -6));
  }

  lemma SeventhRightSide()
    ensures EvalResult(" -2x / -1") == Ok(Number(2, 0))
  {
    SpacesSeventhRight();
    EvalSeventhRight();
    EvalSpaced(" -2x / -1", "-2x/-1", Number(2, 0));
  }

  // ------------------------------------------------ precedence examples

  /** `2+3*4` is `14`: `*` before `+`. */
  lemma Precedence()
    ensures EvalResult("2+3*4") == Ok(Number(0, 14))
  {
    ParsedDigit('2');
    ParsedDigit('3');
    ParsedDigit('4');
    assert "2+3*4" == "2" + ['+'] + "3" + ['*'] + "4";
    EvalThreeOperands("2", '+', "3", '*', "4");
    PrecedenceValue();
  }

  lemma PrecedenceValue()
    ensures ThreeValue(Number(0, 2), '+', Number(0, 3), '*', Number(0, 4)) == Ok(Number(0, 14))
  {
    assert Priority('+') < Priority('*');
  }

  /** `x+x+x` is `3x`. */
  lemma Accumulation()
    ensures EvalResult("x+x+x") == Ok(Number(3, 0))
  {
    ParsedX();
    assert "x+x+x" == "x" + ['+'] + "x" + ['+'] + "x";
    EvalThreeOperands("x", '+', "x", '+', "x");
  }

  /** `(2+3)*4` is `20`: the parenthesis comes first. */
  lemma Parenthesised()
    ensures EvalResult("(2+3)*4") == Ok(Number(0, 20))
  {
    var s := "(2+3)*4";
    ParsedDigit('2');
    ParsedDigit('3');
    ParsedDigit('4');
    assert s[1..2] == "2" && s[3..4] == "3" && s[6..] == "4";
    assert s[2] == '+' && s[5] == '*';
    assert ParenAt(s, 2, 4);
    EvalParenthesised(s, 2, 4);
    ParenthesisedSum();
    ParenthesisedProduct();
  }

  lemma ParenthesisedSum()
    ensures Calc(Number(0, 2), Number(0, 3), '+') == Ok(Number(0, 5))
  {
  }

  lemma ParenthesisedProduct()
    ensures Calc(Number(0, 5), Number(0, 4), '*') == Ok(Number(0, 20))
  {
  }

  // --------------------------------------------------------------- `3--2`

  /** `3--2`: the source's normalisation makes it `1`, where `5` is meant. */
  lemma DoubleMinusCounterexample()
    ensures EvalResult("3--2") == Ok(Number(0, 1))
    ensures EvalResultIntended("3--2") == Ok(Number(0, 5))
  {
    var s := "3--2";
    ThreeMinusTwoPieces(s);
    ThreeMinusTwoAsWritten(s);
    ThreeMinusTwo(s);
  }

  /** So the source calls `3--2=1` an identity, where `5 = 1` has no
      solution. */
  lemma DoubleMinusStatement()
    ensures SolveResult("3--2=1") == Infinite
  {
    var l, r := "3--2", "1";
    StatementTexts();
    SidesHaveNoEquals();
    DoubleMinusCounterexample();
    ParsedDigit('1');
    EvalOne("1");
    SolvedBySides("3--2=1", l, r, Number(0, 1), Number(0, 1), Infinite);
  }

  /** The pieces of `3--2`. */
  lemma ThreeMinusTwoPieces(s: string)
    requires s == "3--2"
    ensures NegatedAt(s, 1) && s[1] == '-'
    ensures Parsed(s[..1]) == Number(0, 3) && Parsed(s[3..]) == Number(0, 2)
  {
    ParsedDigit('3');
    ParsedDigit('2');
    assert s[..1] == "3" && s[2..] == "-2" && s[3..] == "2";
  }

  /** `3--2` as written: `(3 - 0) - 2`. */
  lemma ThreeMinusTwoAsWritten(s: string)
    requires NegatedAt(s, 1) && s[1] == '-'
    requires Parsed(s[..1]) == Number(0, 3) && Parsed(s[3..]) == Number(0, 2)
    ensures EvalResult(s).Ok? && EvalResult(s).value == Number(0, 1)
  {
    DoubleMinusAsWritten(s, 1);
  }

  /** `3--2` corrected: `3 - (-2)`. */
  lemma ThreeMinusTwo(s: string)
    requires NegatedAt(s, 1) && s[1] == '-'
    requires Parsed(s[..1]) == Number(0, 3) && Parsed(s[3..]) == Number(0, 2)
    ensures EvalResultIntended(s).Ok? && EvalResultIntended(s).value == Number(0, 5)
  {
    DoubleMinus(s, 1);
  }
}
