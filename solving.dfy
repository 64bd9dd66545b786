/** `solve` as functions: cutting the statement at `=` the way Java's
    `String.split` does, and classifying the equation `a·x = b` that the two
    evaluated sides give. */
module Solving {
  import opened JavaInt
  import opened Outcomes
  import opened Numbers
  import opened Reduction

  // ----------------------------------------------------------- String.split

  /** Every piece between separators, empty pieces included. */
  function SplitAll(s: string, c: char): (r: seq<string>)
    ensures |r| >= 1
    ensures forall k :: 0 <= k < |r| ==> c !in r[k]
    decreases |s|
  {
    if s == [] then [[]]
    else
      var rest := SplitAll(s[1..], c);
      if s[0] == c then [[]] + rest
      else [[s[0]] + rest[0]] + rest[1..]
  }

  /** There is one piece more than there are separators. */
  lemma {:induction false} SplitAllCount(s: string, c: char)
    ensures |SplitAll(s, c)| == multiset(s)[c] + 1
    decreases |s|
  {
    if s != [] {
      SplitAllCount(s[1..], c);
      assert s == [s[0]] + s[1..];
      assert multiset(s) == multiset([s[0]]) + multiset(s[1..]);
    }
  }

  /** Gluing the pieces back together with the separator gives the text. */
  lemma {:induction false} SplitAllJoin(s: string, c: char)
    ensures Join(SplitAll(s, c), c) == s
    decreases |s|
  {
    if s != [] {
      SplitAllJoin(s[1..], c);
      var rest := SplitAll(s[1..], c);
      if s[0] == c {
        assert Join(SplitAll(s, c), c) == [] + [c] + Join(rest, c);
      } else if |rest| == 1 {
        assert Join(SplitAll(s, c), c) == [s[0]] + rest[0];
      } else {
        assert Join(rest, c) == rest[0] + [c] + Join(rest[1..], c);
        assert Join(SplitAll(s, c), c) == ([s[0]] + rest[0]) + [c] + Join(rest[1..], c);
      }
      assert s == [s[0]] + s[1..];
    }
  }

  /** The pieces glued back together with the separator between them. */
  function Join(ps: seq<string>, c: char): string
    requires |ps| >= 1
    decreases |ps|
  {
    if |ps| == 1 then ps[0] else ps[0] + [c] + Join(ps[1..], c)
  }

  /** Cutting the joined pieces gives the pieces back. */
  lemma {:induction false} SplitJoin(ps: seq<string>, c: char)
    requires |ps| >= 1 && forall k :: 0 <= k < |ps| ==> c !in ps[k]
    ensures SplitAll(Join(ps, c), c) == ps
    decreases |ps|
  {
    if |ps| == 1 {
      SplitAllNoSeparator(ps[0], c);
    } else {
      SplitJoin(ps[1..], c);
      SplitAllAfterSeparator(ps[0], Join(ps[1..], c), c);
    }
  }

  lemma {:induction false} SplitAllNoSeparator(u: string, c: char)
    requires c !in u
    ensures SplitAll(u, c) == [u]
    decreases |u|
  {
    if u != [] {
      SplitAllNoSeparator(u[1..], c);
      assert u == [u[0]] + u[1..];
    }
  }

  lemma {:induction false} SplitAllAfterSeparator(u: string, v: string, c: char)
    requires c !in u
    ensures SplitAll(u + [c] + v, c) == [u] + SplitAll(v, c)
    decreases |u|
  {
    var w := u + [c] + v;
    if u == [] {
      assert w[1..] == v;
    } else {
      assert w[0] == u[0] && w[1..] == u[1..] + [c] + v;
      SplitAllAfterSeparator(u[1..], v, c);
      var rest := SplitAll(w[1..], c);
      assert rest == [u[1..]] + SplitAll(v, c);
      assert SplitAll(w, c) == [[u[0]] + rest[0]] + rest[1..];
      assert [u[0]] + u[1..] == u;
    }
  }

  /** A separator at the end adds one empty piece. */
  lemma {:induction false} SplitAllSeparatorLast(u: string, c: char)
    ensures SplitAll(u + [c], c) == SplitAll(u, c) + [[]]
    decreases |u|
  {
    var w := u + [c];
    if u == [] {
      assert w[0] == c && w[1..] == [];
      assert SplitAll(w, c) == [[]] + SplitAll([], c);
    } else {
      assert w[0] == u[0] && w[1..] == u[1..] + [c];
      SplitAllSeparatorLast(u[1..], c);
      var rest := SplitAll(w[1..], c);
      assert rest == SplitAll(u[1..], c) + [[]];
      var tail := SplitAll(u[1..], c);
      if u[0] == c {
        assert SplitAll(w, c) == [[]] + rest;
        assert SplitAll(u, c) == [[]] + tail;
        assert [[]] + rest == ([[]] + tail) + [[]];
      } else {
        assert SplitAll(w, c) == [[u[0]] + rest[0]] + rest[1..];
        assert SplitAll(u, c) == [[u[0]] + tail[0]] + tail[1..];
        assert rest[0] == tail[0] && rest[1..] == tail[1..] + [[]];
        assert [[u[0]] + rest[0]] + rest[1..] == ([[u[0]] + tail[0]] + tail[1..]) + [[]];
      }
    }
  }

  /** A text that does not end in the separator has a nonempty last piece. */
  lemma {:induction false} SplitAllLastPiece(u: string, c: char)
    requires u != [] && u[|u| - 1] != c
    ensures SplitAll(u, c)[|SplitAll(u, c)| - 1] != []
    decreases |u|
  {
    if |u| > 1 {
      SplitAllLastPiece(u[1..], c);
    }
  }

  /** Empty pieces at the end removed. */
  function DropTrailingEmpty(ps: seq<string>): (r: seq<string>)
    ensures |r| <= |ps| && r == ps[..|r|]
    ensures r == [] || r[|r| - 1] != []
    ensures forall k :: |r| <= k < |ps| ==> ps[k] == []
    decreases |ps|
  {
    if ps == [] || ps[|ps| - 1] != [] then ps else DropTrailingEmpty(ps[..|ps| - 1])
  }

  /** The text with its trailing separators removed. */
  function TrimEnd(s: string, c: char): (r: string)
    ensures |r| <= |s| && r == s[..|r|]
    ensures r == [] || r[|r| - 1] != c
    ensures forall k :: |r| <= k < |s| ==> s[k] == c
    decreases |s|
  {
    if s != [] && s[|s| - 1] == c then TrimEnd(s[..|s| - 1], c) else s
  }

  lemma TrimEndNoSeparator(s: string, c: char)
    requires c !in s
    ensures TrimEnd(s, c) == s
  {
    if s != [] {
      assert s[|s| - 1] in s;
    }
  }

  /** `s.split(c)` in Java: the pieces between separators without the
      trailing empty ones, and the whole text when there is no separator. */
  function Split(s: string, c: char): seq<string> {
    if c !in s then [s] else DropTrailingEmpty(SplitAll(s, c))
  }

  /** Dropping trailing empty pieces is cutting the text with its trailing
      separators removed. */
  lemma {:induction false} DropTrailingSplit(s: string, c: char)
    ensures DropTrailingEmpty(SplitAll(s, c)) == (if TrimEnd(s, c) == [] then [] else SplitAll(TrimEnd(s, c), c))
    decreases |s|
  {
    if s == [] {
    } else if s[|s| - 1] == c {
      var u := s[..|s| - 1];
      assert s == u + [c];
      SplitAllSeparatorLast(u, c);
      var ps := SplitAll(u, c) + [[]];
      assert ps[..|ps| - 1] == SplitAll(u, c);
      DropTrailingSplit(u, c);
    } else {
      SplitAllLastPiece(s, c);
    }
  }

  /** `split` gives exactly two pieces when, trailing separators aside, the
      text holds exactly one separator; the pieces are then what stands
      before and after it. */
  lemma SplitTwo(s: string, c: char)
    ensures |Split(s, c)| == 2 <==> multiset(TrimEnd(s, c))[c] == 1
    ensures |Split(s, c)| == 2 ==>
              Split(s, c)[0] + [c] + Split(s, c)[1] == TrimEnd(s, c) && c !in Split(s, c)[0] && c !in Split(s, c)[1]
  {
    var t := TrimEnd(s, c);
    DropTrailingSplit(s, c);
    if c !in s {
      TrimEndNoSeparator(s, c);
    } else if t != [] {
      SplitAllCount(t, c);
      SplitAllJoin(t, c);
      var ps := SplitAll(t, c);
      if |ps| == 2 {
        assert Join(ps[1..], c) == ps[1];
      }
    }
  }

  /** A statement with one `=`: `split` gives its two sides, except that
      an empty right side is dropped, and then an empty left side too. */
  lemma SplitEquation(l: string, r: string)
    requires '=' !in l && '=' !in r
    ensures Split(l + "=" + r, '=') == if r != [] then [l, r] else if l != [] then [l] else []
  {
    var s := l + "=" + r;
    assert s[|l|] == '=';
    assert s == l + ['='] + r;
    SplitAllAfterSeparator(l, r, '=');
    SplitAllNoSeparator(r, '=');
    var ps := SplitAll(s, '=');
    assert ps == [l, r];
    assert '=' in s;
    assert Split(s, '=') == DropTrailingEmpty([l, r]);
    if r == [] {
      assert [l, r][..1] == [l];
      if l == [] {
        assert [l][..0] == [];
      }
    }
  }

  // ----------------------------------------------------------- the answer

  /** What `solve` answers: not an equation, every `x`, no `x`, one integer
      `x`, the fraction `num / den` (printed with `%f`), or a failure of
      the evaluator. */
  datatype Solution =
    | NotAnEquation
    | Infinite
    | NoSolution
    | Unique(x: int)
    | NonInteger(num: int, den: int)
    | Failed(failure: Failure)

  /** `t` satisfies the equation `l = r`. */
  predicate Solves(l: Number, r: Number, t: int) {
    Value(l, t) == Value(r, t)
  }

  /** The case analysis of `solve` on `a·x = b` with `a = l.a - r.a` and
      `b = r.b - l.b`; the integer answer is Java's truncated `b / a`.  It
      always classifies: the failures belong to the steps before it. */
  function Classify(l: Number, r: Number): (sol: Solution)
    ensures sol.Infinite? || sol.NoSolution? || sol.Unique? || sol.NonInteger?
  {
    var a := l.a - r.a;
    var b := r.b - l.b;
    if a == 0 then
      if b == 0 then Infinite else NoSolution
    else if TruncRem(b, a) == 0 then Unique(TruncDiv(b, a))
    else NonInteger(b, a)
  }

  /** What each answer of `Classify` says about the solutions of `l = r`:
      every `t` solves it, none does, exactly the integer answer does, or
      exactly the rational `num / den`, which is not an integer. */
  lemma ClassifyMeaning(l: Number, r: Number)
    ensures Classify(l, r).Infinite? <==> forall t :: Solves(l, r, t)
    ensures Classify(l, r).NoSolution? || Classify(l, r).NonInteger? <==> forall t :: !Solves(l, r, t)
    ensures Classify(l, r).NoSolution? <==> l.a == r.a && l.b != r.b
    ensures Classify(l, r).Unique? ==>
              Solves(l, r, Classify(l, r).x) && forall t :: Solves(l, r, t) ==> t == Classify(l, r).x
    ensures Classify(l, r).NonInteger? ==>
              var sol := Classify(l, r);
              sol.num == r.b - l.b && sol.den == l.a - r.a &&
              sol.den != 0 && sol.num % sol.den != 0 &&
              forall t :: Solves(l, r, t) <==> sol.den * t == sol.num
  {
    var a := l.a - r.a;
    var b := r.b - l.b;
    LinearEquation(l, r, a, b);
    if a == 0 {
      ConstantEquation(l, r, a, b);
    } else if TruncRem(b, a) == 0 {
      IntegerRoot(l, r, a, b);
    } else {
      RationalRoot(l, r, a, b);
    }
  }

  /** `0·x = b`: every `t` when `b` is 0, no `t` otherwise. */
  lemma ConstantEquation(l: Number, r: Number, a: int, b: int)
    requires a == l.a - r.a && b == r.b - l.b && a == 0
    ensures b == 0 ==> forall t :: Solves(l, r, t)
    ensures b != 0 ==> forall t :: !Solves(l, r, t)
  {
    forall t
      ensures Solves(l, r, t) <==> b == 0
    {
      assert Value(l, t) - Value(r, t) == (l.a - r.a) * t - b;
    }
  }

  /** `a·x = b` with `a` dividing `b`: the truncated quotient is the only
      root. */
  lemma IntegerRoot(l: Number, r: Number, a: int, b: int)
    requires a == l.a - r.a && b == r.b - l.b && a != 0 && TruncRem(b, a) == 0
    requires forall t :: Solves(l, r, t) <==> a * t == b
    ensures Solves(l, r, TruncDiv(b, a))
    ensures forall t :: Solves(l, r, t) ==> t == TruncDiv(b, a)
    ensures !Solves(l, r, TruncDiv(b, a) + 1)
  {
    RemZeroIffDivides(b, a);
    var q := TruncDiv(b, a);
    assert a * q == b;
    forall t | Solves(l, r, t)
      ensures t == q
    {
      CancelFactor(a, t, q);
    }
  }

  /** `a·x = b` with `a` not dividing `b`: no integer root. */
  lemma RationalRoot(l: Number, r: Number, a: int, b: int)
    requires a == l.a - r.a && b == r.b - l.b && a != 0 && TruncRem(b, a) != 0
    requires forall t :: Solves(l, r, t) <==> a * t == b
    ensures b % a != 0
    ensures forall t :: !Solves(l, r, t)
  {
    RemZeroIffDivides(b, a);
    MultiplesHaveNoRemainder(a);
  }

  /** `l = r` holds at `t` exactly when `a·t = b`. */
  lemma LinearEquation(l: Number, r: Number, a: int, b: int)
    requires a == l.a - r.a && b == r.b - l.b
    ensures forall t :: Solves(l, r, t) <==> a * t == b
    ensures (forall t :: Solves(l, r, t)) ==> a == 0 && b == 0
  {
    forall t
      ensures Solves(l, r, t) <==> a * t == b
    {
      assert Value(l, t) - Value(r, t) == l.a * t - r.a * t + l.b - r.b;
      assert l.a * t - r.a * t == a * t;
    }
    if forall t :: Solves(l, r, t) {
      assert Solves(l, r, 0) && Solves(l, r, 1);
    }
  }

  lemma MultiplesHaveNoRemainder(a: int)
    requires a != 0
    ensures forall t :: (a * t) % a == 0
  {
    forall t
      ensures (a * t) % a == 0
    {
      assert a * t == t * a;
      MultipleHasNoRemainder(t, a);
    }
  }

  lemma CancelFactor(a: int, t: int, q: int)
    requires a != 0 && a * t == q * a
    ensures t == q
  {
    assert (t - q) * a == 0;
    if t != q {
      MulAbsAtLeast(t - q, a);
    }
  }

  /** `solve`: split at `=`, evaluate both sides, classify.  An exception
      of the evaluator on either side is `Failed`. */
  function SolveResult(stmt: string): (sol: Solution)
    ensures sol.NotAnEquation? <==> multiset(TrimEnd(stmt, '='))['='] != 1
  {
    SplitTwo(stmt, '=');
    var exprs := Split(stmt, '=');
    if |exprs| != 2 then NotAnEquation
    else
      match EvalResult(exprs[0])
      case Err(e) => Failed(e)
      case Ok(left) =>
        match EvalResult(exprs[1])
        case Err(e) => Failed(e)
        case Ok(right) => Classify(left, right)
  }

  /** `solve` on `l=r`: both sides are evaluated, left first, and a
      failure of either is the answer. */
  lemma SolveEquation(l: string, r: string)
    requires '=' !in l && '=' !in r && r != []
    ensures SolveResult(l + "=" + r) ==
              match EvalResult(l)
              case Err(e) => Failed(e)
              case Ok(left) =>
                match EvalResult(r)
                case Err(e) => Failed(e)
                case Ok(right) => Classify(left, right)
  {
    SplitEquation(l, r);
  }
}
