/** Java's integer division and remainder, which truncate toward zero
    (Dafny's `/` and `%` on `int` are Euclidean). */
module JavaInt {

  function Abs(x: int): nat {
    if x < 0 then -x else x
  }

  /** `x / y` on Java ints: the quotient of the magnitudes, negated when
      the signs differ, i.e. rounded toward zero. */
  function TruncDiv(x: int, y: int): int
    requires y != 0
  {
    var m := Abs(x) / Abs(y);
    if (x < 0) == (y < 0) then m else -m
  }

  /** The remainder `TruncDiv` leaves takes the sign of the dividend and is
      smaller than the divisor, and the quotient never overshoots. */
  lemma TruncDivSpec(x: int, y: int)
    requires y != 0
    ensures Abs(x - TruncDiv(x, y) * y) < Abs(y)
    ensures x - TruncDiv(x, y) * y == 0 || (x - TruncDiv(x, y) * y < 0 <==> x < 0)
    ensures Abs(TruncDiv(x, y) * y) <= Abs(x)
  {
    var ax, ay := Abs(x), Abs(y);
    EuclidMagnitudes(ax, ay);
    TruncDivCases(x, y, ax / ay, ax % ay, TruncDiv(x, y));
  }

  lemma EuclidMagnitudes(ax: nat, ay: nat)
    requires ay > 0
    ensures ax == (ax / ay) * ay + ax % ay && 0 <= ax % ay < ay && ax / ay >= 0
  {
  }

  /** The four sign cases of `TruncDiv`, each reduced to the Euclidean
      quotient and remainder of the magnitudes. */
  lemma TruncDivCases(x: int, y: int, m: int, rr: int, q: int)
    requires y != 0
    requires Abs(x) == m * Abs(y) + rr && 0 <= rr < Abs(y) && m >= 0
    requires q == if (x < 0) == (y < 0) then m else -m
    ensures x - q * y == (if x < 0 then -rr else rr)
    ensures Abs(q * y) == m * Abs(y) <= Abs(x)
  {
    assert m * Abs(y) >= 0;
    assert q * y == (if x < 0 then -(m * Abs(y)) else m * Abs(y));
  }

  /** `x % y` on Java ints: what is left of `x` once `TruncDiv(x, y)` copies
      of `y` are taken away. */
  function TruncRem(x: int, y: int): int
    requires y != 0
  {
    x - TruncDiv(x, y) * y
  }

  /** The Java remainder recombines with the quotient to the dividend, is
      smaller than the divisor and takes the sign of the dividend. */
  lemma TruncRemSpec(x: int, y: int)
    requires y != 0
    ensures x == TruncDiv(x, y) * y + TruncRem(x, y)
    ensures Abs(TruncRem(x, y)) < Abs(y)
    ensures TruncRem(x, y) == 0 || (TruncRem(x, y) < 0 <==> x < 0)
  {
    TruncDivSpec(x, y);
  }

  /** The Java remainder is zero exactly when `y` divides `x`, and then the
      truncated quotient is the exact one. */
  lemma RemZeroIffDivides(x: int, y: int)
    requires y != 0
    ensures TruncRem(x, y) == 0 <==> x % y == 0
    ensures TruncRem(x, y) == 0 ==> TruncDiv(x, y) * y == x
  {
    var q := TruncDiv(x, y);
    if x % y == 0 {
      var k := x / y;
      assert x == k * y;
      QuotientUnique(x, y, k);
    }
    if TruncRem(x, y) == 0 {
      assert x == q * y;
      MultipleHasNoRemainder(q, y);
    }
  }

  /** A quotient that leaves no remainder is the truncated quotient. */
  lemma QuotientUnique(x: int, y: int, k: int)
    requires y != 0 && x == k * y
    ensures TruncDiv(x, y) == k
  {
    var q := TruncDiv(x, y);
    TruncDivSpec(x, y);
    var r := x - q * y;
    assert Abs(r) < Abs(y);
    SubtractMultiples(k, q, y);
    if k != q {
      MulAbsAtLeast(k - q, y);
      assert false;
    }
  }

  lemma SubtractMultiples(k: int, q: int, y: int)
    ensures k * y - q * y == (k - q) * y
  {
  }

  /** A multiple of `y` has Euclidean remainder zero. */
  lemma MultipleHasNoRemainder(k: int, y: int)
    requires y != 0
    ensures (k * y) % y == 0
  {
    var x := k * y;
    var d := x / y;
    var r := x % y;
    assert x == d * y + r && 0 <= r < Abs(y);
    assert r == k * y - d * y;
    assert r == (k - d) * y;
    if k != d {
      MulAbsAtLeast(k - d, y);
      assert false;
    }
  }

  lemma MulAbsAtLeast(d: int, y: int)
    requires d != 0 && y != 0
    ensures Abs(d * y) >= Abs(y)
  {
    if d > 0 && y > 0 {
      assert d * y >= y;
    } else if d > 0 {
      assert d * y <= y;
    } else if y > 0 {
      assert d * y <= -y;
    } else {
      assert d * y >= -y;
    }
  }
}
