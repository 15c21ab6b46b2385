/**
 The group laws of the point addition: closure, commutativity, inverses and, with no
 hypothesis beyond the prime, associativity.

 Associativity is proved in coordinates centred at the middle point Q = (c, y). A point
 P that is not -Q is (c + a, y + l*a), where l is the slope of the line through P and Q,
 and a is a root of the quadratic that also has the third intersection s as a root:
 a + s == l*l - 3*c and a*s == 3*c*c - 2*y*l, so P + Q is (c + s, -(y + l*s)). If R is
 (c + b, y + m*b) with third root t, and n is the slope through P + Q and R, then
 n - m + l is the slope through P and Q + R. That one fact makes both sums equal.
 */
module CurveGroup {
  import opened PrimeField
  import opened CurveAddition

  function Neg(p: int, u: Point): Point
    requires p > 0
  {
    match u
    case Infinity => Infinity
    case Affine(x, y) => At(p, x, -y)
  }

  lemma AtReduced(p: int, u: Point)
    requires p > 0 && OnCurve(p, u) && u.Affine?
    ensures u == At(p, u.x, u.y)
  {
    SmallMod(p, u.x);
    SmallMod(p, u.y);
  }

  lemma AtEqual(p: int, x1: int, y1: int, x2: int, y2: int)
    requires p > 0
    ensures At(p, x1, y1) == At(p, x2, y2) <==> Same(p, x1, x2) && Same(p, y1, y2)
  {
    SameRemainder(p, x1, x2);
    SameRemainder(p, y1, y2);
  }

  lemma AtOnCurve(p: int, x: int, y: int)
    requires p > 0 && Curve(p, x, y)
    ensures OnCurve(p, At(p, x, y))
  {
    var u, v := x % p, y % p;
    Remainder(p, x);
    Remainder(p, y);
    SameMul(p, y, v, y, v);
    SameMul(p, x, u, x, u);
    SameMul(p, x * x, u * u, x, u);
    SameSum(p, y * y, v * v, x * x * x, u * u * u);
    SameSum(p, y * y - x * x * x, v * v - u * u * u, 7, 7);
    SameVanishes(p, y * y - x * x * x - 7, v * v - u * u * u - 7);
  }

  lemma CurveNegated(p: int, x: int, y: int)
    requires p > 0 && Curve(p, x, y)
    ensures Curve(p, x, -y)
  {
    assert -y * -y == y * y;
  }

  lemma NegOnCurve(p: int, u: Point)
    requires p > 0 && OnCurve(p, u)
    ensures OnCurve(p, Neg(p, u))
  {
    if u.Affine? {
      CurveNegated(p, u.x, u.y);
      AtOnCurve(p, u.x, -u.y);
    }
  }

  // ---------------------------------------------------------------------------
  // Lines through a centre (c, y)

  /** The other root of the quadratic of the line with slope l, when a is one of them. */
  function Root(c: int, l: int, a: int): int {
    l * l - 3 * c - a
  }

  /** (c + a, y + l*a) is on the line of slope l through (c, y), tangent when a is zero. */
  ghost predicate Secant(p: int, c: int, y: int, l: int, a: int)
    requires p > 0
  {
    Vanishes(p, a * Root(c, l, a) - (3 * c * c - 2 * y * l))
  }

  lemma SecantOther(p: int, c: int, y: int, l: int, a: int)
    requires p > 0 && Secant(p, c, y, l, a)
    ensures Secant(p, c, y, l, Root(c, l, a)) && Root(c, l, Root(c, l, a)) == a
  {
  }

  /** Every point on a secant of a point of the curve is on the curve. */
  lemma SecantOnCurve(p: int, c: int, y: int, l: int, a: int)
    requires p > 0 && Curve(p, c, y) && Secant(p, c, y, l, a)
    ensures Curve(p, c + a, y + l * a)
  {
    var r := a * Root(c, l, a) - (3 * c * c - 2 * y * l);
    Combine2(p, 1, y * y - c * c * c - 7, a, r);
    SecantAlgebra(c, y, l, a);
  }

  lemma SecantAlgebra(c: int, y: int, l: int, a: int)
    ensures var r := a * Root(c, l, a) - (3 * c * c - 2 * y * l);
            var x1, y1 := c + a, y + l * a;
            1 * (y * y - c * c * c - 7) + a * r == y1 * y1 - x1 * x1 * x1 - 7
  {
    var x1, y1 := c + a, y + l * a;
    var r := a * Root(c, l, a) - (3 * c * c - 2 * y * l);
    assert y1 * y1 == y * y + 2 * (a * (y * l)) + a * (a * (l * l));
    assert x1 * x1 * x1 == c * c * c + 3 * (a * (c * c)) + 3 * (a * (a * c)) + a * (a * a);
    assert a * r == a * (a * (l * l)) - 3 * (a * (a * c)) - a * (a * a) - 3 * (a * (c * c)) + 2 * (a * (y * l));
  }

  lemma SecantSlope(p: int, c: int, y: int, l: int, a: int)
    requires p > 0 && Secant(p, c, y, l, a)
    ensures Slope(p, l, c + a, y + l * a, c, y)
    ensures Slope(p, l, c, y, c + a, y + l * a)
  {
    var x1, y1 := c + a, y + l * a;
    SlopeAlgebra(c, y, l, a);
    assert y1 - y - l * (x1 - c) == 0;
    assert y - y1 - l * (c - x1) == 0;
  }

  lemma SlopeAlgebra(c: int, y: int, l: int, a: int)
    ensures var x1, y1 := c + a, y + l * a;
            && x1 - c == a && l * l - x1 - 2 * c == Root(c, l, a)
            && (c - x1) * (l * l - c - 2 * x1) - (3 * x1 * x1 - 2 * y1 * l)
               == a * Root(c, l, a) - (3 * c * c - 2 * y * l)
  {
    var x1, y1 := c + a, y + l * a;
    assert 3 * x1 * x1 == 3 * c * c + 6 * (a * c) + 3 * (a * a);
    assert 2 * y1 * l == 2 * y * l + 2 * (a * (l * l));
    assert (c - x1) * (l * l - c - 2 * x1) == -(a * (l * l)) + 3 * (a * c) + 2 * (a * a);
    assert a * Root(c, l, a) == a * (l * l) - 3 * (a * c) - a * a;
  }

  lemma ThirdAlgebra(c: int, y: int, l: int, a: int)
    ensures var s := Root(c, l, a);
            && ThirdX(l, c + a, c) == c + s && ThirdX(l, c, c + a) == c + s
            && ThirdY(l, c + a, y + l * a, c + s) == -(y + l * s)
            && ThirdY(l, c, y, c + s) == -(y + l * s)
  {
    var s := Root(c, l, a);
    assert l * (c + a - (c + s)) == l * a - l * s;
    assert l * (c - (c + s)) == -(l * s);
  }

  /** The sum of the two ends of a secant, in either order. */
  lemma SumSecant(p: int, c: int, y: int, l: int, a: int)
    requires CurvePrime(p) && Secant(p, c, y, l, a) && !Opposite(p, c + a, y + l * a, c, y)
    ensures var s := Root(c, l, a);
            && Add(p, At(p, c + a, y + l * a), At(p, c, y)) == At(p, c + s, -(y + l * s))
            && Add(p, At(p, c, y), At(p, c + a, y + l * a)) == At(p, c + s, -(y + l * s))
  {
    SecantSlope(p, c, y, l, a);
    ThirdAlgebra(c, y, l, a);
    OppositeSwap(p, c + a, y + l * a, c, y);
    SumBySlope(p, l, c + a, y + l * a, c, y);
    SumBySlope(p, l, c, y, c + a, y + l * a);
  }

  /** A point of the curve that is not opposite to the centre is on a secant. */
  lemma SecantExists(p: int, u: Point, v: Point) returns (l: int, a: int)
    requires CurvePrime(p) && OnCurve(p, u) && OnCurve(p, v) && u.Affine? && v.Affine?
    requires !Opposite(p, u.x, u.y, v.x, v.y)
    ensures Secant(p, v.x, v.y, l, a) && u == At(p, v.x + a, v.y + l * a)
    ensures !Opposite(p, v.x + a, v.y + l * a, v.x, v.y)
  {
    a := u.x - v.x;
    l := SlopeExists(p, u.x, u.y, v.x, v.y);
    AtReduced(p, u);
    assert l * l - u.x - 2 * v.x == Root(v.x, l, a);
    assert u.y - v.y - l * a == u.y - (v.y + l * a);
    AtEqual(p, u.x, u.y, v.x + a, v.y + l * a);
    OppositeCongruent(p, u.x, u.y, v.x, v.y, v.x + a, v.y + l * a, v.x, v.y);
  }

  // ---------------------------------------------------------------------------
  // Closure, commutativity, inverses

  lemma OppositeReduced(p: int, u: Point, v: Point)
    requires p > 0 && OnCurve(p, u) && OnCurve(p, v) && u.Affine? && v.Affine?
    ensures Opposite(p, u.x, u.y, v.x, v.y) <==> u.x == v.x && (u.y + v.y) % p == 0
  {
    OppositeSmall(p, u.x, u.y, v.x, v.y);
  }

  lemma OppositeSmall(p: int, x1: int, y1: int, x2: int, y2: int)
    requires 0 <= x1 < p && 0 <= x2 < p
    ensures Opposite(p, x1, y1, x2, y2) <==> x1 == x2 && (y1 + y2) % p == 0
  {
    if Vanishes(p, x1 - x2) {
      SmallVanishes(p, x1 - x2);
    }
    SmallMod(p, 0);
  }

  /** _add answers Infinity on two affine points exactly when they are opposite. */
  lemma OppositeSum(p: int, u: Point, v: Point)
    requires CurvePrime(p) && OnCurve(p, u) && OnCurve(p, v) && u.Affine? && v.Affine?
    ensures Opposite(p, u.x, u.y, v.x, v.y) <==> Add(p, u, v) == Infinity
    ensures Opposite(p, u.x, u.y, v.x, v.y) <==> u == Neg(p, v)
  {
    OppositeReduced(p, u, v);
    AtReduced(p, u);
    AtEqual(p, u.x, u.y, v.x, -v.y);
  }

  /** The sum of two points of the curve is a reduced point of the curve or Infinity. */
  lemma Closure(p: int, u: Point, v: Point)
    requires CurvePrime(p) && OnCurve(p, u) && OnCurve(p, v)
    ensures OnCurve(p, Add(p, u, v))
  {
    if u.Affine? && v.Affine? && !Opposite(p, u.x, u.y, v.x, v.y) {
      var l, a := SecantExists(p, u, v);
      AtReduced(p, v);
      SumSecant(p, v.x, v.y, l, a);
      SecantOther(p, v.x, v.y, l, a);
      var s := Root(v.x, l, a);
      SecantOnCurve(p, v.x, v.y, l, s);
      CurveNegated(p, v.x + s, v.y + l * s);
      AtOnCurve(p, v.x + s, -(v.y + l * s));
    } else if u.Affine? && v.Affine? {
      OppositeSum(p, u, v);
    }
  }

  lemma Commutative(p: int, u: Point, v: Point)
    requires CurvePrime(p) && OnCurve(p, u) && OnCurve(p, v)
    ensures Add(p, u, v) == Add(p, v, u)
  {
    if u.Affine? && v.Affine? && !Opposite(p, u.x, u.y, v.x, v.y) {
      var l, a := SecantExists(p, u, v);
      AtReduced(p, v);
      SumSecant(p, v.x, v.y, l, a);
    } else if u.Affine? && v.Affine? {
      OppositeSwap(p, u.x, u.y, v.x, v.y);
      OppositeSum(p, u, v);
      OppositeSum(p, v, u);
    }
  }

  lemma OppositeSwap(p: int, x1: int, y1: int, x2: int, y2: int)
    requires p > 0
    ensures Opposite(p, x1, y1, x2, y2) <==> Opposite(p, x2, y2, x1, y1)
  {
    if Vanishes(p, x1 - x2) { SameSym(p, x1, x2); }
    if Vanishes(p, x2 - x1) { SameSym(p, x2, x1); }
  }

  /** -u is the inverse of u, and the only one. */
  lemma Inverse(p: int, u: Point, v: Point)
    requires CurvePrime(p) && OnCurve(p, u) && OnCurve(p, v)
    ensures Add(p, u, v) == Infinity <==> u == Neg(p, v)
    ensures Neg(p, Neg(p, v)) == v
  {
    if v.Affine? {
      AtReduced(p, v);
      NegNeg(p, v.x, v.y);
      if u.Affine? {
        OppositeSum(p, u, v);
      }
    }
  }

  lemma NegNeg(p: int, x: int, y: int)
    requires p > 0
    ensures Neg(p, Neg(p, At(p, x, y))) == At(p, x, y)
    ensures Neg(p, At(p, x, y)) == At(p, x, -y)
  {
    NegAt(p, x, y);
    NegAt(p, x, -y);
  }

  lemma NegAt(p: int, x: int, y: int)
    requires p > 0
    ensures Neg(p, At(p, x, y)) == At(p, x, -y)
  {
    Remainder(p, x);
    Remainder(p, y);
    SameSum(p, 0, 0, y % p, y);
    AtEqual(p, x % p, -(y % p), x, -y);
  }

  /** The curve is nonsingular: y and the third root of a tangent are never both zero. */
  lemma Nonsingular(p: int, c: int, y: int, l: int, a: int)
    requires CurvePrime(p) && Curve(p, c, y) && Secant(p, c, y, l, a)
    ensures !(Vanishes(p, y) && Vanishes(p, Root(c, l, a)))
  {
    var s := Root(c, l, a);
    if Vanishes(p, y) && Vanishes(p, s) {
      SmallConstants(p);
      var r := a * s - (3 * c * c - 2 * y * l);
      Combine3(p, a, s, -1, r, 2 * l, y);
      assert a * s + -1 * r + 2 * l * y == 3 * (c * c);
      Cancel(p, 3, c * c);
      if !Vanishes(p, c) { Cancel(p, c, c); }
      ConstantVanishes(p, c, y);
    }
  }

  lemma ConstantVanishes(p: int, c: int, y: int)
    requires p > 0 && Curve(p, c, y) && Vanishes(p, y) && Vanishes(p, c)
    ensures Vanishes(p, 7)
  {
    Combine3(p, y, y, -1, y * y - c * c * c - 7, -(c * c), c);
    assert y * y + -1 * (y * y - c * c * c - 7) + -(c * c) * c == 7;
  }

  /** Subtracting what was added gives the point back. */
  lemma AddThenSubtract(p: int, u: Point, v: Point)
    requires CurvePrime(p) && OnCurve(p, u) && OnCurve(p, v)
    ensures Add(p, Add(p, u, v), Neg(p, v)) == u
  {
    NegOnCurve(p, v);
    if u == Infinity {
      Inverse(p, Neg(p, v), v);
      Commutative(p, Neg(p, v), v);
    } else if v != Infinity {
      OppositeSum(p, u, v);
      if !Opposite(p, u.x, u.y, v.x, v.y) {
        var l, a := SecantExists(p, u, v);
        AtReduced(p, v);
        SumSecant(p, v.x, v.y, l, a);
        SubtractSecant(p, v.x, v.y, l, a);
      }
    }
  }

  lemma NegatedAlgebra(c: int, y: int, l: int, a: int)
    ensures var s := Root(c, l, a);
            && Root(c, -l, s) == a && -y + -l * s == -(y + l * s)
            && s * Root(c, -l, s) - (3 * c * c - 2 * -y * -l) == a * s - (3 * c * c - 2 * y * l)
    ensures -(-y + -l * a) == y + l * a
  {
    var s := Root(c, l, a);
    assert -l * -l == l * l;
    assert 2 * -y * -l == 2 * y * l;
    assert -l * s == -(l * s);
    assert -l * a == -(l * a);
  }

  lemma NegatedSecant(p: int, c: int, y: int, l: int, a: int)
    requires p > 0 && Secant(p, c, y, l, a)
    ensures var s := Root(c, l, a);
            Secant(p, c, -y, -l, s) && Root(c, -l, s) == a && -y + -l * s == -(y + l * s)
    ensures -(-y + -l * a) == y + l * a
  {
    NegatedAlgebra(c, y, l, a);
  }

  lemma SubtractSecant(p: int, c: int, y: int, l: int, a: int)
    requires CurvePrime(p) && Curve(p, c, y) && Secant(p, c, y, l, a)
    ensures var s := Root(c, l, a);
            Add(p, At(p, c + s, -(y + l * s)), Neg(p, At(p, c, y))) == At(p, c + a, y + l * a)
  {
    var s := Root(c, l, a);
    NegAt(p, c, y);
    NegatedSecant(p, c, y, l, a);
    SubtractNotOpposite(p, c, y, l, a);
    SumSecant(p, c, -y, -l, s);
  }

  lemma SubtractNotOpposite(p: int, c: int, y: int, l: int, a: int)
    requires CurvePrime(p) && Curve(p, c, y) && Secant(p, c, y, l, a)
    ensures var s := Root(c, l, a); !Opposite(p, c + s, -y + -l * s, c, -y)
  {
    var s := Root(c, l, a);
    if Opposite(p, c + s, -y + -l * s, c, -y) {
      assert c + s - c == s;
      Combine2(p, -1, -y + -l * s + -y, -l, s);
      assert -1 * (-y + -l * s + -y) + -l * s == 2 * y by {
        assert -l * s == -(l * s);
      }
      SmallConstants(p);
      Cancel(p, 2, y);
      Nonsingular(p, c, y, l, a);
    }
  }
}
