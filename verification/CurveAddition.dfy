/**
 The point addition `_add` of `proxy/secp.py`, over any prime p > 3 other than 7
 (the primes for which y^2 = x^3 + 7 is nonsingular). A chord or a tangent is handled
 through one predicate, `Slope`, and the sum through its coordinates before they are
 reduced modulo p, so that the laws of the group become polynomial identities.
 */
module CurveAddition {
  import opened PrimeField

  /** None is the point at infinity; every other point is a pair of residues. */
  datatype Point = Infinity | Affine(x: int, y: int)

  ghost predicate CurvePrime(p: int) {
    IsPrime(p) && p > 3 && p != 7
  }

  ghost predicate Same(p: int, a: int, b: int)
    requires p > 0
  {
    Vanishes(p, a - b)
  }

  /** (x, y) satisfies y^2 = x^3 + 7 modulo p; the coordinates need not be reduced. */
  ghost predicate Curve(p: int, x: int, y: int)
    requires p > 0
  {
    Vanishes(p, y * y - x * x * x - 7)
  }

  ghost predicate OnCurve(p: int, u: Point)
    requires p > 0
  {
    u.Affine? ==> 0 <= u.x < p && 0 <= u.y < p && Curve(p, u.x, u.y)
  }

  function Add(p: int, u: Point, v: Point): Point
    requires p > 1
  {
    match (u, v)
    case (Infinity, _) => v
    case (_, Infinity) => u
    case (Affine(x1, y1), Affine(x2, y2)) =>
      if x1 == x2 && (y1 + y2) % p == 0 then
        Infinity
      else
        var m := if u == v then (3 * x1 * x1) * Inv(p, 2 * y1) % p
                 else (y2 - y1) * Inv(p, x2 - x1) % p;
        var x3 := (m * m - x1 - x2) % p;
        var y3 := (m * (x1 - x3) - y1) % p;
        Affine(x3, y3)
  }

  // ---------------------------------------------------------------------------
  // Congruence

  lemma SameMul(p: int, a: int, b: int, c: int, d: int)
    requires p > 0 && Same(p, a, b) && Same(p, c, d)
    ensures Same(p, a * c, b * d)
  {
    Combine2(p, c, a - b, b, c - d);
    assert c * (a - b) + b * (c - d) == a * c - b * d;
  }

  lemma SameSum(p: int, a: int, b: int, c: int, d: int)
    requires p > 0 && Same(p, a, b) && Same(p, c, d)
    ensures Same(p, a + c, b + d) && Same(p, a - c, b - d)
  {
    VanishesAdd(p, a - b, c - d);
    assert (a - b) + (c - d) == (a + c) - (b + d);
    assert (a - b) - (c - d) == (a - c) - (b - d);
  }

  lemma SameSym(p: int, a: int, b: int)
    requires p > 0 && Same(p, a, b)
    ensures Same(p, b, a)
  {
    VanishesScale(p, -1, a - b);
  }

  lemma SameTrans(p: int, a: int, b: int, c: int)
    requires p > 0 && Same(p, a, b) && Same(p, b, c)
    ensures Same(p, a, c)
  {
    VanishesAdd(p, a - b, b - c);
  }

  lemma SameRefl(p: int, a: int)
    requires p > 0
    ensures Same(p, a, a)
  {
  }

  /** Vanishing is unchanged by replacing a term with a congruent one. */
  lemma SameVanishes(p: int, a: int, b: int)
    requires p > 0 && Same(p, a, b)
    ensures Vanishes(p, a) <==> Vanishes(p, b)
  {
    if Vanishes(p, b) {
      VanishesAdd(p, a - b, b);
    }
    if Vanishes(p, a) {
      VanishesAdd(p, a, a - b);
    }
  }

  // ---------------------------------------------------------------------------
  // Slopes

  /** The point with these coordinates, reduced. */
  function At(p: int, x: int, y: int): Point
    requires p > 0
  {
    Affine(x % p, y % p)
  }

  /**
   l is the slope of the line that meets the curve at both points: it passes through
   them, and when they coincide it is the tangent. With a = x1 - x2 and s the third
   root, a + s == l*l - 3*x2 and a * s == 3*x2*x2 - 2*y2*l.
   */
  ghost predicate Slope(p: int, l: int, x1: int, y1: int, x2: int, y2: int)
    requires p > 0
  {
    && Vanishes(p, y1 - y2 - l * (x1 - x2))
    && Vanishes(p, (x1 - x2) * (l * l - x1 - 2 * x2) - (3 * x2 * x2 - 2 * y2 * l))
  }

  /** The two points are each other's negative. */
  ghost predicate Opposite(p: int, x1: int, y1: int, x2: int, y2: int)
    requires p > 0
  {
    Vanishes(p, x1 - x2) && Vanishes(p, y1 + y2)
  }

  lemma SlopeCongruent(p: int, l: int, x1: int, y1: int, x2: int, y2: int, u1: int, v1: int, u2: int, v2: int)
    requires p > 0 && Slope(p, l, x1, y1, x2, y2)
    requires Same(p, x1, u1) && Same(p, y1, v1) && Same(p, x2, u2) && Same(p, y2, v2)
    ensures Slope(p, l, u1, v1, u2, v2)
  {
    SameRefl(p, l);
    SameRefl(p, l * l);
    SameSum(p, x1, u1, x2, u2);
    SameSum(p, y1, v1, y2, v2);
    SameMul(p, l, l, x1 - x2, u1 - u2);
    SameSum(p, y1 - y2, v1 - v2, l * (x1 - x2), l * (u1 - u2));
    SameVanishes(p, y1 - y2 - l * (x1 - x2), v1 - v2 - l * (u1 - u2));
    SlopeSecond(p, l, x1, x2, y2, u1, u2, v2);
  }

  lemma SlopeSecond(p: int, l: int, x1: int, x2: int, y2: int, u1: int, u2: int, v2: int)
    requires p > 0 && Same(p, x1, u1) && Same(p, x2, u2) && Same(p, y2, v2)
    requires Vanishes(p, (x1 - x2) * (l * l - x1 - 2 * x2) - (3 * x2 * x2 - 2 * y2 * l))
    ensures Vanishes(p, (u1 - u2) * (l * l - u1 - 2 * u2) - (3 * u2 * u2 - 2 * v2 * l))
  {
    SameSum(p, x1, u1, x2, u2);
    SameMul(p, 2, 2, x2, u2);
    SameSum(p, l * l, l * l, x1, u1);
    SameSum(p, l * l - x1, l * l - u1, 2 * x2, 2 * u2);
    SameMul(p, x1 - x2, u1 - u2, l * l - x1 - 2 * x2, l * l - u1 - 2 * u2);
    SameMul(p, 3, 3, x2, u2);
    SameMul(p, 3 * x2, 3 * u2, x2, u2);
    SameMul(p, 2, 2, y2, v2);
    SameMul(p, 2 * y2, 2 * v2, l, l);
    SameSum(p, 3 * x2 * x2, 3 * u2 * u2, 2 * y2 * l, 2 * v2 * l);
    var f, g := (x1 - x2) * (l * l - x1 - 2 * x2), (u1 - u2) * (l * l - u1 - 2 * u2);
    var h, k := 3 * x2 * x2 - 2 * y2 * l, 3 * u2 * u2 - 2 * v2 * l;
    SameSum(p, f, g, h, k);
    SameVanishes(p, f - h, g - k);
  }

  lemma OppositeCongruent(p: int, x1: int, y1: int, x2: int, y2: int, u1: int, v1: int, u2: int, v2: int)
    requires p > 0
    requires Same(p, x1, u1) && Same(p, y1, v1) && Same(p, x2, u2) && Same(p, y2, v2)
    ensures Opposite(p, x1, y1, x2, y2) <==> Opposite(p, u1, v1, u2, v2)
  {
    SameSum(p, x1, u1, x2, u2);
    SameSum(p, y1, v1, y2, v2);
    SameVanishes(p, x1 - x2, u1 - u2);
    SameVanishes(p, y1 + y2, v1 + v2);
  }

  lemma TangentSlope(p: int, l: int, x1: int, y1: int, x2: int, y2: int)
    requires p > 0 && Slope(p, l, x1, y1, x2, y2) && Vanishes(p, x1 - x2)
    ensures Vanishes(p, 2 * y2 * l - 3 * x2 * x2)
  {
    var a, w := x1 - x2, l * l - x1 - 2 * x2;
    Combine2(p, -w, a, 1, a * w - (3 * x2 * x2 - 2 * y2 * l));
    assert -w * a + 1 * (a * w - (3 * x2 * x2 - 2 * y2 * l)) == 2 * y2 * l - 3 * x2 * x2;
  }

  /** Points with the same x on a common line coincide, so 2*y is not zero unless they are opposite. */
  lemma DoubleNonzero(p: int, l: int, x1: int, y1: int, x2: int, y2: int)
    requires CurvePrime(p) && !Opposite(p, x1, y1, x2, y2)
    requires Slope(p, l, x1, y1, x2, y2) && Vanishes(p, x1 - x2)
    ensures Vanishes(p, y1 - y2) && !Vanishes(p, 2 * y2)
  {
    Combine2(p, 1, y1 - y2 - l * (x1 - x2), l, x1 - x2);
    if Vanishes(p, 2 * y2) {
      VanishesAdd(p, y1 - y2, 2 * y2);
    }
  }

  // ---------------------------------------------------------------------------
  // The sum of two points that are not opposite

  function ThirdX(l: int, x1: int, x2: int): int {
    l * l - x1 - x2
  }

  function ThirdY(l: int, x1: int, y1: int, x3: int): int {
    l * (x1 - x3) - y1
  }

  lemma ComputedTangent(p: int, l: int, x1: int, y1: int)
    requires CurvePrime(p) && Slope(p, l, x1, y1, x1, y1) && !Opposite(p, x1, y1, x1, y1)
    ensures Same(p, (3 * x1 * x1) * Inv(p, 2 * y1) % p, l)
  {
    DoubleNonzero(p, l, x1, y1, x1, y1);
    TangentSlope(p, l, x1, y1, x1, y1);
    QuotientIs(p, 2 * y1, l, 3 * x1 * x1);
  }

  lemma ComputedChord(p: int, l: int, x1: int, y1: int, x2: int, y2: int)
    requires CurvePrime(p) && Slope(p, l, x1, y1, x2, y2) && !Vanishes(p, x2 - x1)
    ensures Same(p, (y2 - y1) * Inv(p, x2 - x1) % p, l)
  {
    assert (x2 - x1) * l - (y2 - y1) == y1 - y2 - l * (x1 - x2);
    QuotientIs(p, x2 - x1, l, y2 - y1);
  }

  /**
   The slope that _add computes is the slope of the two reduced points; the value it
   inverts is never zero modulo p.
   */
  lemma ComputedSlope(p: int, l: int, x1: int, y1: int, x2: int, y2: int)
    requires CurvePrime(p) && 0 <= x1 < p && 0 <= x2 < p && 0 <= y1 < p && 0 <= y2 < p
    requires Slope(p, l, x1, y1, x2, y2) && !Opposite(p, x1, y1, x2, y2)
    ensures x1 == x2 ==> y1 == y2 && !Vanishes(p, 2 * y1)
    ensures x1 != x2 ==> !Vanishes(p, x2 - x1)
    ensures Same(p, if x1 == x2 then (3 * x1 * x1) * Inv(p, 2 * y1) % p
                    else (y2 - y1) * Inv(p, x2 - x1) % p, l)
  {
    if x1 == x2 {
      DoubleNonzero(p, l, x1, y1, x2, y2);
      SmallVanishes(p, y1 - y2);
      ComputedTangent(p, l, x1, y1);
    } else {
      if Vanishes(p, x2 - x1) {
        SmallVanishes(p, x2 - x1);
      }
      ComputedChord(p, l, x1, y1, x2, y2);
    }
  }

  /** Multiplying by the inverse of d divides by d. */
  lemma QuotientIs(p: int, d: int, l: int, n: int)
    requires IsPrime(p) && !Vanishes(p, d) && Vanishes(p, d * l - n)
    ensures Same(p, n * Inv(p, d) % p, l)
  {
    var i := Inv(p, d);
    InvIsInverse(p, d);
    Combine2(p, -i, d * l - n, l, d * i - 1);
    assert -i * (d * l - n) + l * (d * i - 1) == n * i - l;
    Remainder(p, n * i);
    SameTrans(p, n * i % p, n * i, l);
  }

  lemma ThirdCongruent(p: int, m: int, l: int, x1: int, y1: int, x2: int, u1: int, v1: int, u2: int, x3: int)
    requires p > 0 && Same(p, m, l) && Same(p, u1, x1) && Same(p, v1, y1) && Same(p, u2, x2)
    requires x3 == (m * m - u1 - u2) % p
    ensures x3 == ThirdX(l, x1, x2) % p
    ensures (m * (u1 - x3) - v1) % p == ThirdY(l, x1, y1, ThirdX(l, x1, x2)) % p
  {
    var t := ThirdX(l, x1, x2);
    SameMul(p, m, l, m, l);
    SameSum(p, m * m, l * l, u1, x1);
    SameSum(p, m * m - u1, l * l - x1, u2, x2);
    SameRemainder(p, m * m - u1 - u2, t);
    Remainder(p, m * m - u1 - u2);
    SameTrans(p, x3, m * m - u1 - u2, t);
    SameSum(p, u1, x1, x3, t);
    SameMul(p, m, l, u1 - x3, x1 - t);
    SameSum(p, m * (u1 - x3), l * (x1 - t), v1, y1);
    SameRemainder(p, m * (u1 - x3) - v1, l * (x1 - t) - y1);
  }

  /** Any slope of two points that are not opposite gives their sum. */
  lemma SumBySlope(p: int, l: int, x1: int, y1: int, x2: int, y2: int)
    requires CurvePrime(p) && Slope(p, l, x1, y1, x2, y2) && !Opposite(p, x1, y1, x2, y2)
    ensures var x3 := ThirdX(l, x1, x2);
            Add(p, At(p, x1, y1), At(p, x2, y2)) == At(p, x3, ThirdY(l, x1, y1, x3))
  {
    var u1, v1, u2, v2 := x1 % p, y1 % p, x2 % p, y2 % p;
    Remainder(p, x1);
    Remainder(p, y1);
    Remainder(p, x2);
    Remainder(p, y2);
    SlopeCongruent(p, l, x1, y1, x2, y2, u1, v1, u2, v2);
    OppositeCongruent(p, x1, y1, x2, y2, u1, v1, u2, v2);
    ComputedSlope(p, l, u1, v1, u2, v2);
    var m := if u1 == u2 then (3 * u1 * u1) * Inv(p, 2 * v1) % p
             else (v2 - v1) * Inv(p, u2 - u1) % p;
    ThirdCongruent(p, m, l, x1, y1, x2, u1, v1, u2, (m * m - u1 - u2) % p);
  }

  /** Two points of the curve that are not opposite lie on a line with a slope. */
  lemma SlopeExists(p: int, x1: int, y1: int, x2: int, y2: int) returns (l: int)
    requires CurvePrime(p) && Curve(p, x1, y1) && Curve(p, x2, y2) && !Opposite(p, x1, y1, x2, y2)
    ensures Slope(p, l, x1, y1, x2, y2)
  {
    var a := x1 - x2;
    if Vanishes(p, a) {
      l := SlopeTangent(p, x1, y1, x2, y2);
    } else {
      l := (y1 - y2) * Inv(p, a);
      InvIsInverse(p, a);
      VanishesScale(p, -(y1 - y2), a * Inv(p, a) - 1);
      assert -(y1 - y2) * (a * Inv(p, a) - 1) == y1 - y2 - l * a;
      ChordSecond(p, l, x1, y1, x2, y2);
    }
  }

  lemma SlopeTangent(p: int, x1: int, y1: int, x2: int, y2: int) returns (l: int)
    requires CurvePrime(p) && Curve(p, x1, y1) && Curve(p, x2, y2) && !Opposite(p, x1, y1, x2, y2)
    requires Vanishes(p, x1 - x2)
    ensures Slope(p, l, x1, y1, x2, y2)
  {
    var a := x1 - x2;
    SameXSameY(p, x1, y1, x2, y2);
    if Vanishes(p, 2 * y2) {
      VanishesAdd(p, y1 - y2, 2 * y2);
    }
    InvIsInverse(p, 2 * y2);
    var i := Inv(p, 2 * y2);
    l := 3 * x2 * x2 * i;
    Combine2(p, 1, y1 - y2, -l, a);
    assert 1 * (y1 - y2) + -l * a == y1 - y2 - l * a;
    var w := l * l - x1 - 2 * x2;
    Combine2(p, w, a, 3 * x2 * x2, 2 * y2 * i - 1);
    TangentAlgebra(a, w, x2, y2, i);
  }

  lemma TangentAlgebra(a: int, w: int, x2: int, y2: int, i: int)
    ensures w * a + (3 * x2 * x2) * (2 * y2 * i - 1) == a * w - (3 * x2 * x2 - 2 * y2 * (3 * x2 * x2 * i))
  {
    var t := 3 * x2 * x2;
    assert t * (2 * y2 * i - 1) == 2 * y2 * (t * i) - t;
  }

  /** On the curve, x determines y up to sign. */
  lemma SameXSameY(p: int, x1: int, y1: int, x2: int, y2: int)
    requires IsPrime(p) && Curve(p, x1, y1) && Curve(p, x2, y2) && !Opposite(p, x1, y1, x2, y2)
    requires Vanishes(p, x1 - x2)
    ensures Vanishes(p, y1 - y2)
  {
    SameMul(p, x1, x2, x1, x2);
    SameMul(p, x1 * x1, x2 * x2, x1, x2);
    VanishesAdd(p, y1 * y1 - x1 * x1 * x1 - 7, y2 * y2 - x2 * x2 * x2 - 7);
    var f := (y1 * y1 - x1 * x1 * x1 - 7) - (y2 * y2 - x2 * x2 * x2 - 7);
    VanishesAdd(p, f, x1 * x1 * x1 - x2 * x2 * x2);
    assert f + (x1 * x1 * x1 - x2 * x2 * x2) == (y1 + y2) * (y1 - y2);
    Cancel(p, y1 + y2, y1 - y2);
  }

  /** A chord meets the curve a third time where its quadratic says. */
  lemma ChordSecond(p: int, l: int, x1: int, y1: int, x2: int, y2: int)
    requires IsPrime(p) && Curve(p, x1, y1) && Curve(p, x2, y2)
    requires Vanishes(p, y1 - y2 - l * (x1 - x2)) && !Vanishes(p, x1 - x2)
    ensures Slope(p, l, x1, y1, x2, y2)
  {
    var a, z := x1 - x2, y1 - y2 - l * (x1 - x2);
    var g := a * (l * l - x1 - 2 * x2) - (3 * x2 * x2 - 2 * y2 * l);
    Combine3(p, 1, y1 * y1 - x1 * x1 * x1 - 7, -1, y2 * y2 - x2 * x2 * x2 - 7, -(y1 + y2 + l * a), z);
    ChordAlgebra(a, l, x2, y2, z);
    Cancel(p, a, g);
  }

  lemma ChordAlgebra(a: int, l: int, x: int, y: int, z: int)
    ensures var x1, y1 := x + a, y + l * a + z;
            1 * (y1 * y1 - x1 * x1 * x1 - 7) + -1 * (y * y - x * x * x - 7) + -(y1 + y + l * a) * z
            == a * (a * (l * l - x1 - 2 * x) - (3 * x * x - 2 * y * l))
  {
    var x1, y1, w := x + a, y + l * a + z, y + l * a;
    assert (w + z) * (w + z) - (w + z + w) * z == w * w;
    assert w * w == y * y + 2 * (a * (y * l)) + a * (a * (l * l));
    assert x1 * x1 * x1 == x * x * x + 3 * (a * (x * x)) + 3 * (a * (a * x)) + a * (a * a);
    assert a * (a * (l * l - x1 - 2 * x) - (3 * x * x - 2 * y * l))
        == a * (a * (l * l)) - 3 * (a * (a * x)) - a * (a * a) - 3 * (a * (x * x)) + 2 * (a * (y * l));
    assert (y1 + y + l * a) * z == (w + z + w) * z;
  }
}
