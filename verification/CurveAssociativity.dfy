/**
 Associativity of the point addition.

 Everything is centred at the middle point Q = (c, y): P = (c + a, y + l*a) with third
 intersection s, and R = (c + b, y + m*b) with third intersection t, so P + Q is
 (c + s, -(y + l*s)) and Q + R is (c + t, -(y + m*t)). With n the slope through P + Q
 and R, the slope through P and Q + R is n - m + l. Below, d = b - s, e = a - t,
 r1 and r2 are the vanishing secant equations of P and R, and z is the vanishing
 chord equation of P + Q and R.
 */
module CurveAssociativity {
  import opened PrimeField
  import opened CurveAddition
  import opened CurveGroup

  /** The secant equation, as a number that vanishes. */
  function Sec(c: int, y: int, l: int, a: int): int {
    a * Root(c, l, a) - (3 * c * c - 2 * y * l)
  }

  /** The chord equation of P + Q and R for the slope n. */
  function ChordSR(c: int, y: int, l: int, a: int, m: int, b: int, n: int): int {
    var s := Root(c, l, a);
    n * (b - s) - (2 * y + m * b + l * s)
  }

  /** The chord equation of P and Q + R for the slope n - m + l. */
  function ChordPT(c: int, y: int, l: int, a: int, m: int, b: int, n: int): int {
    var t := Root(c, m, b);
    (n - m + l) * (a - t) - (2 * y + m * t + l * a)
  }

  // ---------------------------------------------------------------------------
  // Polynomial identities

  /** The two secant equations share y, which ties the roots together. */
  lemma RootsTied(c: int, y: int, l: int, a: int, m: int, b: int)
    ensures var s, t := Root(c, l, a), Root(c, m, b);
            var d, e := b - s, a - t;
            && d - e == m * m - l * l
            && e * s - d * t == 2 * (y * (m - l)) + Sec(c, y, l, a) - Sec(c, y, m, b)
  {
    var s, t := Root(c, l, a), Root(c, m, b);
    assert (a - t) * s - (b - s) * t == a * s - b * t;
  }

  lemma TransferAlgebra(c: int, y: int, l: int, a: int, m: int, b: int, n: int)
    ensures var s, t := Root(c, l, a), Root(c, m, b);
            var d, e := b - s, a - t;
            d * ChordPT(c, y, l, a, m, b, n)
            == e * ChordSR(c, y, l, a, m, b, n) + (m + l) * (Sec(c, y, l, a) - Sec(c, y, m, b))
  {
    var s, t := Root(c, l, a), Root(c, m, b);
    var d, e, r := b - s, a - t, Sec(c, y, l, a) - Sec(c, y, m, b);
    RootsTied(c, y, l, a, m, b);
    TransferIdentity(y, l, m, n, s, t, d, e);
    TransferFactor(y, l, m, e * s - d * t, d - e, r);
    assert b == s + d && a == t + e;
  }

  lemma ExpandPT(y: int, l: int, m: int, n: int, t: int, d: int, e: int)
    ensures d * ((n - m + l) * e - (2 * y + m * t + l * (t + e)))
            == n * (d * e) - m * (d * e) - 2 * (y * d) - (m + l) * (d * t)
  {
    assert d * ((n - m + l) * e) == n * (d * e) - m * (d * e) + l * (d * e);
    assert d * (2 * y + m * t + l * (t + e)) == 2 * (y * d) + (m + l) * (d * t) + l * (d * e);
  }

  lemma ExpandSR(y: int, l: int, m: int, n: int, s: int, d: int, e: int)
    ensures e * (n * d - (2 * y + m * (s + d) + l * s))
            == n * (d * e) - m * (d * e) - 2 * (y * e) - (m + l) * (e * s)
  {
    assert e * (n * d) == n * (d * e);
    assert e * (2 * y + m * (s + d) + l * s) == 2 * (y * e) + (m + l) * (e * s) + m * (d * e);
  }

  lemma TransferIdentity(y: int, l: int, m: int, n: int, s: int, t: int, d: int, e: int)
    ensures d * ((n - m + l) * e - (2 * y + m * t + l * (t + e)))
            == e * (n * d - (2 * y + m * (s + d) + l * s))
             + (2 * y * (e - d) + (m + l) * (e * s - d * t))
  {
    ExpandPT(y, l, m, n, t, d, e);
    ExpandSR(y, l, m, n, s, d, e);
    assert 2 * y * (e - d) == 2 * (y * e) - 2 * (y * d);
  }

  lemma TransferFactor(y: int, l: int, m: int, f: int, g: int, r: int)
    requires f == 2 * (y * (m - l)) + r && g == m * m - l * l
    ensures 2 * y * -g + (m + l) * f == (m + l) * r
  {
    assert (m + l) * (2 * (y * (m - l))) == 2 * (y * (m * m - l * l));
  }

  /** d times the difference of the two x coordinates. */
  lemma SumXAlgebra(c: int, y: int, l: int, a: int, m: int, b: int, n: int)
    ensures var s, t := Root(c, l, a), Root(c, m, b);
            var d, r := b - s, Sec(c, y, l, a) - Sec(c, y, m, b);
            var k := n - m + l;
            d * (n * n - s - b - k * k + a + t)
            == 2 * (m - l) * ChordSR(c, y, l, a, m, b, n) - 2 * r
  {
    var s, t := Root(c, l, a), Root(c, m, b);
    var d, e, r := b - s, a - t, Sec(c, y, l, a) - Sec(c, y, m, b);
    RootsTied(c, y, l, a, m, b);
    SumXIdentity(y, l, m, n, s, t, d, e, r);
    assert b == s + d && a == t + e;
  }

  lemma SumXIdentity(y: int, l: int, m: int, n: int, s: int, t: int, d: int, e: int, r: int)
    requires d - e == m * m - l * l && e * s - d * t == 2 * (y * (m - l)) + r
    ensures var k := n - m + l;
            d * (n * n - s - (s + d) - k * k + (t + e) + t)
            == 2 * (m - l) * (n * d - (2 * y + m * (s + d) + l * s)) - 2 * r
  {
    var k, w := n - m + l, m - l;
    assert n * n - k * k == w * (2 * n - w);
    assert w * (m + l) == d - e;
    assert w * (2 * y + m * (s + d) + l * s) == 2 * (y * w) + (w * (m + l)) * s + (w * m) * d;
    assert d * (w * (2 * n - w)) == 2 * w * (n * d) - d * (w * w);
    assert 2 * (w * m) - w * w == w * (m + l);
    assert d * (2 * (w * m) - w * w) == d * (d - e);
    assert 2 * ((w * m) * d) - d * (w * w) == d * (2 * (w * m) - w * w);
    assert d * (-s - (s + d) + (t + e) + t) == 2 * (d * t) - 2 * (d * s) - d * (d - e);
    assert (d - e) * s == d * s - e * s;
  }

  /**
   d*d times the difference of the two y coordinates, once the x coordinates agree; g is
   3*c + s + b.
   */
  lemma SumYAlgebra(c: int, y: int, l: int, a: int, m: int, b: int, n: int)
    ensures var s, z := Root(c, l, a), ChordSR(c, y, l, a, m, b, n);
            var d, g, r := b - s, 3 * c + s + b, Sec(c, y, l, a) - Sec(c, y, m, b);
            var n1 := 2 * y + m * b + l * s;
            d * (d * ((n - m) * (b - a) - (m - l) * (n * n - g)))
            == (d * (b - a) - (m - l) * (z + 2 * n1)) * z + (n1 - d * l) * r
  {
    var s, t, z := Root(c, l, a), Root(c, m, b), ChordSR(c, y, l, a, m, b, n);
    var d, e, g, r := b - s, a - t, 3 * c + s + b, Sec(c, y, l, a) - Sec(c, y, m, b);
    RootsTied(c, y, l, a, m, b);
    assert t == m * m + s - g && b - a == g - l * l;
    SumYNumerator(y, l, m, s, t, d, e, g, r);
    SumYIdentity(y, l, m, n, s, d, g, r, z);
    assert b == s + d;
  }

  lemma SumYNumerator(y: int, l: int, m: int, s: int, t: int, d: int, e: int, g: int, r: int)
    requires d - e == m * m - l * l && e * s - d * t == 2 * (y * (m - l)) + r && t == m * m + s - g
    ensures (m - l) * (2 * y + m * (s + d) + l * s) == d * (g - m * l) - r
    ensures (m - l) * (2 * y + (m + l) * s) == d * (g - m * m) - r
  {
    SumYCoincident(y, l, m, s, t, d, e, g, r);
    NumeratorShift(y, l, m, s, d);
    assert d * (g - m * l) == d * (g - m * m) + d * (m * m) - d * (m * l);
  }

  lemma SumYCoincident(y: int, l: int, m: int, s: int, t: int, d: int, e: int, g: int, r: int)
    requires d - e == m * m - l * l && e * s - d * t == 2 * (y * (m - l)) + r && t == m * m + s - g
    ensures (m - l) * (2 * y + (m + l) * s) == d * (g - m * m) - r
  {
    NumeratorExpand(y, l, m, s);
    assert (d - e) * s == d * s - e * s;
    assert d * t == d * (s - (g - m * m)) == d * s - d * (g - m * m);
  }

  lemma NumeratorExpand(y: int, l: int, m: int, s: int)
    ensures (m - l) * (2 * y + (m + l) * s) == 2 * (y * (m - l)) + (m * m - l * l) * s
  {
    assert (m - l) * (m + l) == m * m - l * l;
    assert (m - l) * ((m + l) * s) == ((m - l) * (m + l)) * s;
  }

  lemma NumeratorShift(y: int, l: int, m: int, s: int, d: int)
    ensures (m - l) * (2 * y + m * (s + d) + l * s)
            == (m - l) * (2 * y + (m + l) * s) + d * (m * m) - d * (m * l)
  {
    assert m * (s + d) + l * s == (m + l) * s + m * d;
    assert (m - l) * (m * d) == d * (m * m) - d * (m * l);
  }

  lemma SquareShift(w: int, q: int, z: int, n1: int)
    requires q == z + n1
    ensures w * (q * q) == w * (z * z) + 2 * (w * n1) * z + (w * n1) * n1
  {
    assert q * q == z * z + 2 * (z * n1) + n1 * n1;
    assert w * (2 * (z * n1)) == 2 * (w * n1) * z;
    assert w * (n1 * n1) == (w * n1) * n1;
  }

  lemma SumYScale(d: int, n: int, m: int, v: int, w: int, g: int, u: int)
    requires d * (n - m) == u
    ensures d * (d * ((n - m) * v - w * (n * n - g)))
            == d * (v * u) - w * ((n * d) * (n * d)) + w * (d * (d * g))
  {
    ScaleOnce(d, n, m, v, w, g, u);
    SquareScale(d, w, n);
    Exchange(w, d, d * g);
    DistributeThree(d, v * u, w * (d * (n * n)), w * (d * g));
  }

  lemma ScaleOnce(d: int, n: int, m: int, v: int, w: int, g: int, u: int)
    requires d * (n - m) == u
    ensures d * ((n - m) * v - w * (n * n - g)) == v * u - w * (d * (n * n)) + w * (d * g)
  {
    assert d * ((n - m) * v) == v * u;
    assert d * (w * (n * n - g)) == w * (d * (n * n)) - w * (d * g);
  }

  lemma SquareScale(d: int, w: int, n: int)
    ensures d * (w * (d * (n * n))) == w * ((n * d) * (n * d))
  {
    assert d * (d * (n * n)) == (n * d) * (n * d);
    assert d * (w * (d * (n * n))) == w * (d * (d * (n * n)));
  }

  lemma DistributeThree(k: int, u: int, v: int, x: int)
    ensures k * (u - v + x) == k * u - k * v + k * x
  {
  }

  lemma SumYIdentity(y: int, l: int, m: int, n: int, s: int, d: int, g: int, r: int, z: int)
    requires (m - l) * (2 * y + m * (s + d) + l * s) == d * (g - m * l) - r
    requires (m - l) * (2 * y + (m + l) * s) == d * (g - m * m) - r
    requires z == n * d - (2 * y + m * (s + d) + l * s)
    ensures var n1, v := 2 * y + m * (s + d) + l * s, g - l * l;
            d * (d * ((n - m) * v - (m - l) * (n * n - g)))
            == (d * v - (m - l) * (z + 2 * n1)) * z + (n1 - d * l) * r
  {
    var n1, mm, v, w := 2 * y + m * (s + d) + l * s, 2 * y + (m + l) * s, g - l * l, m - l;
    assert n1 == mm + m * d;
    assert d * (n - m) == z + mm;
    SumYScale(d, n, m, v, w, g, z + mm);
    SquareShift(w, n * d, z, n1);
    SumYBracket(l, m, d, g, r, mm, n1);
    assert d * (v * (z + mm)) == d * (v * z) + d * (v * mm);
    SumYCollect(d, v, w, z, n1, l, r);
  }

  lemma SumYCollect(d: int, v: int, w: int, z: int, n1: int, l: int, r: int)
    ensures (d * v - w * (z + 2 * n1)) * z + (n1 - d * l) * r
            == d * (v * z) - w * (z * z) - 2 * (w * n1) * z + n1 * r - d * (l * r)
  {
    assert (d * v - w * (z + 2 * n1)) * z == d * (v * z) - w * (z * z) - 2 * (w * n1) * z;
    assert (n1 - d * l) * r == n1 * r - d * (l * r);
  }

  lemma SumYInner(l: int, m: int, d: int, g: int, r: int, mm: int)
    requires (m - l) * mm == d * (g - m * m) - r
    ensures (g - l * l) * mm - (g - m * l) * (mm + m * d) + (m - l) * (d * g) == -(l * r)
  {
    assert (g - l * l) * mm - (g - m * l) * mm == l * ((m - l) * mm);
    assert l * (d * (g - m * m) - r) == l * (d * g) - l * (d * (m * m)) - l * r;
    assert (g - m * l) * (m * d) == m * (d * g) - l * (d * (m * m));
    assert (m - l) * (d * g) == m * (d * g) - l * (d * g);
    assert (g - m * l) * (mm + m * d) == (g - m * l) * mm + (g - m * l) * (m * d);
  }

  lemma BracketCollect(d: int, k: int, h: int, x: int, f: int, lr: int, rn: int)
    requires f == d * h - rn && k - h + x == -lr
    ensures d * k - f + d * x == rn - d * lr
  {
    DistributeThree(d, k, h, x);
  }

  lemma SumYBracket(l: int, m: int, d: int, g: int, r: int, mm: int, n1: int)
    requires (m - l) * n1 == d * (g - m * l) - r && (m - l) * mm == d * (g - m * m) - r
    requires n1 == mm + m * d
    ensures d * ((g - l * l) * mm) - ((m - l) * n1) * n1 + (m - l) * (d * (d * g))
            == n1 * r - d * (l * r)
  {
    var w, u := m - l, g - m * l;
    SumYInner(l, m, d, g, r, mm);
    ScaledDifference(d, u, r, n1);
    Exchange(w, d, d * g);
    BracketCollect(d, (g - l * l) * mm, u * n1, w * (d * g), (w * n1) * n1, l * r, n1 * r);
  }

  lemma ScaledDifference(d: int, u: int, r: int, n1: int)
    ensures (d * u - r) * n1 == d * (u * n1) - n1 * r
  {
  }

  // ---------------------------------------------------------------------------
  // From the slopes to the sums

  /** The difference of the x coordinates of (P + Q) + R and P + (Q + R). */
  function DiffX(c: int, l: int, a: int, m: int, b: int, n: int): int {
    var k := n - m + l;
    n * n - Root(c, l, a) - b - k * k + a + Root(c, m, b)
  }

  /** The difference of their y coordinates, up to DiffX and the chord equation. */
  function DiffY(c: int, l: int, a: int, m: int, b: int, n: int): int {
    (n - m) * (b - a) - (m - l) * (n * n - (3 * c + Root(c, l, a) + b))
  }

  lemma ThirdXSums(c: int, l: int, a: int, m: int, b: int, n: int)
    ensures var s, t, k := Root(c, l, a), Root(c, m, b), n - m + l;
            var u, v := ThirdX(n, c + s, c + b), ThirdX(k, c + a, c + t);
            && u - v == DiffX(c, l, a, m, b, n)
            && u - c == n * n - (3 * c + s + b)
  {
  }

  /** With w the x coordinate of the sum relative to c. */
  lemma ThirdYSums(c: int, y: int, l: int, a: int, m: int, b: int, n: int, s: int, w: int, v: int)
    ensures var k := n - m + l;
            ThirdY(n, c + s, -(y + l * s), c + w) - ThirdY(k, c + a, y + l * a, v)
            == 1 * ((n - m) * (b - a) - (m - l) * w) + -1 * (n * (b - s) - (2 * y + m * b + l * s))
               + -k * (c + w - v)
  {
    var k := n - m + l;
    assert k * (c + a - v) == k * (a - w) + k * (c + w - v);
    assert k * (a - w) == n * (a - w) - (m - l) * a + (m - l) * w;
    assert n * (c + s - (c + w)) == n * (s - w);
    SumsAgreeLinear(y, l, a, m, b, n, s, w);
  }

  lemma SumsAgreeLinear(y: int, l: int, a: int, m: int, b: int, n: int, s: int, w: int)
    ensures n * (s - w) + (y + l * s) - (n * (a - w) - (m - l) * a + (m - l) * w) + (y + l * a)
            == (n - m) * (b - a) - (m - l) * w - (n * (b - s) - (2 * y + m * b + l * s))
  {
    assert (n - m) * (b - a) == n * b - n * a - m * b + m * a;
    assert n * (b - s) == n * b - n * s;
  }

  lemma SumsAgree(p: int, c: int, y: int, l: int, a: int, m: int, b: int, n: int)
    requires p > 0 && Vanishes(p, ChordSR(c, y, l, a, m, b, n))
    requires Vanishes(p, DiffX(c, l, a, m, b, n)) && Vanishes(p, DiffY(c, l, a, m, b, n))
    ensures var s, t, k := Root(c, l, a), Root(c, m, b), n - m + l;
            var u, v := ThirdX(n, c + s, c + b), ThirdX(k, c + a, c + t);
            At(p, u, ThirdY(n, c + s, -(y + l * s), u)) == At(p, v, ThirdY(k, c + a, y + l * a, v))
  {
    var s, t, k := Root(c, l, a), Root(c, m, b), n - m + l;
    var u, v := ThirdX(n, c + s, c + b), ThirdX(k, c + a, c + t);
    ThirdXSums(c, l, a, m, b, n);
    ThirdYSums(c, y, l, a, m, b, n, s, u - c, v);
    Combine3(p, 1, DiffY(c, l, a, m, b, n), -1, ChordSR(c, y, l, a, m, b, n), -k, u - v);
    AtEqual(p, u, ThirdY(n, c + s, -(y + l * s), u), v, ThirdY(k, c + a, y + l * a, v));
  }

  // ---------------------------------------------------------------------------
  // P + Q and R have different x coordinates

  lemma DistinctDiffs(p: int, c: int, y: int, l: int, a: int, m: int, b: int, n: int)
    requires CurvePrime(p) && Secant(p, c, y, l, a) && Secant(p, c, y, m, b)
    requires Vanishes(p, ChordSR(c, y, l, a, m, b, n)) && !Vanishes(p, b - Root(c, l, a))
    ensures Vanishes(p, DiffX(c, l, a, m, b, n)) && Vanishes(p, DiffY(c, l, a, m, b, n))
    ensures Vanishes(p, ChordPT(c, y, l, a, m, b, n))
  {
    var s, t, z := Root(c, l, a), Root(c, m, b), ChordSR(c, y, l, a, m, b, n);
    var d, r := b - s, Sec(c, y, l, a) - Sec(c, y, m, b);
    VanishesAdd(p, Sec(c, y, l, a), Sec(c, y, m, b));
    SumXAlgebra(c, y, l, a, m, b, n);
    Combine2(p, 2 * (m - l), z, -2, r);
    Cancel(p, d, DiffX(c, l, a, m, b, n));
    DistinctDiffY(p, c, y, l, a, m, b, n);
    TransferAlgebra(c, y, l, a, m, b, n);
    Combine2(p, a - t, z, m + l, r);
    Cancel(p, d, ChordPT(c, y, l, a, m, b, n));
  }

  lemma DistinctDiffY(p: int, c: int, y: int, l: int, a: int, m: int, b: int, n: int)
    requires CurvePrime(p) && Vanishes(p, Sec(c, y, l, a) - Sec(c, y, m, b))
    requires Vanishes(p, ChordSR(c, y, l, a, m, b, n)) && !Vanishes(p, b - Root(c, l, a))
    ensures Vanishes(p, DiffY(c, l, a, m, b, n))
  {
    var s, z := Root(c, l, a), ChordSR(c, y, l, a, m, b, n);
    var d, r, n1 := b - s, Sec(c, y, l, a) - Sec(c, y, m, b), 2 * y + m * b + l * s;
    SumYAlgebra(c, y, l, a, m, b, n);
    Combine2(p, d * (b - a) - (m - l) * (z + 2 * n1), z, n1 - d * l, r);
    Cancel(p, d, d * DiffY(c, l, a, m, b, n));
    Cancel(p, d, DiffY(c, l, a, m, b, n));
  }

  /** The equations that make n - m + l the tangent slope when P and Q + R coincide. */
  lemma TangentAlgebra1(c: int, y: int, l: int, m: int, t: int, e: int)
    ensures var a := t + e;
            var n2 := 2 * y + (l + m) * t;
            t * t + 3 * c * t + 3 * c * c + l * m * t
            == -1 * Sec(c, y, l, a) + (l * l - 3 * c - 2 * t - e) * e + l * n2
  {
    var a := t + e;
    assert a * (l * l - 3 * c - a)
        == t * (l * l) - 3 * c * t - t * t + (l * l - 3 * c - 2 * t - e) * e;
    assert l * ((l + m) * t) == t * (l * l) + l * m * t;
    assert l * (2 * y + (l + m) * t) == 2 * y * l + l * ((l + m) * t);
  }

  lemma TangentAlgebra2(c: int, y: int, l: int, m: int, n: int, t: int, e: int, s: int, d: int)
    requires s == l * l - 3 * c - t - e && d == e + m * m - l * l
    ensures var k, n2, z := n - m + l, 2 * y + (l + m) * t, n * d - (2 * y + m * (s + d) + l * s);
            (m + l) * ((m - l) * k - (l * m - 3 * c - 2 * t))
            == 1 * z + 1 * n2 + -(m + k) * e
  {
    var k := n - m + l;
    assert (m + l) * ((m - l) * k) == (d - e) * k by {
      assert (m + l) * (m - l) == d - e;
    }
    assert (d - e) * k == n * d - (m - l) * d - e * k;
    assert (m + l) * s == (m + l) * (l * l - 3 * c - t) - (m + l) * e;
    assert l * d == l * e + (m + l) * (l * (m - l));
    assert (m + l) * (l * m - 3 * c - 2 * t)
        == (m + l) * (l * l - 3 * c - t) + (m + l) * (l * (m - l)) - (m + l) * t;
  }

  lemma TangentAlgebra3(c: int, y: int, l: int, m: int, k: int, t: int)
    ensures var n2, q := 2 * y + (l + m) * t, (m - l) * k - (l * m - 3 * c - 2 * t);
            var f := t * t + 3 * c * t + 3 * c * c + l * m * t;
            2 * -(y + m * t) * k - 3 * (c + t) * (c + t) == -k * n2 + -t * q + -1 * f
  {
    assert 2 * -(y + m * t) * k == -2 * (y * k) - 2 * (k * (m * t));
    assert -k * (2 * y + (l + m) * t) == -2 * (y * k) - k * (l * t) - k * (m * t);
    assert t * ((m - l) * k - (l * m - 3 * c - 2 * t))
        == k * (m * t) - k * (l * t) - l * m * t + 3 * c * t + 2 * (t * t);
  }

  /** When P and Q + R coincide, n - m + l is the tangent slope there. */
  lemma TransferTangent(p: int, c: int, y: int, l: int, a: int, m: int, b: int, n: int)
    requires CurvePrime(p) && Secant(p, c, y, l, a) && Vanishes(p, ChordSR(c, y, l, a, m, b, n))
    requires Vanishes(p, a - Root(c, m, b)) && !Vanishes(p, b - Root(c, l, a))
    requires Vanishes(p, 2 * y + m * Root(c, m, b) + l * a)
    ensures var t, k := Root(c, m, b), n - m + l;
            Vanishes(p, 2 * -(y + m * t) * k - 3 * (c + t) * (c + t))
  {
    var s, t, k, z := Root(c, l, a), Root(c, m, b), n - m + l, ChordSR(c, y, l, a, m, b, n);
    var d, e := b - s, a - t;
    var n2, q := 2 * y + (l + m) * t, (m - l) * k - (l * m - 3 * c - 2 * t);
    var f := t * t + 3 * c * t + 3 * c * c + l * m * t;
    Combine2(p, 1, 2 * y + m * t + l * a, -l, e);
    assert 1 * (2 * y + m * t + l * a) + -l * e == n2 by {
      assert l * a == l * t + l * e;
    }
    TangentAlgebra1(c, y, l, m, t, e);
    Combine3(p, -1, Sec(c, y, l, a), l * l - 3 * c - 2 * t - e, e, l, n2);
    TangentAlgebra2(c, y, l, m, n, t, e, s, d);
    Combine3(p, 1, z, 1, n2, -(m + k), e);
    SumNonzero(p, l, m, d, e);
    Cancel(p, m + l, q);
    TangentAlgebra3(c, y, l, m, k, t);
    Combine3(p, -k, n2, -t, q, -1, f);
  }

  lemma DifferenceVanishes(p: int, l: int, m: int, d: int, e: int)
    requires p > 0 && d - e == m * m - l * l && Vanishes(p, e) && Vanishes(p, m + l)
    ensures Vanishes(p, d)
  {
    Combine2(p, 1, e, m - l, m + l);
    assert 1 * e + (m - l) * (m + l) == d;
  }

  lemma SumNonzero(p: int, l: int, m: int, d: int, e: int)
    requires p > 0 && d - e == m * m - l * l && Vanishes(p, e) && !Vanishes(p, d)
    ensures !Vanishes(p, m + l)
  {
    if Vanishes(p, m + l) {
      DifferenceVanishes(p, l, m, d, e);
    }
  }

  /** n - m + l is a slope of P and Q + R. */
  lemma TransferSlope(p: int, c: int, y: int, l: int, a: int, m: int, b: int, n: int)
    requires CurvePrime(p) && Curve(p, c, y) && Secant(p, c, y, l, a) && Secant(p, c, y, m, b)
    requires Vanishes(p, ChordSR(c, y, l, a, m, b, n)) && !Vanishes(p, b - Root(c, l, a))
    requires var t := Root(c, m, b); !Opposite(p, c + a, y + l * a, c + t, -(y + m * t))
    ensures var t := Root(c, m, b);
            Slope(p, n - m + l, c + a, y + l * a, c + t, -(y + m * t))
  {
    var t, k := Root(c, m, b), n - m + l;
    var x1, y1, x2, y2 := c + a, y + l * a, c + t, -(y + m * t);
    DistinctDiffs(p, c, y, l, a, m, b, n);
    VanishesScale(p, -1, ChordPT(c, y, l, a, m, b, n));
    assert -1 * ChordPT(c, y, l, a, m, b, n) == y1 - y2 - k * (x1 - x2);
    SecantOnCurve(p, c, y, l, a);
    SecantOther(p, c, y, m, b);
    SecantOnCurve(p, c, y, m, t);
    CurveNegated(p, x2, y + m * t);
    if Vanishes(p, a - t) {
      assert x1 - x2 == a - t;
      SameXSameY(p, x1, y1, x2, y2);
      assert y1 - y2 == 2 * y + m * t + l * a;
      TransferTangent(p, c, y, l, a, m, b, n);
      SlopeFromTangent(p, k, x1, y1, x2, y2);
    } else {
      assert x1 - x2 == a - t;
      ChordSecond(p, k, x1, y1, x2, y2);
    }
  }

  lemma SlopeFromTangent(p: int, k: int, x1: int, y1: int, x2: int, y2: int)
    requires p > 0 && Vanishes(p, x1 - x2) && Vanishes(p, y1 - y2 - k * (x1 - x2))
    requires Vanishes(p, 2 * y2 * k - 3 * x2 * x2)
    ensures Slope(p, k, x1, y1, x2, y2)
  {
    var w := k * k - x1 - 2 * x2;
    Combine2(p, w, x1 - x2, 1, 2 * y2 * k - 3 * x2 * x2);
    assert w * (x1 - x2) + 1 * (2 * y2 * k - 3 * x2 * x2) == (x1 - x2) * w - (3 * x2 * x2 - 2 * y2 * k);
  }

  // ---------------------------------------------------------------------------
  // P + Q coincides with R and Q + R with P: Q is a point of order two

  lemma OrderTwoAlgebra1(y: int, l: int, n: int, c: int, h: int, s: int, d: int)
    ensures var m, b := h - l, s + d;
            2 * (y + m * b) * n - 3 * (c + b) * (c + b)
            == -1 * (2 * (l * (s * n)) + 3 * (c + s) * (c + s))
               + (2 * n * y + 2 * (n * b) * h) + -(2 * (n * l) + 3 * (2 * c + 2 * s + d)) * d
  {
    var m, b := h - l, s + d;
    assert 2 * (y + m * b) * n == 2 * n * y + 2 * (n * b) * h - 2 * (n * (l * b));
    assert n * (l * b) == l * (s * n) + n * l * d;
    assert 3 * (c + b) * (c + b) == 3 * (c + s) * (c + s) + 3 * (2 * c + 2 * s + d) * d;
  }

  /** W0 is the tangent equation of P and i that of R, when y = 0 and m = -l. */
  lemma OrderTwoAlgebra2(c: int, l: int, a: int, s: int, n: int, r: int)
    requires a + s == l * l - 3 * c && a * s == 3 * c * c + r
    ensures var w0 := 2 * (l * a) * (n + 2 * l) - 3 * (c + a) * (c + a);
            var i := 2 * (l * (s * n)) + 3 * (c + s) * (c + s);
            s * w0 == a * i + (4 * (l * l) - 12 * c - 3 * (a + s)) * r
  {
    var q := a * s;
    OrderTwoExpand(c, l, a, s, n);
    OrderTwoSum(c, l, a, s, q, r);
  }

  lemma OrderTwoExpand(c: int, l: int, a: int, s: int, n: int)
    ensures var q := a * s;
            && s * (2 * (l * a) * (n + 2 * l) - 3 * (c + a) * (c + a))
               == 2 * (l * (n * q)) + 4 * ((l * l) * q) - 3 * (c * c * s) - 6 * (c * q) - 3 * (a * q)
            && a * (2 * (l * (s * n)) + 3 * (c + s) * (c + s))
               == 2 * (l * (n * q)) + 3 * (c * c * a) + 6 * (c * q) + 3 * (s * q)
  {
    ExpandSquare(c, a, s);
    ExpandSquare(c, s, a);
    ExpandSlope(l, a, s, n);
    DistributeThree(s, 2 * (l * a) * (n + 2 * l), 3 * (c + a) * (c + a), 0);
    DistributeThree(a, 2 * (l * (s * n)), 0, 3 * (c + s) * (c + s));
  }

  lemma ExpandSquare(c: int, a: int, s: int)
    ensures s * (3 * (c + a) * (c + a)) == 3 * (c * c * s) + 6 * (c * (a * s)) + 3 * (a * (a * s))
  {
    assert 3 * (c + a) * (c + a) == 3 * (c * c) + 6 * (c * a) + 3 * (a * a);
  }

  lemma ExpandSlope(l: int, a: int, s: int, n: int)
    ensures var q := a * s;
            && s * (2 * (l * a) * (n + 2 * l)) == 2 * (l * (n * q)) + 4 * ((l * l) * q)
            && a * (2 * (l * (s * n))) == 2 * (l * (n * q))
  {
    assert 2 * (l * a) * (n + 2 * l) == 2 * (l * (a * n)) + 4 * ((l * l) * a);
    assert s * (l * (a * n)) == l * (n * (a * s));
    assert s * ((l * l) * a) == (l * l) * (a * s);
    assert a * (l * (s * n)) == l * (n * (a * s));
  }

  lemma OrderTwoSum(c: int, l: int, a: int, s: int, q: int, r: int)
    requires a + s == l * l - 3 * c && q == 3 * c * c + r
    ensures 4 * ((l * l) * q) - 3 * (c * c * s) - 12 * (c * q) - 3 * (a * q) - 3 * (c * c * a) - 3 * (s * q)
            == (4 * (l * l) - 12 * c - 3 * (a + s)) * r
  {
    var k := 4 * (l * l) - 12 * c - 3 * (a + s);
    assert 4 * ((l * l) * q) - 12 * (c * q) - 3 * (a * q) - 3 * (s * q) == k * q;
    assert k == a + s by {
      assert l * l == a + s + 3 * c;
    }
    assert k * q == k * (3 * c * c) + k * r;
    assert k * (3 * c * c) == 3 * (c * c * a) + 3 * (c * c * s);
  }

  /** The tangent equation of P, when P and Q + R coincide. */
  lemma OrderTwoAlgebra3(y: int, l: int, n: int, c: int, h: int, a: int, e: int)
    ensures var m, t := h - l, a - e;
            var k := n - m + l;
            2 * -(y + m * t) * k - 3 * (c + t) * (c + t)
            == 1 * (2 * (l * a) * (n + 2 * l) - 3 * (c + a) * (c + a))
               + (-(2 * (l * a) + 2 * (k * t)) * h + -2 * k * y) + (3 * (2 * c + 2 * a - e) - 2 * (k * l)) * e
  {
    var m, t := h - l, a - e;
    var k := n - m + l;
    assert k == n + 2 * l - h;
    assert m * t == h * t - l * a + l * e;
    assert 2 * -(y + m * t) * k == -2 * k * y - 2 * (k * t) * h + 2 * (l * a) * k - 2 * (k * l) * e;
    assert 2 * (l * a) * k == 2 * (l * a) * (n + 2 * l) - 2 * (l * a) * h;
    assert 3 * (c + t) * (c + t) == 3 * (c + a) * (c + a) - 3 * (2 * c + 2 * a - e) * e;
  }

  lemma OrderTwoX(c: int, l: int, a: int, s: int, n: int, r: int)
    requires a + s == l * l - 3 * c && a * s == 3 * c * c + r
    ensures var x0 := n * n - (n + 2 * l) * (n + 2 * l) - 2 * s + 2 * a;
            var i := 2 * (l * (s * n)) + 3 * (c + s) * (c + s);
            s * x0 == -2 * i + -2 * r
  {
    var x0 := n * n - (n + 2 * l) * (n + 2 * l) - 2 * s + 2 * a;
    assert x0 == -4 * (l * n) - 4 * (l * l) - 2 * s + 2 * a;
    assert s * x0 == -4 * (l * (s * n)) - 4 * ((l * l) * s) - 2 * (s * s) + 2 * (a * s);
    assert (l * l) * s == a * s + s * s + 3 * (c * s) by {
      assert l * l == a + s + 3 * c;
    }
    assert 3 * (c + s) * (c + s) == 3 * c * c + 6 * (c * s) + 3 * (s * s);
  }

  lemma OrderTwoDiffX(l: int, a: int, s: int, n: int, h: int, d: int, e: int)
    ensures var m, b, t := h - l, s + d, a - e;
            var k := n - m + l;
            var x0 := n * n - (n + 2 * l) * (n + 2 * l) - 2 * s + 2 * a;
            n * n - s - b - k * k + a + t == 1 * x0 + (2 * (n + 2 * l) - h) * h + -1 * (d + e)
  {
    var k, j := n - (h - l) + l, n + 2 * l;
    assert k == j - h;
    assert k * k == j * j - (2 * j - h) * h;
  }

  lemma OrderTwoDiffY(c: int, l: int, a: int, s: int, n: int, h: int, d: int)
    requires a + s == l * l - 3 * c
    ensures var m, b := h - l, s + d;
            var x0 := n * n - (n + 2 * l) * (n + 2 * l) - 2 * s + 2 * a;
            2 * ((n - m) * (b - a) - (m - l) * (n * n - (3 * c + s + b)))
            == (l - n) * x0 + 2 * (n - l) * d + -2 * (n * n - 3 * c - s - a) * h
  {
    var f := n * n - 3 * c - 2 * s;
    var x0 := n * n - (n + 2 * l) * (n + 2 * l) - 2 * s + 2 * a;
    OrderTwoK0(c, l, a, s, n);
    OrderTwoShift(l, a, s, n, h, d, f);
    OrderTwoCollect(2 * l * f, (n + l) * (s - a), (l - n) * x0, n - l, d, f + s - a, h);
  }

  lemma OrderTwoCollect(u: int, v: int, w: int, g: int, d: int, q: int, h: int)
    requires 2 * (v + u) == w
    ensures 2 * (v + u + g * d - q * h) == w + 2 * g * d + -2 * q * h
  {
  }

  /** Replacing m by h - l and b by s + d changes the y difference by multiples of h and d. */
  lemma OrderTwoShift(l: int, a: int, s: int, n: int, h: int, d: int, f: int)
    ensures (n - (h - l)) * (s + d - a) - (h - l - l) * (f - d)
            == (n + l) * (s - a) + 2 * l * f + (n - l) * d - (f + s - a) * h
  {
    ShiftFirst(l, a, s, n, h, d);
    ShiftSecond(l, h, d, f);
    assert (f + s - a) * h == h * f + h * (s - a);
    assert (n - l) * d == (n + l) * d - 2 * l * d;
  }

  lemma ShiftFirst(l: int, a: int, s: int, n: int, h: int, d: int)
    ensures (n - (h - l)) * (s + d - a) == (n + l) * (s - a) + (n + l) * d - h * (s - a) - h * d
  {
  }

  lemma ShiftSecond(l: int, h: int, d: int, f: int)
    ensures (h - l - l) * (f - d) == h * f - h * d - 2 * l * f + 2 * l * d
  {
  }

  lemma OrderTwoK0(c: int, l: int, a: int, s: int, n: int)
    requires a + s == l * l - 3 * c
    ensures var x0 := n * n - (n + 2 * l) * (n + 2 * l) - 2 * s + 2 * a;
            2 * ((n + l) * (s - a) + 2 * l * (n * n - 3 * c - 2 * s)) == (l - n) * x0
  {
    var x0 := n * n - (n + 2 * l) * (n + 2 * l) - 2 * s + 2 * a;
    assert x0 == -4 * (l * n) - 4 * (l * l) - 2 * s + 2 * a;
    assert l * l == a + s + 3 * c;
    assert x0 == -4 * (l * n) - 2 * a - 6 * s - 12 * c;
    assert l * (l * n) == n * (a + s + 3 * c);
  }

  /** Same slopes would make P + Q and R opposite, so l = -m, and Q has order two. */
  lemma OrderTwoCentre(p: int, c: int, y: int, l: int, a: int, m: int, b: int)
    requires CurvePrime(p) && Curve(p, c, y) && Secant(p, c, y, l, a) && Secant(p, c, y, m, b)
    requires var s, t := Root(c, l, a), Root(c, m, b);
             && Vanishes(p, b - s) && Vanishes(p, a - t)
             && Vanishes(p, 2 * y + m * b + l * s)
             && !Opposite(p, c + s, -(y + l * s), c + b, y + m * b)
    ensures Vanishes(p, m + l) && Vanishes(p, y) && !Vanishes(p, Root(c, l, a))
  {
    var s, t, h := Root(c, l, a), Root(c, m, b), m + l;
    var d, e := b - s, a - t;
    RootsTied(c, y, l, a, m, b);
    if Vanishes(p, m - l) {
      SameSlopesOpposite(p, c, y, l, m, s, b);
    }
    VanishesAdd(p, d, e);
    assert (m - l) * h == d - e;
    Cancel(p, m - l, h);
    Combine3(p, 1, 2 * y + m * b + l * s, -b, h, l, d);
    assert 1 * (2 * y + m * b + l * s) + -b * h + l * d == 2 * y;
    SmallConstants(p);
    Cancel(p, 2, y);
    Nonsingular(p, c, y, l, a);
  }

  lemma SameSlopesOpposite(p: int, c: int, y: int, l: int, m: int, s: int, b: int)
    requires p > 0 && Vanishes(p, m - l) && Vanishes(p, b - s)
    ensures Opposite(p, c + s, -(y + l * s), c + b, y + m * b)
  {
    VanishesScale(p, -1, b - s);
    assert c + s - (c + b) == -1 * (b - s);
    Combine2(p, b, m - l, l, b - s);
    assert b * (m - l) + l * (b - s) == -(y + l * s) + (y + m * b);
  }

  /** The tangent equation of R, in terms of l. */
  lemma OrderTwoTangent(p: int, c: int, y: int, l: int, m: int, n: int, s: int, b: int)
    requires p > 0 && Vanishes(p, m + l) && Vanishes(p, y) && Vanishes(p, b - s)
    requires Vanishes(p, 2 * (y + m * b) * n - 3 * (c + b) * (c + b))
    ensures Vanishes(p, 2 * (l * (s * n)) + 3 * (c + s) * (c + s))
  {
    var d, h := b - s, m + l;
    var w := 2 * (y + m * b) * n - 3 * (c + b) * (c + b);
    OrderTwoAlgebra1(y, l, n, c, h, s, d);
    Combine4(p, -1, w, 2 * n, y, 2 * (n * b), h, -(2 * (n * l) + 3 * (2 * c + 2 * s + d)), d);
  }

  lemma OrderTwoRoots(p: int, c: int, y: int, l: int, a: int, n: int)
    requires CurvePrime(p) && Secant(p, c, y, l, a) && Vanishes(p, y)
    requires var s := Root(c, l, a);
             !Vanishes(p, s) && Vanishes(p, 2 * (l * (s * n)) + 3 * (c + s) * (c + s))
    ensures Vanishes(p, 2 * (l * a) * (n + 2 * l) - 3 * (c + a) * (c + a))
    ensures var s := Root(c, l, a);
            Vanishes(p, n * n - (n + 2 * l) * (n + 2 * l) - 2 * s + 2 * a)
  {
    var s := Root(c, l, a);
    Combine2(p, 1, Sec(c, y, l, a), -2 * l, y);
    assert 1 * Sec(c, y, l, a) + -2 * l * y == a * s - 3 * c * c;
    OrderTwoRootTangent(p, c, l, a, s, n);
    OrderTwoRootX(p, c, l, a, s, n);
  }

  lemma OrderTwoRootTangent(p: int, c: int, l: int, a: int, s: int, n: int)
    requires IsPrime(p) && a + s == l * l - 3 * c && !Vanishes(p, s) && Vanishes(p, a * s - 3 * c * c)
    requires Vanishes(p, 2 * (l * (s * n)) + 3 * (c + s) * (c + s))
    ensures Vanishes(p, 2 * (l * a) * (n + 2 * l) - 3 * (c + a) * (c + a))
  {
    var i, r := 2 * (l * (s * n)) + 3 * (c + s) * (c + s), a * s - 3 * c * c;
    OrderTwoAlgebra2(c, l, a, s, n, r);
    Combine2(p, a, i, 4 * (l * l) - 12 * c - 3 * (a + s), r);
    Cancel(p, s, 2 * (l * a) * (n + 2 * l) - 3 * (c + a) * (c + a));
  }

  lemma OrderTwoRootX(p: int, c: int, l: int, a: int, s: int, n: int)
    requires IsPrime(p) && a + s == l * l - 3 * c && !Vanishes(p, s) && Vanishes(p, a * s - 3 * c * c)
    requires Vanishes(p, 2 * (l * (s * n)) + 3 * (c + s) * (c + s))
    ensures Vanishes(p, n * n - (n + 2 * l) * (n + 2 * l) - 2 * s + 2 * a)
  {
    var i, r := 2 * (l * (s * n)) + 3 * (c + s) * (c + s), a * s - 3 * c * c;
    OrderTwoX(c, l, a, s, n, r);
    Combine2(p, -2, i, -2, r);
    Cancel(p, s, n * n - (n + 2 * l) * (n + 2 * l) - 2 * s + 2 * a);
  }

  lemma OrderTwoFinish(p: int, c: int, y: int, l: int, a: int, m: int, b: int, n: int)
    requires CurvePrime(p) && Vanishes(p, m + l) && Vanishes(p, y)
    requires Vanishes(p, b - Root(c, l, a)) && Vanishes(p, a - Root(c, m, b))
    requires Vanishes(p, 2 * (l * a) * (n + 2 * l) - 3 * (c + a) * (c + a))
    requires var s := Root(c, l, a);
             Vanishes(p, n * n - (n + 2 * l) * (n + 2 * l) - 2 * s + 2 * a)
    ensures Vanishes(p, DiffX(c, l, a, m, b, n)) && Vanishes(p, DiffY(c, l, a, m, b, n))
    ensures var t, k := Root(c, m, b), n - m + l;
            Vanishes(p, 2 * -(y + m * t) * k - 3 * (c + t) * (c + t))
  {
    var s, t, k, h := Root(c, l, a), Root(c, m, b), n - m + l, m + l;
    var d, e := b - s, a - t;
    var x0 := n * n - (n + 2 * l) * (n + 2 * l) - 2 * s + 2 * a;
    OrderTwoDiffX(l, a, s, n, h, d, e);
    OrderTwoDiffY(c, l, a, s, n, h, d);
    VanishesAdd(p, d, e);
    Combine3(p, 1, x0, 2 * (n + 2 * l) - h, h, -1, d + e);
    Combine3(p, l - n, x0, 2 * (n - l), d, -2 * (n * n - 3 * c - s - a), h);
    SmallConstants(p);
    Cancel(p, 2, DiffY(c, l, a, m, b, n));
    OrderTwoAlgebra3(y, l, n, c, h, a, e);
    Combine4(p, 1, 2 * (l * a) * (n + 2 * l) - 3 * (c + a) * (c + a), -(2 * (l * a) + 2 * (k * t)), h,
             -2 * k, y, 3 * (2 * c + 2 * a - e) - 2 * (k * l), e);
  }

  lemma OrderTwoCase(p: int, c: int, y: int, l: int, a: int, m: int, b: int, n: int)
    requires CurvePrime(p) && Curve(p, c, y) && Secant(p, c, y, l, a) && Secant(p, c, y, m, b)
    requires var s, t := Root(c, l, a), Root(c, m, b);
             && Vanishes(p, b - s) && Vanishes(p, a - t)
             && Slope(p, n, c + s, -(y + l * s), c + b, y + m * b)
             && !Opposite(p, c + s, -(y + l * s), c + b, y + m * b)
             && !Opposite(p, c + a, y + l * a, c + t, -(y + m * t))
    ensures Vanishes(p, DiffX(c, l, a, m, b, n)) && Vanishes(p, DiffY(c, l, a, m, b, n))
    ensures var t := Root(c, m, b);
            Slope(p, n - m + l, c + a, y + l * a, c + t, -(y + m * t))
  {
    var s, t, k := Root(c, l, a), Root(c, m, b), n - m + l;
    CoincidentSums(p, c, y, l, a, m, b);
    OrderTwoCentre(p, c, y, l, a, m, b);
    VanishesScale(p, -1, b - s);
    assert c + s - (c + b) == -1 * (b - s);
    TangentSlope(p, n, c + s, -(y + l * s), c + b, y + m * b);
    OrderTwoTangent(p, c, y, l, m, n, s, b);
    OrderTwoRoots(p, c, y, l, a, n);
    OrderTwoFinish(p, c, y, l, a, m, b, n);
    Combine2(p, 1, 2 * y + m * t + l * a, -k, a - t);
    assert 1 * (2 * y + m * t + l * a) + -k * (a - t)
        == y + l * a - -(y + m * t) - k * (c + a - (c + t));
    assert c + a - (c + t) == a - t;
    SlopeFromTangent(p, k, c + a, y + l * a, c + t, -(y + m * t));
  }

  /** Points with equal x that are not opposite have equal y. */
  lemma CoincidentSums(p: int, c: int, y: int, l: int, a: int, m: int, b: int)
    requires CurvePrime(p) && Curve(p, c, y) && Secant(p, c, y, l, a) && Secant(p, c, y, m, b)
    requires var s, t := Root(c, l, a), Root(c, m, b);
             && Vanishes(p, b - s) && Vanishes(p, a - t)
             && !Opposite(p, c + s, -(y + l * s), c + b, y + m * b)
             && !Opposite(p, c + a, y + l * a, c + t, -(y + m * t))
    ensures Vanishes(p, 2 * y + m * b + l * Root(c, l, a))
    ensures Vanishes(p, 2 * y + m * Root(c, m, b) + l * a)
  {
    var s, t := Root(c, l, a), Root(c, m, b);
    SecantEnds(p, c, y, l, a);
    SecantEnds(p, c, y, m, b);
    VanishesScale(p, -1, b - s);
    assert c + s - (c + b) == -1 * (b - s);
    SameXSameY(p, c + s, -(y + l * s), c + b, y + m * b);
    VanishesScale(p, -1, -(y + l * s) - (y + m * b));
    assert c + a - (c + t) == a - t;
    SameXSameY(p, c + a, y + l * a, c + t, -(y + m * t));
  }

  lemma SecantEnds(p: int, c: int, y: int, l: int, a: int)
    requires p > 0 && Curve(p, c, y) && Secant(p, c, y, l, a)
    ensures Curve(p, c + a, y + l * a)
    ensures var s := Root(c, l, a); Curve(p, c + s, -(y + l * s))
  {
    SecantOnCurve(p, c, y, l, a);
    SecantOther(p, c, y, l, a);
    SecantOnCurve(p, c, y, l, Root(c, l, a));
    CurveNegated(p, c + Root(c, l, a), y + l * Root(c, l, a));
  }

  // ---------------------------------------------------------------------------
  // Associativity

  ghost predicate NoOpposites(p: int, c: int, y: int, l: int, a: int, m: int, b: int)
    requires p > 0
  {
    var s, t := Root(c, l, a), Root(c, m, b);
    && !Opposite(p, c + s, -(y + l * s), c + b, y + m * b)
    && !Opposite(p, c + a, y + l * a, c + t, -(y + m * t))
  }

  lemma ChordOfSlope(p: int, c: int, y: int, l: int, a: int, m: int, b: int, n: int)
    requires p > 0
    requires var s := Root(c, l, a); Slope(p, n, c + s, -(y + l * s), c + b, y + m * b)
    ensures Vanishes(p, ChordSR(c, y, l, a, m, b, n))
  {
    var s := Root(c, l, a);
    assert -(y + l * s) - (y + m * b) - n * (c + s - (c + b)) == ChordSR(c, y, l, a, m, b, n);
  }

  /** (P + Q) + R == P + (Q + R), unless only P + Q and R share an x coordinate. */
  lemma SumsEqualDistinct(p: int, c: int, y: int, l: int, a: int, m: int, b: int)
    requires CurvePrime(p) && Curve(p, c, y) && Secant(p, c, y, l, a) && Secant(p, c, y, m, b)
    requires NoOpposites(p, c, y, l, a, m, b)
    requires Vanishes(p, b - Root(c, l, a)) ==> Vanishes(p, a - Root(c, m, b))
    ensures var s, t := Root(c, l, a), Root(c, m, b);
            Add(p, At(p, c + s, -(y + l * s)), At(p, c + b, y + m * b))
            == Add(p, At(p, c + a, y + l * a), At(p, c + t, -(y + m * t)))
  {
    var s, t := Root(c, l, a), Root(c, m, b);
    SecantEnds(p, c, y, l, a);
    SecantEnds(p, c, y, m, b);
    var n := SlopeExists(p, c + s, -(y + l * s), c + b, y + m * b);
    ChordOfSlope(p, c, y, l, a, m, b, n);
    if Vanishes(p, b - s) {
      OrderTwoCase(p, c, y, l, a, m, b, n);
    } else {
      DistinctDiffs(p, c, y, l, a, m, b, n);
      TransferSlope(p, c, y, l, a, m, b, n);
    }
    SumBySlope(p, n, c + s, -(y + l * s), c + b, y + m * b);
    SumBySlope(p, n - m + l, c + a, y + l * a, c + t, -(y + m * t));
    SumsAgree(p, c, y, l, a, m, b, n);
  }

  lemma SumsEqual(p: int, c: int, y: int, l: int, a: int, m: int, b: int)
    requires CurvePrime(p) && Curve(p, c, y) && Secant(p, c, y, l, a) && Secant(p, c, y, m, b)
    requires NoOpposites(p, c, y, l, a, m, b)
    ensures var s, t := Root(c, l, a), Root(c, m, b);
            Add(p, At(p, c + s, -(y + l * s)), At(p, c + b, y + m * b))
            == Add(p, At(p, c + a, y + l * a), At(p, c + t, -(y + m * t)))
  {
    var s, t := Root(c, l, a), Root(c, m, b);
    if Vanishes(p, b - s) && !Vanishes(p, a - t) {
      // The same statement for R, Q, P.
      OppositeSwap(p, c + s, -(y + l * s), c + b, y + m * b);
      OppositeSwap(p, c + a, y + l * a, c + t, -(y + m * t));
      SumsEqualDistinct(p, c, y, m, b, l, a);
      SecantPoints(p, c, y, l, a);
      SecantPoints(p, c, y, m, b);
      Commutative(p, At(p, c + s, -(y + l * s)), At(p, c + b, y + m * b));
      Commutative(p, At(p, c + a, y + l * a), At(p, c + t, -(y + m * t)));
    } else {
      SumsEqualDistinct(p, c, y, l, a, m, b);
    }
  }

  lemma SecantPoints(p: int, c: int, y: int, l: int, a: int)
    requires p > 0 && Curve(p, c, y) && Secant(p, c, y, l, a)
    ensures OnCurve(p, At(p, c + a, y + l * a))
    ensures var s := Root(c, l, a); OnCurve(p, At(p, c + s, -(y + l * s)))
  {
    var s := Root(c, l, a);
    SecantEnds(p, c, y, l, a);
    AtOnCurve(p, c + a, y + l * a);
    AtOnCurve(p, c + s, -(y + l * s));
  }

  /** Unreduced coordinates are opposite exactly when the points sum to Infinity. */
  lemma OppositeAt(p: int, x1: int, y1: int, x2: int, y2: int)
    requires CurvePrime(p) && Curve(p, x1, y1) && Curve(p, x2, y2)
    ensures Opposite(p, x1, y1, x2, y2) <==> Add(p, At(p, x1, y1), At(p, x2, y2)) == Infinity
  {
    Remainder(p, x1);
    Remainder(p, y1);
    Remainder(p, x2);
    Remainder(p, y2);
    AtOnCurve(p, x1, y1);
    AtOnCurve(p, x2, y2);
    OppositeCongruent(p, x1, y1, x2, y2, x1 % p, y1 % p, x2 % p, y2 % p);
    OppositeSum(p, At(p, x1, y1), At(p, x2, y2));
  }

  /** When no partial sum is Infinity, both bracketings are affine sums. */
  lemma AssociativeAffine(p: int, u: Point, v: Point, w: Point)
    requires CurvePrime(p) && OnCurve(p, u) && OnCurve(p, v) && OnCurve(p, w)
    requires u.Affine? && v.Affine? && w.Affine?
    requires Add(p, u, v) != Infinity && Add(p, v, w) != Infinity
    requires Add(p, Add(p, u, v), w) != Infinity && Add(p, u, Add(p, v, w)) != Infinity
    ensures Add(p, Add(p, u, v), w) == Add(p, u, Add(p, v, w))
  {
    OppositeSum(p, u, v);
    OppositeSum(p, v, w);
    OppositeSwap(p, v.x, v.y, w.x, w.y);
    var c, y := v.x, v.y;
    var l, a := SecantExists(p, u, v);
    var m, b := SecantExists(p, w, v);
    AtReduced(p, v);
    SumSecant(p, c, y, l, a);
    SumSecant(p, c, y, m, b);
    SecantEnds(p, c, y, l, a);
    SecantEnds(p, c, y, m, b);
    var s, t := Root(c, l, a), Root(c, m, b);
    OppositeAt(p, c + s, -(y + l * s), c + b, y + m * b);
    OppositeAt(p, c + a, y + l * a, c + t, -(y + m * t));
    SumsEqual(p, c, y, l, a, m, b);
  }

  /** If (u + v) + w is Infinity, so is u + (v + w). */
  lemma InfiniteSum(p: int, u: Point, v: Point, w: Point)
    requires CurvePrime(p) && OnCurve(p, u) && OnCurve(p, v) && OnCurve(p, w)
    requires Add(p, Add(p, u, v), w) == Infinity
    ensures Add(p, u, Add(p, v, w)) == Infinity
  {
    // w is -(u + v), so v + w is -u.
    var s := Add(p, u, v);
    Closure(p, u, v);
    Commutative(p, s, w);
    Inverse(p, w, s);
    NegOnCurve(p, u);
    NegOnCurve(p, v);
    NegOnCurve(p, s);
    Commutative(p, u, v);
    AddThenSubtract(p, v, u);
    // v == s + -u
    Commutative(p, s, Neg(p, u));
    AddThenSubtract(p, Neg(p, u), s);
    assert Add(p, v, w) == Neg(p, u);
    Inverse(p, u, Neg(p, u));
    Inverse(p, Neg(p, u), u);
  }

  /** If u + v is Infinity, the two bracketings are both w. */
  lemma CancelledSum(p: int, u: Point, v: Point, w: Point)
    requires CurvePrime(p) && OnCurve(p, u) && OnCurve(p, v) && OnCurve(p, w)
    requires Add(p, u, v) == Infinity
    ensures Add(p, u, Add(p, v, w)) == w
  {
    Inverse(p, u, v);
    Closure(p, v, w);
    Commutative(p, v, w);
    NegOnCurve(p, v);
    AddThenSubtract(p, w, v);
    Commutative(p, u, Add(p, v, w));
  }

  /** The point addition of proxy/secp.py is associative. */
  lemma Associative(p: int, u: Point, v: Point, w: Point)
    requires CurvePrime(p) && OnCurve(p, u) && OnCurve(p, v) && OnCurve(p, w)
    ensures Add(p, Add(p, u, v), w) == Add(p, u, Add(p, v, w))
  {
    Closure(p, u, v);
    Closure(p, v, w);
    if u == Infinity || v == Infinity || w == Infinity {
    } else if Add(p, u, v) == Infinity {
      CancelledSum(p, u, v, w);
    } else if Add(p, v, w) == Infinity {
      Reversed(p, u, v, w);
      CancelledSum(p, w, v, u);
    } else if Add(p, Add(p, u, v), w) == Infinity {
      InfiniteSum(p, u, v, w);
    } else if Add(p, u, Add(p, v, w)) == Infinity {
      Reversed(p, u, v, w);
      InfiniteSum(p, w, v, u);
    } else {
      AssociativeAffine(p, u, v, w);
    }
  }

  /** Reading the two bracketings backwards. */
  lemma Reversed(p: int, u: Point, v: Point, w: Point)
    requires CurvePrime(p) && OnCurve(p, u) && OnCurve(p, v) && OnCurve(p, w)
    ensures Add(p, v, w) == Add(p, w, v)
    ensures Add(p, Add(p, u, v), w) == Add(p, w, Add(p, v, u))
    ensures Add(p, u, Add(p, v, w)) == Add(p, Add(p, w, v), u)
  {
    Closure(p, u, v);
    Closure(p, v, w);
    Commutative(p, u, v);
    Commutative(p, v, w);
    Commutative(p, Add(p, u, v), w);
    Commutative(p, u, Add(p, v, w));
  }
}
