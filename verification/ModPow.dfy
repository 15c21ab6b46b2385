/**
 Square-and-multiply over JavaScript's BigInt, as `examples/rsa-timing-demo/server.ts` writes
 it, for any base, exponent and modulus.
 */
module ModPow {
  import opened PrimeField
  import opened Options

  function Abs(x: int): (r: nat)
    ensures x != 0 ==> r > 0
  {
    if x < 0 then -x else x
  }

  /** BigInt's %: the remainder has the sign of the dividend. */
  function JsRem(a: int, m: int): int
    requires m != 0
  {
    if a >= 0 then a % Abs(m) else -((-a) % Abs(m))
  }

  /** r has the sign of a, or is zero. */
  predicate SignOf(r: int, a: int) {
    r == 0 || (r > 0 && a > 0) || (r < 0 && a < 0)
  }

  ghost predicate IsRemainder(r: int, a: int, m: int)
    requires m != 0
  {
    Abs(r) < Abs(m) && Vanishes(Abs(m), a - r) && SignOf(r, a)
  }

  lemma NegatedVanishes(p: int, a: int)
    requires p > 0 && Vanishes(p, a)
    ensures Vanishes(p, -a)
  {
    VanishesScale(p, -1, a);
  }

  lemma JsRemIs(a: int, m: int)
    requires m != 0
    ensures IsRemainder(JsRem(a, m), a, m)
  {
    var p := Abs(m);
    if a >= 0 {
      Remainder(p, a);
      RemainderBelow(p, a);
    } else {
      Remainder(p, -a);
      RemainderBelow(p, -a);
      NegatedVanishes(p, -a - (-a) % p);
    }
  }

  lemma RemainderBelow(p: int, a: int)
    requires p > 0 && a >= 0
    ensures a == 0 ==> a % p == 0
  {
  }

  /** The remainder is determined by its size, its sign and its class. */
  lemma RemainderUnique(r: int, a: int, m: int)
    requires m != 0 && IsRemainder(r, a, m)
    ensures r == JsRem(a, m)
  {
    var s := JsRem(a, m);
    JsRemIs(a, m);
    VanishesAdd(Abs(m), a - r, a - s);
    assert (a - r) - (a - s) == s - r;
    SmallVanishes(Abs(m), s - r);
  }

  lemma SignTimes(r: int, a: int, b: int)
    requires SignOf(r, a)
    ensures SignOf(r * b, a * b)
  {
  }

  lemma SignChain(r: int, s: int, t: int)
    requires SignOf(r, s) && SignOf(s, t)
    ensures SignOf(r, t)
  {
  }

  /** A factor may be reduced first. */
  lemma ReduceFactor(a: int, b: int, m: int)
    requires m != 0
    ensures JsRem(JsRem(a, m) * b, m) == JsRem(a * b, m)
  {
    var s := JsRem(a, m);
    var r := JsRem(s * b, m);
    JsRemIs(a, m);
    JsRemIs(s * b, m);
    SignTimes(s, a, b);
    SignChain(r, s * b, a * b);
    SameClass(Abs(m), a, s, b, r);
    RemainderUnique(r, a * b, m);
  }

  lemma SameClass(p: int, a: int, s: int, b: int, r: int)
    requires p > 0 && Vanishes(p, a - s) && Vanishes(p, s * b - r)
    ensures Vanishes(p, a * b - r)
  {
    VanishesScale(p, b, a - s);
    VanishesAdd(p, b * (a - s), s * b - r);
    assert b * (a - s) + (s * b - r) == a * b - r;
  }

  lemma Rearrange(a: int, b: int, c: int)
    ensures a * (b * c) == (a * b) * c && a * (b * c) == b * (a * c)
  {
  }

  lemma ReduceTwice(a: int, m: int)
    requires m != 0
    ensures JsRem(JsRem(a, m), m) == JsRem(a, m)
  {
    ReduceFactor(a, 1, m);
  }

  // ---------------------------------------------------------------------------
  // Powers and bits

  lemma {:induction false} PowSum(b: int, m: nat, n: nat)
    ensures Pow(b, m + n) == Pow(b, m) * Pow(b, n)
  {
    if m > 0 {
      PowSum(b, m - 1, n);
      assert b * (Pow(b, m - 1) * Pow(b, n)) == (b * Pow(b, m - 1)) * Pow(b, n);
    }
  }

  lemma {:induction false} PowSquare(b: int, n: nat)
    ensures Pow(b * b, n) == Pow(b, n + n)
  {
    if n > 0 {
      PowSquare(b, n - 1);
      assert Pow(b, n + n) == b * (b * Pow(b, n - 1 + (n - 1)));
    }
  }

  lemma {:induction false} ReduceBase(b: int, n: nat, c: int, m: int)
    requires m != 0
    ensures JsRem(c * Pow(JsRem(b, m), n), m) == JsRem(c * Pow(b, n), m)
    decreases n
  {
    if n > 0 {
      var s := JsRem(b, m);
      var p, q := Pow(s, n - 1), Pow(b, n - 1);
      ReduceBase(b, n - 1, c * s, m);
      ReduceFactor(b, c * q, m);
      Rearrange(c, s, p);
      Rearrange(c, s, q);
      Rearrange(c, b, q);
    }
  }

  /** The number of binary digits. */
  function BitLength(x: int): nat {
    if x <= 0 then 0 else 1 + BitLength(x / 2)
  }

  /** The number of binary digits that are 1. */
  function SetBits(x: int): nat {
    if x <= 0 then 0 else x % 2 + SetBits(x / 2)
  }

  lemma {:induction false} BitLengthBounds(x: int)
    requires x > 0
    ensures BitLength(x) > 0 && Pow(2, BitLength(x) - 1) <= x < Pow(2, BitLength(x))
  {
    if x > 1 {
      BitLengthBounds(x / 2);
    } else {
      assert x / 2 == 0 && Pow(2, 1) == 2 * Pow(2, 0);
    }
  }

  lemma {:induction false} PowerMonotone(m: nat, n: nat)
    requires m <= n
    ensures Pow(2, m) <= Pow(2, n)
  {
    if m < n {
      PowerMonotone(m, n - 1);
      PowNonNegative(2, n - 1);
    }
  }

  /** For x > 0 the bit length is the only n with 2^(n-1) <= x < 2^n. */
  lemma BitLengthUnique(x: int, n: nat)
    requires x > 0 && n > 0
    ensures Pow(2, n - 1) <= x < Pow(2, n) <==> n == BitLength(x)
  {
    BitLengthBounds(x);
    var k := BitLength(x);
    if n < k {
      PowerMonotone(n, k - 1);
    } else if k < n {
      PowerMonotone(k, n - 1);
    }
  }

  /** Digit i of x. */
  function Bit(x: int, i: nat): nat
    decreases i
  {
    if i == 0 then x % 2 else Bit(x / 2, i - 1)
  }

  ghost function Ones(x: int, i: nat, n: nat): nat
    requires i <= n
    decreases n - i
  {
    if i == n then 0 else Bit(x, i) + Ones(x, i + 1, n)
  }

  lemma {:induction false} OnesShift(x: int, i: nat, n: nat)
    requires i <= n
    ensures Ones(x, i + 1, n + 1) == Ones(x / 2, i, n)
    decreases n - i
  {
    if i < n {
      OnesShift(x, i + 1, n);
    }
  }

  /** The set bits are the ones among the digits 0 to BitLength(x) - 1. */
  lemma {:induction false} SetBitsAreOnes(x: int)
    requires x >= 0
    ensures SetBits(x) == Ones(x, 0, BitLength(x))
  {
    if x > 0 {
      SetBitsAreOnes(x / 2);
      OnesShift(x, 0, BitLength(x / 2));
    }
  }

  // ---------------------------------------------------------------------------
  // The two functions

  /** bitLength */
  method CountBits(x: int) returns (n: nat)
    ensures n == BitLength(x) && (x <= 0 ==> n == 0)
  {
    n := 0;
    var y := x;
    while y > 0
      invariant n + BitLength(y) == BitLength(x)
      decreases y
    {
      n := n + 1;
      y := y / 2;
    }
  }

  /** What the loop of modPow keeps, with the base b and the exponent e still to go. */
  ghost predicate Progress(base: int, exp: nat, mod: int, result: int, b: int, e: nat, multiplies: nat)
    requires mod != 0
  {
    && JsRem(result * Pow(b, e), mod) == JsRem(Pow(base, exp), mod)
    && (if multiplies == 0 then result == 1 && (e > 0 || exp == 0) else JsRem(result, mod) == result)
  }

  lemma ProgressStart(base: int, exp: nat, mod: int)
    requires mod != 0
    ensures Progress(base, exp, mod, 1, JsRem(base, mod), exp, 0)
  {
    ReduceBase(base, exp, 1, mod);
  }

  lemma SquareStep(result: int, b: int, e: nat, mod: int)
    requires mod != 0 && e % 2 == 0
    ensures JsRem(result * Pow(JsRem(b * b, mod), e / 2), mod) == JsRem(result * Pow(b, e), mod)
  {
    ReduceBase(b * b, e / 2, result, mod);
    PowSquare(b, e / 2);
    assert e / 2 + e / 2 == e;
  }

  lemma MultiplyStep(result: int, b: int, e: nat, mod: int)
    requires mod != 0 && e > 0
    ensures JsRem(JsRem(result * b, mod) * Pow(b, e - 1), mod) == JsRem(result * Pow(b, e), mod)
  {
    var q := Pow(b, e - 1);
    ReduceFactor(result * b, q, mod);
    assert (result * b) * q == result * (b * q);
  }

  /** One round of the loop. */
  lemma ProgressStep(base: int, exp: nat, mod: int, result: int, b: int, e: nat, multiplies: nat)
    requires mod != 0 && e > 0 && Progress(base, exp, mod, result, b, e, multiplies)
    ensures e % 2 == 1 ==> Progress(base, exp, mod, JsRem(result * b, mod), JsRem(b * b, mod), e / 2, multiplies + 1)
    ensures e % 2 == 0 ==> Progress(base, exp, mod, result, JsRem(b * b, mod), e / 2, multiplies)
  {
    if e % 2 == 1 {
      MultiplyStep(result, b, e, mod);
      SquareStep(JsRem(result * b, mod), b, e - 1, mod);
      assert (e - 1) / 2 == e / 2;
      ReduceTwice(result * b, mod);
    } else {
      SquareStep(result, b, e, mod);
    }
  }

  /**
   modPow; None is the RangeError of a zero modulus. It squares once a binary digit of the
   exponent and multiplies once more for each digit that is 1.
   */
  method Compute(base: int, exp: int, mod: int) returns (r: Option<int>, ghost squarings: nat, ghost multiplies: nat)
    ensures r == Result(base, exp, mod)
    ensures (r == None <==> mod == 0) && (mod != 0 && exp < 0 ==> r == Some(1))
    ensures mod != 0 ==> squarings == BitLength(exp) && multiplies == SetBits(exp)
  {
    squarings, multiplies := 0, 0;
    if mod == 0 {
      return None, 0, 0;
    }
    var result, b, e := 1, JsRem(base, mod), exp;
    if exp >= 0 {
      ProgressStart(base, exp, mod);
    }
    while e > 0
      invariant exp >= 0 ==> e >= 0 && Progress(base, exp, mod, result, b, e, multiplies)
      invariant exp < 0 ==> e == exp && result == 1
      invariant squarings + BitLength(e) == BitLength(exp) && multiplies + SetBits(e) == SetBits(exp)
      decreases e
    {
      ProgressStep(base, exp, mod, result, b, e, multiplies);
      if e % 2 == 1 {
        result := JsRem(result * b, mod);
        multiplies := multiplies + 1;
      }
      b := JsRem(b * b, mod);
      squarings := squarings + 1;
      e := e / 2;
    }
    r := Some(result);
  }

  /** What modPow returns: for an exponent of zero, or below, the result is never reduced. */
  function Result(base: int, exp: int, mod: int): Option<int> {
    if mod == 0 then None else if exp <= 0 then Some(1) else Some(JsRem(Pow(base, exp), mod))
  }

  /**
   For a non-negative exponent the result is the remainder of the power, unless the exponent
   is zero and the modulus 1 or -1, where it is 1 in place of 0.
   */
  lemma RemainderOfPower(base: int, exp: nat, mod: int)
    requires mod != 0
    ensures Result(base, exp, mod) == Some(JsRem(Pow(base, exp), mod)) <==> !(exp == 0 && Abs(mod) == 1)
  {
    if exp == 0 {
      JsRemIs(1, mod);
      if Abs(mod) > 1 {
        SmallMod(Abs(mod), 1);
      }
    }
  }

  /** For a modulus above 1 the result is congruent to the power and smaller than the modulus. */
  lemma Congruent(base: int, exp: nat, mod: int)
    requires mod > 1
    ensures Result(base, exp, mod).Some?
    ensures var r := Result(base, exp, mod).value;
            -mod < r < mod && Vanishes(mod, Pow(base, exp) - r) && (base >= 0 ==> r == Pow(base, exp) % mod)
  {
    RemainderOfPower(base, exp, mod);
    JsRemIs(Pow(base, exp), mod);
    if base >= 0 {
      PowNonNegative(base, exp);
    }
  }

  lemma {:induction false} PowNonNegative(b: int, e: nat)
    requires b >= 0
    ensures Pow(b, e) >= 0
  {
    if e > 0 {
      PowNonNegative(b, e - 1);
    }
  }
}
