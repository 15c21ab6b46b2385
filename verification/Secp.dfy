/**
 Scalar multiplication and the public key of `proxy/secp.py`: the double-and-add loop
 computes the k-fold sum of the point, and the 33-byte compressed form identifies it.
 */
module Secp {
  import opened Bytes
  import opened Options
  import opened PrimeField
  import opened CurveAddition
  import opened CurveGroup
  import opened CurveAssociativity

  /** The k-fold sum u + ... + u. */
  function Times(p: int, k: nat, u: Point): Point
    requires p > 1
  {
    if k == 0 then Infinity else Add(p, Times(p, k - 1, u), u)
  }

  lemma {:induction false} TimesOnCurve(p: int, k: nat, u: Point)
    requires CurvePrime(p) && OnCurve(p, u)
    ensures OnCurve(p, Times(p, k, u))
  {
    if k > 0 {
      TimesOnCurve(p, k - 1, u);
      Closure(p, Times(p, k - 1, u), u);
    }
  }

  /** Multiples add up: (j + k)u == ju + ku. */
  lemma {:induction false} TimesSum(p: int, j: nat, k: nat, u: Point)
    requires CurvePrime(p) && OnCurve(p, u)
    ensures Times(p, j + k, u) == Add(p, Times(p, j, u), Times(p, k, u))
  {
    if k > 0 {
      TimesSum(p, j, k - 1, u);
      TimesOnCurve(p, j, u);
      TimesOnCurve(p, k - 1, u);
      Associative(p, Times(p, j, u), Times(p, k - 1, u), u);
    }
  }

  /** k copies of u + u are 2k copies of u. */
  lemma {:induction false} TimesDouble(p: int, k: nat, u: Point)
    requires CurvePrime(p) && OnCurve(p, u)
    ensures Times(p, k, Add(p, u, u)) == Times(p, 2 * k, u)
  {
    if k > 0 {
      TimesDouble(p, k - 1, u);
      TimesSum(p, 2 * (k - 1), 2, u);
      assert Times(p, 1, u) == u;
      assert Times(p, 2, u) == Add(p, u, u);
    }
  }

  /** The double-and-add loop returns the k-fold sum. */
  method Mul(p: int, k: nat, point: Point) returns (result: Point)
    requires CurvePrime(p) && OnCurve(p, point)
    ensures result == Times(p, k, point)
  {
    result := Infinity;
    var addend := point;
    var rest := k;
    while rest != 0
      invariant OnCurve(p, result) && OnCurve(p, addend)
      invariant Add(p, result, Times(p, rest, addend)) == Times(p, k, point)
    {
      MulStep(p, rest / 2, result, addend);
      if rest % 2 == 1 {
        result := Add(p, result, addend);
      }
      addend := Add(p, addend, addend);
      rest := rest / 2;
    }
  }

  /** One iteration keeps result + rest*addend, whichever the low bit of rest. */
  lemma MulStep(p: int, half: nat, result: Point, addend: Point)
    requires CurvePrime(p) && OnCurve(p, result) && OnCurve(p, addend)
    ensures OnCurve(p, Add(p, result, addend)) && OnCurve(p, Add(p, addend, addend))
    ensures var tail := Times(p, half, Add(p, addend, addend));
            && Add(p, result, tail) == Add(p, result, Times(p, 2 * half, addend))
            && Add(p, Add(p, result, addend), tail) == Add(p, result, Times(p, 2 * half + 1, addend))
  {
    Closure(p, result, addend);
    Closure(p, addend, addend);
    TimesDouble(p, half, addend);
    OddMultiple(p, half, result, addend);
  }

  lemma OddMultiple(p: int, half: nat, result: Point, addend: Point)
    requires CurvePrime(p) && OnCurve(p, result) && OnCurve(p, addend)
    ensures Add(p, Add(p, result, addend), Times(p, 2 * half, addend))
            == Add(p, result, Times(p, 2 * half + 1, addend))
  {
    var even := Times(p, 2 * half, addend);
    TimesOnCurve(p, 2 * half, addend);
    Associative(p, result, addend, even);
    Commutative(p, addend, even);
  }

  // ---------------------------------------------------------------------------
  // The compressed public key

  /** `bytes([0x02 | (y & 1)]) + x.to_bytes(32, "big")`. */
  function Compress(u: Point): seq<byte>
    requires u.Affine? && 0 <= u.x < WORD_LIMIT && 0 <= u.y
  {
    [2 + u.y % 2] + Digits(u.x, 32)
  }

  /** A point of the curve is determined by its compressed form. */
  lemma CompressInjective(p: int, u: Point, v: Point)
    requires CurvePrime(p) && p <= WORD_LIMIT && OnCurve(p, u) && OnCurve(p, v) && u.Affine? && v.Affine?
    ensures |Compress(u)| == 33 && Compress(u)[0] == (if u.y % 2 == 0 then 2 else 3)
    ensures FromBigEndian(Compress(u)[1..]) == u.x
    ensures Compress(u) == Compress(v) <==> u == v
  {
    CompressedForm(p, u);
    if Compress(u) == Compress(v) {
      assert Compress(u)[0] == Compress(v)[0];
      assert Digits(u.x, 32) == Compress(u)[1..] == Compress(v)[1..] == Digits(v.x, 32);
      WordRoundTrip(u.x);
      WordRoundTrip(v.x);
      SameParity(p, u.x, u.y, v.y);
    }
  }

  /** y is the coordinate with the given parity of a point of the curve with that x. */
  ghost predicate IsRoot(p: int, x: nat, parity: int, y: int)
    requires p > 0
  {
    x < p && 0 <= y < p && y % 2 == parity && Curve(p, x, y)
  }

  /** The decoder of SEC 1, section 2.3.4: prefix 2 asks for the even root, prefix 3 for the odd one. */
  ghost function Decompress(p: int, s: seq<byte>): Option<Point>
    requires p > 0
  {
    if |s| != 33 || s[0] < 2 || s[0] > 3 then None
    else
      var x, parity := FromBigEndian(s[1..]), s[0] - 2;
      if exists y :: IsRoot(p, x, parity, y) then
        var y :| IsRoot(p, x, parity, y);
        Some(Affine(x, y))
      else None
  }

  /** The prefix is 2 for even y and 3 for odd y, and the rest is x in 32 bytes, most significant first. */
  lemma CompressedForm(p: int, u: Point)
    requires CurvePrime(p) && p <= WORD_LIMIT && OnCurve(p, u) && u.Affine?
    ensures |Compress(u)| == 33
    ensures Compress(u)[0] == 2 <==> u.y % 2 == 0
    ensures Compress(u)[0] == 3 <==> u.y % 2 == 1
    ensures FromBigEndian(Compress(u)[1..]) == u.x
  {
    WordRoundTrip(u.x);
    assert Compress(u)[1..] == Digits(u.x, 32);
  }

  /** The decoder answers a point exactly for its compressed form. */
  lemma DecompressExactly(p: int, s: seq<byte>, u: Point)
    requires CurvePrime(p) && p <= WORD_LIMIT
    ensures Decompress(p, s) == Some(u) <==> OnCurve(p, u) && u.Affine? && Compress(u) == s
  {
    if OnCurve(p, u) && u.Affine? && Compress(u) == s {
      CompressedForm(p, u);
      RootFound(p, u, s);
    }
    if Decompress(p, s) == Some(u) {
      FoundRoot(p, u, s);
      CompressedAgain(u, s);
    }
  }

  lemma RootFound(p: int, u: Point, s: seq<byte>)
    requires CurvePrime(p) && OnCurve(p, u) && u.Affine?
    requires |s| == 33 && 2 <= s[0] <= 3 && FromBigEndian(s[1..]) == u.x && s[0] - 2 == u.y % 2
    ensures Decompress(p, s) == Some(u)
  {
    OnlyRoot(p, u, s[0] - 2);
    assert IsRoot(p, u.x, s[0] - 2, u.y);
  }

  lemma FoundRoot(p: int, u: Point, s: seq<byte>)
    requires CurvePrime(p) && Decompress(p, s) == Some(u)
    ensures |s| == 33 && OnCurve(p, u) && u.Affine? && FromBigEndian(s[1..]) == u.x && s[0] == 2 + u.y % 2
  {
  }

  lemma CompressedAgain(u: Point, s: seq<byte>)
    requires |s| == 33 && u.Affine? && 0 <= u.y
    requires FromBigEndian(s[1..]) == u.x < WORD_LIMIT && s[0] == 2 + u.y % 2
    ensures Compress(u) == s
  {
    DigitsFrom(s[1..]);
    assert s == [s[0]] + s[1..];
  }

  lemma OnlyRoot(p: int, u: Point, parity: int)
    requires CurvePrime(p) && OnCurve(p, u) && u.Affine? && u.y % 2 == parity
    ensures forall y :: IsRoot(p, u.x, parity, y) <==> y == u.y
  {
    forall y | IsRoot(p, u.x, parity, y) ensures y == u.y {
      SameParity(p, u.x, u.y, y);
    }
  }

  /** Of y and p - y exactly one is even. */
  lemma SameParity(p: int, x: int, y: int, z: int)
    requires CurvePrime(p) && 0 <= y < p && 0 <= z < p && y % 2 == z % 2
    requires Curve(p, x, y) && Curve(p, x, z)
    ensures y == z
  {
    if Opposite(p, x, y, x, z) {
      var k := Quotient(p, y + z);
      SumBelowTwice(p, k, y + z);
      assert p % 2 == 1;
    } else {
      SameXSameY(p, x, y, x, z);
      SmallVanishes(p, y - z);
    }
  }

  lemma SumBelowTwice(p: int, k: int, n: int)
    requires p > 0 && 0 <= n < 2 * p && n == k * p
    ensures n == 0 || n == p
  {
    MultipleSize(k - 1, p);
    MultipleSize(k, p);
    if k > 1 {
      MultipleSize(k - 1, p);
    }
  }

  /** The constants of the curve: its prime, the order of the generator, the generator. */
  datatype Parameters = Parameters(p: int, n: int, g: Point)

  ghost predicate ValidParameters(c: Parameters) {
    CurvePrime(c.p) && c.p <= WORD_LIMIT && c.n > 0 && OnCurve(c.p, c.g)
  }

  /** ValueError for a zero key; unpacking the point at infinity raises TypeError. */
  datatype KeyError = InvalidPrivateKey | PointAtInfinity

  datatype KeyResult = Key(bytes: seq<byte>) | Failure(error: KeyError)

  /** The public key of a scalar, by the k-fold sum of the generator. */
  ghost function PublicKey(c: Parameters, k: nat): KeyResult
    requires ValidParameters(c)
  {
    TimesOnCurve(c.p, k % c.n, c.g);
    var u := Times(c.p, k % c.n, c.g);
    if k % c.n == 0 then Failure(InvalidPrivateKey)
    else if u == Infinity then Failure(PointAtInfinity)
    else Key(Compress(u))
  }

  method CompressedPubkey(c: Parameters, priv: seq<byte>) returns (r: KeyResult)
    requires ValidParameters(c)
    ensures r == PublicKey(c, FromBigEndian(priv))
    ensures var k := FromBigEndian(priv) % c.n;
            var u := Times(c.p, k, c.g);
            && (r == Failure(InvalidPrivateKey) <==> k == 0)
            && (r == Failure(PointAtInfinity) <==> k != 0 && u == Infinity)
            && (r.Key? ==>
                  && u.Affine? && |r.bytes| == 33 && FromBigEndian(r.bytes[1..]) == u.x
                  && r.bytes[0] == (if u.y % 2 == 0 then 2 else 3)
                  && Decompress(c.p, r.bytes) == Some(u))
  {
    var k := FromBigEndian(priv) % c.n;
    if k == 0 {
      return Failure(InvalidPrivateKey);
    }
    var u := Mul(c.p, k, c.g);
    TimesOnCurve(c.p, k, c.g);
    match u
    case Infinity => r := Failure(PointAtInfinity);
    case Affine(x, y) =>
      r := Key([2 + y % 2] + Digits(x, 32));
      CompressedForm(c.p, u);
      DecompressExactly(c.p, r.bytes, u);
  }

  /** Two scalars have the same public key exactly when their multiples of the generator agree. */
  lemma PublicKeysAgree(c: Parameters, j: nat, k: nat)
    requires ValidParameters(c) && PublicKey(c, j).Key? && PublicKey(c, k).Key?
    ensures |PublicKey(c, j).bytes| == 33 && PublicKey(c, j).bytes[0] in {2, 3}
    ensures PublicKey(c, j) == PublicKey(c, k)
            <==> Times(c.p, j % c.n, c.g) == Times(c.p, k % c.n, c.g)
  {
    TimesOnCurve(c.p, j % c.n, c.g);
    TimesOnCurve(c.p, k % c.n, c.g);
    CompressInjective(c.p, Times(c.p, j % c.n, c.g), Times(c.p, k % c.n, c.g));
  }

  /** When n times the generator is Infinity, reducing a scalar modulo n keeps its multiple. */
  lemma ReducedScalar(c: Parameters, k: nat)
    requires ValidParameters(c) && Times(c.p, c.n, c.g) == Infinity
    ensures Times(c.p, k % c.n, c.g) == Times(c.p, k, c.g)
  {
    DivMod(c.n, k);
    TimesCycle(c, k / c.n, k % c.n);
  }

  lemma {:induction false} TimesCycle(c: Parameters, q: nat, r: nat)
    requires ValidParameters(c) && Times(c.p, c.n, c.g) == Infinity
    ensures q * c.n >= 0 && Times(c.p, q * c.n + r, c.g) == Times(c.p, r, c.g)
  {
    if q > 0 {
      TimesCycle(c, q - 1, r);
      assert q * c.n + r == c.n + ((q - 1) * c.n + r);
      TimesSum(c.p, c.n, (q - 1) * c.n + r, c.g);
    }
  }

  // ---------------------------------------------------------------------------
  // The constants of the module

  const P := 0xFFFF_FFFF_FFFF_FFFF_FFFF_FFFF_FFFF_FFFF_FFFF_FFFF_FFFF_FFFF_FFFF_FFFE_FFFF_FC2F
  const N := 0xFFFF_FFFF_FFFF_FFFF_FFFF_FFFF_FFFF_FFFE_BAAE_DCE6_AF48_A03B_BFD2_5E8C_D036_4141
  const GX := 0x79BE_667E_F9DC_BBAC_55A0_6295_CE87_0B07_029B_FCDB_2DCE_28D9_59F2_815B_16F8_1798
  const GY := 0x483A_DA77_26A3_C465_5DA4_FBFC_0E11_08A8_FD17_B448_A685_5419_9C47_D08F_FB10_D4B8

  /** The generator is on the curve, the modulus fits in 32 bytes, and scalars are below it. */
  lemma GeneratorOnCurve()
    ensures OnCurve(P, Affine(GX, GY)) && 0 < N < P <= WORD_LIMIT && 7 < P
  {
  }

  /** The constants meet every condition on the parameters, if P is prime. */
  lemma Constants()
    ensures ValidParameters(Parameters(P, N, Affine(GX, GY))) <==> IsPrime(P)
  {
    GeneratorOnCurve();
  }

  /** Valid parameters of cyclic order: the curve modulo 11, where (2, 2) has order 4. */
  lemma SmallParameters()
    ensures ValidParameters(Parameters(11, 4, Affine(2, 2)))
    ensures Times(11, 4, Affine(2, 2)) == Infinity && Times(11, 2, Affine(2, 2)) == Affine(5, 0)
  {
    var g, h := Affine(2, 2), Affine(5, 0);
    InvUnique(11, 4, 3);
    InvUnique(11, -3, 7);
    assert Add(11, Infinity, g) == g;
    assert Add(11, g, g) == h;
    assert Add(11, h, g) == Affine(2, 9);
    assert Add(11, Affine(2, 9), g) == Infinity;
    assert Times(11, 1, g) == Add(11, Times(11, 0, g), g);
    assert Times(11, 2, g) == h;
    assert Times(11, 3, g) == Affine(2, 9);
  }
}
