/**
 Arithmetic modulo a prime, as `proxy/secp.py` uses it: powers, the inverse by
 Fermat's little theorem, and cancellation. `Vanishes(p, a)` says that `a` is zero
 modulo `p`; every equation between field elements is written as a difference that
 vanishes.
 */
module PrimeField {

  ghost predicate IsPrime(p: int) {
    p > 1 && forall d {:trigger p % d} :: 2 <= d < p ==> p % d != 0
  }

  ghost predicate Vanishes(p: int, a: int)
    requires p > 0
  {
    a % p == 0
  }

  function Pow(b: int, e: nat): int {
    if e == 0 then 1 else b * Pow(b, e - 1)
  }

  // ---------------------------------------------------------------------------
  // Divisibility

  lemma MultipleSize(k: int, p: int)
    requires p > 0
    ensures k >= 1 ==> k * p >= p
    ensures k <= -1 ==> k * p <= -p
  {
  }

  lemma MultipleVanishes(p: int, k: int)
    requires p > 0
    ensures Vanishes(p, k * p)
  {
    var q, r := (k * p) / p, (k * p) % p;
    assert k * p == q * p + r;
    assert (k - q) * p == r;
    MultipleSize(k - q, p);
  }

  lemma Quotient(p: int, a: int) returns (k: int)
    requires p > 0 && Vanishes(p, a)
    ensures a == k * p
  {
    k := a / p;
  }

  lemma VanishesScale(p: int, c: int, a: int)
    requires p > 0 && Vanishes(p, a)
    ensures Vanishes(p, c * a)
  {
    var k := Quotient(p, a);
    MultipleVanishes(p, c * k);
    assert c * a == (c * k) * p;
  }

  lemma VanishesAdd(p: int, a: int, b: int)
    requires p > 0 && Vanishes(p, a) && Vanishes(p, b)
    ensures Vanishes(p, a + b) && Vanishes(p, a - b)
  {
    var i := Quotient(p, a);
    var j := Quotient(p, b);
    MultipleVanishes(p, i + j);
    MultipleVanishes(p, i - j);
    assert a + b == (i + j) * p && a - b == (i - j) * p;
  }

  /** A combination c1*r1 + c2*r2 of vanishing terms vanishes. */
  lemma Combine2(p: int, c1: int, r1: int, c2: int, r2: int)
    requires p > 0 && Vanishes(p, r1) && Vanishes(p, r2)
    ensures Vanishes(p, c1 * r1 + c2 * r2)
  {
    VanishesScale(p, c1, r1);
    VanishesScale(p, c2, r2);
    VanishesAdd(p, c1 * r1, c2 * r2);
  }

  lemma Combine3(p: int, c1: int, r1: int, c2: int, r2: int, c3: int, r3: int)
    requires p > 0 && Vanishes(p, r1) && Vanishes(p, r2) && Vanishes(p, r3)
    ensures Vanishes(p, c1 * r1 + c2 * r2 + c3 * r3)
  {
    Combine2(p, c1, r1, c2, r2);
    VanishesScale(p, c3, r3);
    VanishesAdd(p, c1 * r1 + c2 * r2, c3 * r3);
  }

  lemma Combine4(p: int, c1: int, r1: int, c2: int, r2: int, c3: int, r3: int, c4: int, r4: int)
    requires p > 0 && Vanishes(p, r1) && Vanishes(p, r2) && Vanishes(p, r3) && Vanishes(p, r4)
    ensures Vanishes(p, c1 * r1 + c2 * r2 + c3 * r3 + c4 * r4)
  {
    Combine2(p, c1, r1, c2, r2);
    Combine2(p, c3, r3, c4, r4);
    VanishesAdd(p, c1 * r1 + c2 * r2, c3 * r3 + c4 * r4);
  }

  /** a and its remainder differ by something that vanishes. */
  lemma Remainder(p: int, a: int)
    requires p > 0
    ensures 0 <= a % p < p && Vanishes(p, a - a % p) && Vanishes(p, a % p - a)
  {
    MultipleVanishes(p, a / p);
    MultipleVanishes(p, -(a / p));
    assert a - a % p == (a / p) * p;
    assert a % p - a == (-(a / p)) * p;
  }

  lemma SmallVanishes(p: int, a: int)
    requires p > 0 && -p < a < p && Vanishes(p, a)
    ensures a == 0
  {
    var k := Quotient(p, a);
    MultipleSize(k, p);
  }

  lemma SmallMod(p: int, a: int)
    requires 0 <= a < p
    ensures a % p == a
  {
  }

  lemma DivMod(n: int, k: int)
    requires n > 0
    ensures k == (k / n) * n + k % n && 0 <= k % n < n
  {
  }

  /** Equal remainders and a vanishing difference are the same thing. */
  lemma SameRemainder(p: int, a: int, b: int)
    requires p > 0
    ensures a % p == b % p <==> Vanishes(p, a - b)
  {
    Remainder(p, a);
    Remainder(p, b);
    if Vanishes(p, a - b) {
      VanishesAdd(p, a % p - a, a - b);
      VanishesAdd(p, a % p - a + (a - b), b - b % p);
      SmallVanishes(p, a % p - b % p);
    }
    if a % p == b % p {
      VanishesAdd(p, a - a % p, b % p - b);
    }
  }

  /** Euclid's lemma, by strong induction on the first factor. */
  lemma {:induction false} EuclidSmall(p: int, a: int, b: int)
    requires IsPrime(p) && 0 < a < p && Vanishes(p, a * b)
    ensures Vanishes(p, b)
    decreases a
  {
    if a == 1 {
      assert a * b == b;
    } else {
      var q, r := p / a, p % a;
      assert p == q * a + r && 0 < r < a;
      Combine2(p, -q, a * b, b, p);
      assert -q * (a * b) + b * p == (p - q * a) * b;
      EuclidSmall(p, r, b);
    }
  }

  lemma Cancel(p: int, a: int, b: int)
    requires IsPrime(p) && Vanishes(p, a * b) && !Vanishes(p, a)
    ensures Vanishes(p, b)
  {
    Remainder(p, a);
    Combine2(p, 1, a * b, b, a % p - a);
    assert a * b + b * (a % p - a) == (a % p) * b;
    EuclidSmall(p, a % p, b);
  }

  lemma ProductNonzero(p: int, a: int, b: int)
    requires IsPrime(p) && !Vanishes(p, a) && !Vanishes(p, b)
    ensures !Vanishes(p, a * b)
  {
    if Vanishes(p, a * b) {
      Cancel(p, a, b);
    }
  }

  /** The primes other than 2, 3 and 7 divide none of the constants of the curve. */
  lemma SmallConstants(p: int)
    requires IsPrime(p) && p > 3 && p != 7
    ensures !Vanishes(p, 2) && !Vanishes(p, 3) && !Vanishes(p, 7)
  {
    if p < 7 {
      assert 4 % 2 == 0 && 6 % 2 == 0;
      assert p % 2 != 0;
      assert p == 5;
    }
  }

  // ---------------------------------------------------------------------------
  // Fermat's little theorem, by comparing the product of 1..p-1 with the product
  // of its image under multiplication by x.

  ghost function Product(s: set<nat>): int {
    if s == {} then 1 else var x :| x in s; x * Product(s - {x})
  }

  lemma ProductUnfold(s: set<nat>) returns (x: nat)
    requires s != {}
    ensures x in s && Product(s) == x * Product(s - {x})
  {
    x :| x in s && Product(s) == x * Product(s - {x});
  }

  lemma Exchange(x: int, y: int, r: int)
    ensures x * (y * r) == y * (x * r)
  {
  }

  lemma {:induction false} ProductRemove(s: set<nat>, y: nat)
    requires y in s
    ensures Product(s) == y * Product(s - {y})
  {
    var x := ProductUnfold(s);
    if x != y {
      ProductRemove(s - {x}, y);
      ProductRemove(s - {y}, x);
      assert s - {x} - {y} == s - {y} - {x};
      Exchange(x, y, Product(s - {x} - {y}));
    }
  }

  ghost function Image(p: int, x: int, s: set<nat>): set<nat>
    requires p > 0
  {
    set i | i in s :: (x * i) % p
  }

  lemma ScaledDistinct(p: int, x: int, i: int, j: int)
    requires IsPrime(p) && !Vanishes(p, x) && 0 < i < p && 0 < j < p
    requires (x * i) % p == (x * j) % p
    ensures i == j
  {
    SameRemainder(p, x * i, x * j);
    assert x * i - x * j == x * (i - j);
    Cancel(p, x, i - j);
    SmallVanishes(p, i - j);
  }

  /** Multiplying by a unit x permutes residues, so removing i from s removes x*i from its image. */
  lemma ImageRemove(p: int, x: int, s: set<nat>, i: nat)
    requires IsPrime(p) && !Vanishes(p, x) && (forall j :: j in s ==> 0 < j < p) && i in s
    ensures (x * i) % p !in Image(p, x, s - {i})
    ensures Image(p, x, s) == Image(p, x, s - {i}) + {(x * i) % p}
  {
    forall j | j in s - {i} ensures (x * j) % p != (x * i) % p {
      if (x * j) % p == (x * i) % p { ScaledDistinct(p, x, j, i); }
    }
    var y, img := (x * i) % p, Image(p, x, s - {i});
    forall z: nat | z in Image(p, x, s) ensures z in img + {y} {
      var j :| j in s && z == (x * j) % p;
      assert j == i || j in s - {i};
    }
    assert i in s && y in Image(p, x, s);
  }

  lemma ImageStep(p: int, x: int, i: int, n: nat, img: int, rest: int)
    requires p > 0 && Vanishes(p, img - Pow(x, n) * rest)
    ensures Vanishes(p, ((x * i) % p) * img - Pow(x, n + 1) * (i * rest))
  {
    var y, b := (x * i) % p, Pow(x, n) * rest;
    Remainder(p, x * i);
    Combine2(p, y, img - b, b, y - x * i);
    ImageAlgebra(x, i, y, Pow(x, n), rest, img);
  }

  lemma ImageAlgebra(x: int, i: int, y: int, w: int, rest: int, img: int)
    ensures y * (img - w * rest) + (w * rest) * (y - x * i) == y * img - (x * w) * (i * rest)
  {
    assert (w * rest) * (x * i) == (x * w) * (i * rest);
  }

  lemma ImageProductStep(p: int, x: int, s: set<nat>, i: nat)
    requires IsPrime(p) && !Vanishes(p, x) && (forall j :: j in s ==> 0 < j < p) && i in s
    requires Vanishes(p, Product(Image(p, x, s - {i})) - Pow(x, |s - {i}|) * Product(s - {i}))
    requires |Image(p, x, s - {i})| == |s - {i}|
    ensures Vanishes(p, Product(Image(p, x, s)) - Pow(x, |s|) * Product(s))
    ensures |Image(p, x, s)| == |s|
  {
    var y, img, rest := (x * i) % p, Image(p, x, s - {i}), s - {i};
    ImageRemove(p, x, s, i);
    ImageStep(p, x, i, |rest|, Product(img), Product(rest));
    ProductRemove(s, i);
    AddedProduct(Image(p, x, s), img, y);
  }

  lemma AddedProduct(s: set<nat>, rest: set<nat>, y: nat)
    requires s == rest + {y} && y !in rest
    ensures Product(s) == y * Product(rest) && |s| == |rest| + 1
  {
    ProductRemove(s, y);
    assert s - {y} == rest;
  }

  lemma {:induction false} ImageProduct(p: int, x: int, s: set<nat>)
    requires IsPrime(p) && !Vanishes(p, x) && forall i :: i in s ==> 0 < i < p
    ensures Vanishes(p, Product(Image(p, x, s)) - Pow(x, |s|) * Product(s))
    ensures |Image(p, x, s)| == |s|
  {
    if s == {} {
      assert Image(p, x, s) == {};
    } else {
      var i: nat :| i in s;
      ImageProduct(p, x, s - {i});
      ImageProductStep(p, x, s, i);
    }
  }

  /** The nonzero residues {1, ..., p - 1}. */
  lemma {:induction false} Units(p: int) returns (u: set<nat>)
    requires p >= 1
    ensures |u| == p - 1
    ensures forall i: nat :: i in u <==> 0 < i < p
  {
    if p == 1 {
      u := {};
    } else {
      var v := Units(p - 1);
      u := v + {p - 1};
    }
  }

  lemma {:induction false} ProductCoprime(p: int, s: set<nat>)
    requires IsPrime(p) && forall i :: i in s ==> 0 < i < p
    ensures !Vanishes(p, Product(s))
  {
    if s != {} {
      var x := ProductUnfold(s);
      SmallNonzero(p, x);
      ProductCoprime(p, s - {x});
      ProductNonzero(p, x, Product(s - {x}));
    }
  }

  lemma SubsetSameSize(s: set<nat>, t: set<nat>)
    requires s <= t && |s| == |t|
    ensures s == t
  {
    assert t == s + (t - s);
    assert |t - s| == 0;
  }

  lemma SmallNonzero(p: int, i: int)
    requires p > 0 && 0 < i < p
    ensures !Vanishes(p, i)
  {
  }

  lemma ImageOfUnits(p: int, x: int, u: set<nat>)
    requires IsPrime(p) && !Vanishes(p, x) && forall i: nat :: i in u <==> 0 < i < p
    ensures Image(p, x, u) == u
  {
    ImageProduct(p, x, u);
    forall i: nat | i in u ensures (x * i) % p in u {
      SmallNonzero(p, i);
      ProductNonzero(p, x, i);
    }
    SubsetSameSize(Image(p, x, u), u);
  }

  lemma CancelProduct(p: int, q: int, w: int)
    requires IsPrime(p) && Vanishes(p, q - w * q) && !Vanishes(p, q)
    ensures Vanishes(p, w - 1)
  {
    VanishesScale(p, -1, q - w * q);
    assert -1 * (q - w * q) == q * (w - 1);
    Cancel(p, q, w - 1);
  }

  lemma FixedProduct(p: int, x: int, u: set<nat>, n: nat)
    requires IsPrime(p) && !Vanishes(p, x) && (forall i :: i in u ==> 0 < i < p)
    requires Image(p, x, u) == u && |u| == n
    ensures Vanishes(p, Pow(x, n) - 1)
  {
    ImageProduct(p, x, u);
    ProductCoprime(p, u);
    CancelProduct(p, Product(u), Pow(x, n));
  }

  /** Fermat's little theorem. */
  lemma Fermat(p: int, x: int)
    requires IsPrime(p) && !Vanishes(p, x)
    ensures Vanishes(p, Pow(x, p - 1) - 1)
  {
    var u := Units(p);
    ImageOfUnits(p, x, u);
    FixedProduct(p, x, u, p - 1);
  }

  // ---------------------------------------------------------------------------
  // The inverse of proxy/secp.py

  /** `pow(x, p - 2, p)`. */
  function Inv(p: int, x: int): int
    requires p > 1
  {
    Pow(x, p - 2) % p
  }

  /** The Fermat power is the inverse of every x that is not zero modulo p. */
  lemma InvIsInverse(p: int, x: int)
    requires IsPrime(p) && !Vanishes(p, x)
    ensures 0 <= Inv(p, x) < p && Vanishes(p, x * Inv(p, x) - 1)
  {
    var w := Pow(x, p - 2);
    Fermat(p, x);
    Remainder(p, w);
    assert Pow(x, p - 1) == x * w;
    Combine2(p, 1, x * w - 1, x, w % p - w);
    assert 1 * (x * w - 1) + x * (w % p - w) == x * (w % p) - 1;
  }

  /** Inverses are unique among the residues. */
  lemma InverseUnique(p: int, x: int, y: int, z: int)
    requires IsPrime(p) && !Vanishes(p, x) && 0 <= y < p && 0 <= z < p
    requires Vanishes(p, x * y - 1) && Vanishes(p, x * z - 1)
    ensures y == z
  {
    VanishesAdd(p, x * y - 1, x * z - 1);
    DifferenceFactor(x, y, z);
    Cancel(p, x, y - z);
    SmallVanishes(p, y - z);
  }

  lemma DifferenceFactor(x: int, y: int, z: int)
    ensures (x * y - 1) - (x * z - 1) == x * (y - z)
  {
  }

  lemma InvUnique(p: int, x: int, y: int)
    requires IsPrime(p) && !Vanishes(p, x) && 0 <= y < p && Vanishes(p, x * y - 1)
    ensures Inv(p, x) == y
  {
    InvIsInverse(p, x);
    InverseUnique(p, x, y, Inv(p, x));
  }
}
