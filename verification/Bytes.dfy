/**
 Bytes and the big-endian integers that Python's `int.to_bytes` and `int.from_bytes`
 convert between.
 */
module Bytes {
  import opened Options

  type byte = b: nat | b < 256

  function Pow256(n: nat): (r: nat)
    ensures r >= 1
  {
    if n == 0 then 1 else 256 * Pow256(n - 1)
  }

  lemma {:induction false} Pow256Sum(m: nat, n: nat)
    ensures Pow256(m + n) == Pow256(m) * Pow256(n)
  {
    if m > 0 {
      Pow256Sum(m - 1, n);
    }
  }

  /** `int.from_bytes(s, "big")`. */
  function FromBigEndian(s: seq<byte>): nat {
    if s == [] then 0 else 256 * FromBigEndian(s[..|s| - 1]) + s[|s| - 1]
  }

  /** The first byte weighs most. */
  lemma {:induction false} FirstWeighsMost(b: byte, s: seq<byte>)
    ensures FromBigEndian([b]) == b
    ensures FromBigEndian([b] + s) == b * Pow256(|s|) + FromBigEndian(s)
  {
    if s == [] {
      assert [b] + s == [b];
    } else {
      FirstWeighsMost(b, s[..|s| - 1]);
      assert ([b] + s)[..|s|] == [b] + s[..|s| - 1];
      Weighed(b, Pow256(|s| - 1));
    }
  }

  lemma Weighed(b: nat, w: nat)
    ensures 256 * (b * w) == b * (256 * w)
  {
  }

  /** The bytes before others weigh a power of 256 more. */
  lemma {:induction false} FromConcat(a: seq<byte>, b: seq<byte>)
    ensures FromBigEndian(a + b) == FromBigEndian(a) * Pow256(|b|) + FromBigEndian(b)
  {
    if b == [] {
      assert a + b == a;
    } else {
      FromConcat(a, b[..|b| - 1]);
      assert (a + b)[..|a + b| - 1] == a + b[..|b| - 1];
      WeighedSum(FromBigEndian(a), Pow256(|b| - 1), FromBigEndian(b[..|b| - 1]), b[|b| - 1]);
    }
  }

  lemma WeighedSum(x: nat, w: nat, y: nat, last: nat)
    ensures 256 * (x * w + y) + last == x * (256 * w) + (256 * y + last)
  {
    Weighed(x, w);
  }

  /** The n low-order bytes of x, most significant first. */
  function Digits(x: nat, n: nat): (s: seq<byte>)
    ensures |s| == n
  {
    if n == 0 then [] else Digits(x / 256, n - 1) + [x % 256]
  }

  /** `x.to_bytes(n, "big")`, which raises OverflowError when x does not fit: None. */
  function ToBigEndian(x: nat, n: nat): Option<seq<byte>> {
    if x < Pow256(n) then Some(Digits(x, n)) else None
  }

  lemma {:induction false} FromDigits(x: nat, n: nat)
    requires x < Pow256(n)
    ensures FromBigEndian(Digits(x, n)) == x
  {
    if n > 0 {
      FromDigits(x / 256, n - 1);
      var s := Digits(x, n);
      assert s[..|s| - 1] == Digits(x / 256, n - 1);
    }
  }

  lemma {:induction false} DigitsFrom(s: seq<byte>)
    ensures FromBigEndian(s) < Pow256(|s|)
    ensures Digits(FromBigEndian(s), |s|) == s
  {
    if s != [] {
      var init := s[..|s| - 1];
      DigitsFrom(init);
      assert FromBigEndian(s) / 256 == FromBigEndian(init) && FromBigEndian(s) % 256 == s[|s| - 1];
      assert s == init + [s[|s| - 1]];
    }
  }

  /** to_bytes and from_bytes are inverse, wherever to_bytes does not overflow. */
  lemma BigEndianRoundTrip(x: nat, n: nat, s: seq<byte>)
    ensures ToBigEndian(x, n) == Some(s) <==> |s| == n && FromBigEndian(s) == x
  {
    if x < Pow256(n) {
      FromDigits(x, n);
    }
    DigitsFrom(s);
  }

  /** The bound of a 32-byte word, 256^32. */
  const WORD_LIMIT: nat := 0x1_0000_0000_0000_0000_0000_0000_0000_0000_0000_0000_0000_0000_0000_0000_0000_0000

  lemma WordLimitIsPower()
    ensures Pow256(32) == WORD_LIMIT
  {
    Pow256Sum(8, 8);
    Pow256Sum(16, 16);
    assert Pow256(8) == 0x1_0000_0000_0000_0000;
  }

  lemma WordRoundTrip(x: nat)
    requires x < WORD_LIMIT
    ensures FromBigEndian(Digits(x, 32)) == x
  {
    WordLimitIsPower();
    FromDigits(x, 32);
  }
}
