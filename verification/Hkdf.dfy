/**
 HKDF as `proxy/runtimes.py` writes it, against section 2.3 of RFC 5869. HMAC-SHA-256 is a
 parameter, of which only the length of its result is known.
 */
module Hkdf {
  import opened Bytes
  import opened Options

  type Mac = (seq<byte>, seq<byte>) -> seq<byte>

  const HASH_LEN: nat := 32

  ghost predicate IsMac(mac: Mac) {
    forall key, message :: |mac(key, message)| == HASH_LEN
  }

  /** T(i) of the RFC: T(0) is empty, T(i) is the HMAC of T(i-1), info and the octet i. */
  function T(mac: Mac, prk: seq<byte>, info: seq<byte>, i: nat): seq<byte>
    requires i < 256
  {
    if i == 0 then [] else mac(prk, T(mac, prk, info, i - 1) + info + [i as byte])
  }

  /** T(1) | T(2) | ... | T(n) */
  function Blocks(mac: Mac, prk: seq<byte>, info: seq<byte>, n: nat): seq<byte>
    requires n < 256
  {
    if n == 0 then [] else Blocks(mac, prk, info, n - 1) + T(mac, prk, info, n)
  }

  lemma {:induction false} BlocksLength(mac: Mac, prk: seq<byte>, info: seq<byte>, n: nat)
    requires IsMac(mac) && n < 256
    ensures |Blocks(mac, prk, info, n)| == HASH_LEN * n
  {
    if n > 0 {
      BlocksLength(mac, prk, info, n - 1);
    }
  }

  lemma {:induction false} BlocksPrefix(mac: Mac, prk: seq<byte>, info: seq<byte>, m: nat, n: nat)
    requires m <= n < 256
    ensures Blocks(mac, prk, info, m) <= Blocks(mac, prk, info, n)
  {
    if m < n {
      BlocksPrefix(mac, prk, info, m, n - 1);
    }
  }

  /** A slice out[:end] of Python, where a negative end counts from the back. */
  function Slice(s: seq<byte>, end: int): seq<byte> {
    var stop := if end < 0 then |s| + end else end;
    if stop <= 0 then [] else if stop >= |s| then s else s[..stop]
  }

  /** ceil(length / HASH_LEN), the N of the RFC, but at least one. */
  function Rounds(length: int): (n: nat)
    ensures n >= 1
  {
    if length <= HASH_LEN then 1 else (length + HASH_LEN - 1) / HASH_LEN
  }

  /** The value of _hkdf; None is its ValueError. */
  function Derived(mac: Mac, ikm: seq<byte>, info: seq<byte>, length: int): Option<seq<byte>> {
    if Rounds(length) > 255 then None else Some(Slice(Blocks(mac, mac([], ikm), info, Rounds(length)), length))
  }

  /** _hkdf */
  method Expand(mac: Mac, ikm: seq<byte>, info: seq<byte>, length: int) returns (okm: Option<seq<byte>>)
    requires IsMac(mac)
    ensures okm == Derived(mac, ikm, info, length)
  {
    var prk := mac([], ikm);
    var out, previous := [], [];
    for counter := 1 to 256
      invariant previous == T(mac, prk, info, counter - 1)
      invariant out == Blocks(mac, prk, info, counter - 1)
      invariant counter > 1 ==> HASH_LEN * (counter - 1) < length
    {
      previous := mac(prk, previous + info + [counter as byte]);
      out := out + previous;
      BlocksLength(mac, prk, info, counter);
      if |out| >= length {
        return Some(Slice(out, length));
      }
    }
    okm := None;
  }

  /**
   The output keying material of the RFC: exactly for a length of at most 255 * HASH_LEN, the
   first `length` octets of T(1) | T(2) | ... | T(255).
   */
  lemma FirstOctets(mac: Mac, ikm: seq<byte>, info: seq<byte>, length: nat)
    requires IsMac(mac)
    ensures Derived(mac, ikm, info, length).Some? <==> length <= 255 * HASH_LEN
    ensures var all := Blocks(mac, mac([], ikm), info, 255);
            length <= 255 * HASH_LEN ==> length <= |all| && Derived(mac, ikm, info, length) == Some(all[..length])
  {
    var prk := mac([], ikm);
    if length <= 255 * HASH_LEN {
      BlocksLength(mac, prk, info, Rounds(length));
      BlocksLength(mac, prk, info, 255);
      BlocksPrefix(mac, prk, info, Rounds(length), 255);
      var some, all := Blocks(mac, prk, info, Rounds(length)), Blocks(mac, prk, info, 255);
      assert length <= |some| && some == all[..|some|];
      assert some[..length] == all[..length];
    }
  }

  /** A shorter output is a prefix of a longer one. */
  lemma ShorterIsPrefix(mac: Mac, ikm: seq<byte>, info: seq<byte>, short: nat, long: nat)
    requires IsMac(mac) && short <= long <= 255 * HASH_LEN
    ensures Derived(mac, ikm, info, short).value <= Derived(mac, ikm, info, long).value
  {
    FirstOctets(mac, ikm, info, short);
    FirstOctets(mac, ikm, info, long);
  }

  lemma {:induction false} BlockOctet(mac: Mac, prk: seq<byte>, info: seq<byte>, n: nat, j: nat)
    requires IsMac(mac) && j < HASH_LEN * n && n < 256
    ensures j / HASH_LEN + 1 <= n
    ensures |Blocks(mac, prk, info, n)| == HASH_LEN * n && |T(mac, prk, info, j / HASH_LEN + 1)| == HASH_LEN
    ensures Blocks(mac, prk, info, n)[j] == T(mac, prk, info, j / HASH_LEN + 1)[j % HASH_LEN]
  {
    BlocksLength(mac, prk, info, n);
    BlocksLength(mac, prk, info, n - 1);
    if j < HASH_LEN * (n - 1) {
      BlockOctet(mac, prk, info, n - 1, j);
    }
  }

  lemma {:induction false} SameBlocks(mac: Mac, prk: seq<byte>, info: seq<byte>, t: seq<seq<byte>>, i: nat)
    requires |t| == 256 && t[0] == [] && i < 256
    requires forall k :: 1 <= k < 256 ==> t[k] == mac(prk, t[k - 1] + info + [k as byte])
    ensures t[i] == T(mac, prk, info, i)
  {
    if i > 0 {
      SameBlocks(mac, prk, info, t, i - 1);
    }
  }

  /**
   With the blocks of the RFC, T(0) empty and T(k) = HMAC(PRK, T(k-1) | info | k) for the
   pseudorandom key PRK = HMAC("", IKM), octet j of the output is octet j mod 32 of
   T(j div 32 + 1).
   */
  lemma EachOctet(mac: Mac, ikm: seq<byte>, info: seq<byte>, length: nat, t: seq<seq<byte>>, j: nat)
    requires IsMac(mac) && j < length <= 255 * 32
    requires |t| == 256 && t[0] == []
    requires forall k :: 1 <= k < 256 ==> t[k] == mac(mac([], ikm), t[k - 1] + info + [k as byte])
    ensures Derived(mac, ikm, info, length).Some? && |Derived(mac, ikm, info, length).value| == length
    ensures j / 32 + 1 < 256 && |t[j / 32 + 1]| == 32
    ensures Derived(mac, ikm, info, length).value[j] == t[j / 32 + 1][j % 32]
  {
    FirstOctets(mac, ikm, info, length);
    BlockOctet(mac, mac([], ikm), info, 255, j);
    SameBlocks(mac, mac([], ikm), info, t, j / 32 + 1);
  }

  /** A negative length is not refused: it cuts octets off the end of the first block. */
  lemma NegativeLength(mac: Mac, ikm: seq<byte>, info: seq<byte>, length: int)
    requires IsMac(mac) && length < 0
    ensures Derived(mac, ikm, info, length).Some?
    ensures |Derived(mac, ikm, info, length).value| == if length < -32 then 0 else HASH_LEN + length
  {
    BlocksLength(mac, mac([], ikm), info, 1);
  }
}
