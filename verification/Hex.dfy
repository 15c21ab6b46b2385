/**
 Python's `bytes.hex` and `bytes.fromhex`: lower-case digits out, either case in, with
 ASCII whitespace allowed between bytes.
 */
module Hex {
  import opened Bytes
  import opened Options

  function DigitChar(d: nat): char
    requires d < 16
  {
    "0123456789abcdef"[d]
  }

  function DigitValue(c: char): Option<nat> {
    if '0' <= c <= '9' then Some(c as nat - '0' as nat)
    else if 'a' <= c <= 'f' then Some(c as nat - 'a' as nat + 10)
    else if 'A' <= c <= 'F' then Some(c as nat - 'A' as nat + 10)
    else None
  }

  predicate IsSpace(c: char) {
    c in " \t\n\r" || c as nat in [11, 12]
  }

  function ToHex(s: seq<byte>): string {
    if s == [] then "" else [DigitChar(s[0] / 16), DigitChar(s[0] % 16)] + ToHex(s[1..])
  }

  /** None is the ValueError for a string that is not made of pairs of digits. */
  function FromHex(s: string): Option<seq<byte>> {
    if s == "" then Some([])
    else if IsSpace(s[0]) then FromHex(s[1..])
    else if |s| < 2 then None
    else
      match (DigitValue(s[0]), DigitValue(s[1]), FromHex(s[2..]))
      case (Some(high), Some(low), Some(rest)) =>
        DigitsInRange(s[0]);
        DigitsInRange(s[1]);
        Some([16 * high + low] + rest)
      case _ => None
  }

  lemma DigitsInRange(c: char)
    ensures DigitValue(c).Some? ==> DigitValue(c).value < 16 && !IsSpace(c)
  {
  }

  lemma DigitCharValue(d: nat)
    requires d < 16
    ensures DigitValue(DigitChar(d)) == Some(d) && !IsSpace(DigitChar(d))
  {
  }

  lemma ReadPair(b: byte, rest: seq<byte>, text: string)
    requires FromHex(text) == Some(rest)
    ensures FromHex([DigitChar(b / 16), DigitChar(b % 16)] + text) == Some([b] + rest)
  {
    var t := [DigitChar(b / 16), DigitChar(b % 16)] + text;
    DigitCharValue(b / 16);
    DigitCharValue(b % 16);
    assert t[2..] == text;
  }

  /** What hex writes, fromhex reads back. */
  lemma {:induction false} HexRoundTrip(s: seq<byte>)
    ensures FromHex(ToHex(s)) == Some(s)
  {
    if s != [] {
      HexRoundTrip(s[1..]);
      ReadPair(s[0], s[1..], ToHex(s[1..]));
      assert s == [s[0]] + s[1..];
    }
  }

  /** The digits are those of base 16, in either case. */
  lemma DigitsOfBaseSixteen(c: char, d: nat)
    ensures DigitValue(c) == Some(d)
            <==> d < 16 && (c == "0123456789abcdef"[d] || c == "0123456789ABCDEF"[d])
  {
  }

  /** Two characters that do not start with white space are one byte. */
  lemma FromHexPair(s: string)
    requires |s| >= 2 && !IsSpace(s[0])
    ensures FromHex(s).Some? <==> DigitValue(s[0]).Some? && DigitValue(s[1]).Some? && FromHex(s[2..]).Some?
    ensures FromHex(s).Some? ==>
              && DigitValue(s[0]).value < 16 && DigitValue(s[1]).value < 16
              && FromHex(s).value == [16 * DigitValue(s[0]).value + DigitValue(s[1]).value] + FromHex(s[2..]).value
  {
    DigitsInRange(s[0]);
    DigitsInRange(s[1]);
  }

  /** The same pair of digits before a longer text reads as the same byte. */
  lemma SamePair(s: string, a: string, y: seq<byte>)
    requires |s| >= 2 && |a| >= 2 && s[0] == a[0] && s[1] == a[1] && !IsSpace(a[0]) && FromHex(a).Some?
    ensures FromHex(a[2..]).Some? && (FromHex(s).Some? <==> FromHex(s[2..]).Some?)
    ensures FromHex(s[2..]) == Some(FromHex(a[2..]).value + y) ==> FromHex(s) == Some(FromHex(a).value + y)
  {
    FromHexPair(a);
    FromHexPair(s);
    if FromHex(s[2..]) == Some(FromHex(a[2..]).value + y) {
      var b := 16 * DigitValue(a[0]).value + DigitValue(a[1]).value;
      assert [b] + (FromHex(a[2..]).value + y) == [b] + FromHex(a[2..]).value + y;
    }
  }

  /** fromhex reads a text piece by piece. */
  lemma {:induction false} FromHexConcat(a: string, b: string)
    requires FromHex(a).Some?
    ensures FromHex(a + b).Some? <==> FromHex(b).Some?
    ensures FromHex(b).Some? ==> FromHex(a + b).value == FromHex(a).value + FromHex(b).value
  {
    if a == "" {
      assert a + b == b;
    } else if IsSpace(a[0]) {
      assert (a + b)[1..] == a[1..] + b;
      FromHexConcat(a[1..], b);
    } else {
      FromHexPair(a);
      FromHexConcat(a[2..], b);
      assert (a + b)[2..] == a[2..] + b;
      SamePair(a + b, a, if FromHex(b).Some? then FromHex(b).value else []);
    }
  }

  function LowerCase(c: char): char {
    if 'A' <= c <= 'F' then c - 'A' + 'a' else c
  }

  /** The ASCII characters from tab to carriage return, and the space. */
  predicate IsBlank(c: char) {
    9 <= c as nat <= 13 || c as nat == 32
  }

  lemma BlanksAreSpaces(c: char)
    ensures IsSpace(c) <==> IsBlank(c)
  {
  }

  /** The text without its white space, in lower case. */
  function Plain(s: string): string {
    if s == "" then ""
    else if IsBlank(s[0]) then Plain(s[1..])
    else [LowerCase(s[0])] + Plain(s[1..])
  }

  lemma PlainDigit(c: char, s: string)
    requires DigitValue(c).Some?
    ensures DigitValue(c).value < 16
    ensures Plain([c] + s) == [DigitChar(DigitValue(c).value)] + Plain(s)
  {
    LowerDigit(c);
    assert ([c] + s)[1..] == s;
  }

  lemma LowerDigit(c: char)
    requires DigitValue(c).Some?
    ensures !IsBlank(c) && DigitValue(c).value < 16 && DigitChar(DigitValue(c).value) == LowerCase(c)
  {
    DigitCharCode(DigitValue(c).value);
  }

  lemma DigitCharCode(d: nat)
    requires d < 16
    ensures DigitChar(d) == (if d < 10 then d as char + '0' else (d - 10) as char + 'a')
  {
  }

  lemma Nibbles(high: nat, low: nat)
    requires high < 16 && low < 16
    ensures (16 * high + low) / 16 == high && (16 * high + low) % 16 == low
  {
  }

  lemma ByteWritten(b: byte, high: nat, low: nat, rest: seq<byte>)
    requires high == b / 16 && low == b % 16
    ensures ToHex([b] + rest) == [DigitChar(high), DigitChar(low)] + ToHex(rest)
  {
    assert ([b] + rest)[1..] == rest;
  }

  /** What fromhex accepts is, but for white space and case, what hex writes. */
  lemma {:induction false} ReadsWhatHexWrites(s: string)
    requires FromHex(s).Some?
    ensures Plain(s) == ToHex(FromHex(s).value)
  {
    if s == "" {
    } else {
      BlanksAreSpaces(s[0]);
      if IsBlank(s[0]) {
        ReadsWhatHexWrites(s[1..]);
      } else {
        FromHexPair(s);
        ReadsWhatHexWrites(s[2..]);
        var high, low := DigitValue(s[0]).value, DigitValue(s[1]).value;
        PairPlain(s, high, low);
        Nibbles(high, low);
        ByteWritten(16 * high + low, high, low, FromHex(s[2..]).value);
      }
    }
  }

  lemma PairPlain(s: string, high: nat, low: nat)
    requires |s| >= 2 && DigitValue(s[0]) == Some(high) && DigitValue(s[1]) == Some(low) && high < 16 && low < 16
    ensures Plain(s) == [DigitChar(high), DigitChar(low)] + Plain(s[2..])
  {
    PlainDigit(s[1], s[2..]);
    PlainDigit(s[0], s[1..]);
    assert s == [s[0]] + s[1..] && s[1..] == [s[1]] + s[2..];
    Prefixed(DigitChar(high), DigitChar(low), Plain(s[2..]));
  }

  lemma Prefixed(c: char, d: char, s: string)
    ensures [c] + ([d] + s) == [c, d] + s
  {
  }

  lemma {:induction false} HexConcat(a: seq<byte>, b: seq<byte>)
    ensures ToHex(a + b) == ToHex(a) + ToHex(b)
  {
    if a == [] {
      assert a + b == b;
    } else {
      assert (a + b)[1..] == a[1..] + b;
      HexConcat(a[1..], b);
    }
  }
}
