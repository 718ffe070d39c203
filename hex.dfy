/**
 * Block numbers on the wire (convertDecimalToHex in
 * packages/parser/serviceparser.go): "0x" followed by the lowercase
 * hexadecimal digits of the number, as Go's "%x" verb prints an int. A
 * negative number prints as "-" and the digits of its magnitude.
 *
 * The partner is ParseQuantity, a reader of exactly these strings; the
 * lemmas show the two are inverse to each other in both directions, so the
 * encoding is injective and canonical.
 */
module Hex {
  import opened Types

  const Digits: string := "0123456789abcdef"

  function HexDigit(d: nat): (c: char)
    requires d < 16
    ensures c in Digits
  {
    Digits[d]
  }

  /** The minimal-length digit string of n, most significant digit first. */
  function HexDigits(n: nat): (s: string)
    ensures |s| >= 1
    decreases n
  {
    if n < 16 then [HexDigit(n)] else HexDigits(n / 16) + [HexDigit(n % 16)]
  }

  /** convertDecimalToHex. */
  function ConvertDecimalToHex(num: int): (s: string)
    ensures |s| >= 3 && s[..2] == "0x"
  {
    "0x" + (if num < 0 then "-" + HexDigits(-num) else HexDigits(num))
  }

  // ---------------------------------------------------------------------
  // The reader

  function DigitValue(c: char): Option<nat> {
    if '0' <= c <= '9' then Some(c as int - '0' as int)
    else if 'a' <= c <= 'f' then Some(c as int - 'a' as int + 10)
    else None
  }

  /** The value of a nonempty string of lowercase hex digits. */
  function ParseDigits(s: string): Option<nat>
    decreases |s|
  {
    if |s| == 0 then None
    else if |s| == 1 then DigitValue(s[0])
    else
      match (ParseDigits(s[..|s| - 1]), DigitValue(s[|s| - 1]))
      case (Some(high), Some(low)) => Some(high * 16 + low)
      case _ => None
  }

  /** A digit string with no leading zero, the lone "0" aside. */
  function ParseMinimal(s: string): Option<nat> {
    if |s| > 1 && s[0] == '0' then None else ParseDigits(s)
  }

  /** The quantity a "0x"-prefixed string denotes, if it is in the form
      ConvertDecimalToHex produces. */
  function ParseQuantity(s: string): Option<int> {
    if |s| < 3 || s[..2] != "0x" then None
    else if s[2] == '-' then
      match ParseMinimal(s[3..])
      case Some(v) => if v == 0 then None else Some(-(v as int))
      case None => None
    else
      match ParseMinimal(s[2..])
      case Some(v) => Some(v)
      case None => None
  }

  // ---------------------------------------------------------------------
  // Round trips

  lemma DigitRoundTrip(d: nat)
    requires d < 16
    ensures DigitValue(HexDigit(d)) == Some(d)
  {
  }

  lemma DigitValueInverse(c: char)
    requires DigitValue(c).Some?
    ensures DigitValue(c).value < 16 && HexDigit(DigitValue(c).value) == c
  {
  }

  lemma {:induction false} DigitsRoundTrip(n: nat)
    ensures ParseDigits(HexDigits(n)) == Some(n)
    decreases n
  {
    if n < 16 {
      DigitRoundTrip(n);
    } else {
      var s := HexDigits(n);
      DigitsRoundTrip(n / 16);
      DigitRoundTrip(n % 16);
      assert s[..|s| - 1] == HexDigits(n / 16);
    }
  }

  /** Every digit is a lowercase hex digit and, past a lone "0", the first
      one is not zero. */
  lemma {:induction false} HexDigitsCanonical(n: nat)
    ensures forall i :: 0 <= i < |HexDigits(n)| ==> HexDigits(n)[i] in Digits
    ensures n > 0 ==> HexDigits(n)[0] != '0'
    decreases n
  {
    if n >= 16 {
      HexDigitsCanonical(n / 16);
      var s := HexDigits(n);
      assert forall i :: 0 <= i < |s| - 1 ==> s[i] == HexDigits(n / 16)[i];
    }
  }

  function Pow16(k: nat): nat {
    if k == 0 then 1 else 16 * Pow16(k - 1)
  }

  /** One more digit: a bound on n / 16 by powers k - 1 and k becomes a
      bound on n by powers k and k + 1. */
  lemma LengthStep(n: nat, k: nat, m: nat)
    requires 1 <= k && m == k + 1
    requires Pow16(k - 1) <= n / 16 < Pow16(k)
    ensures Pow16(m - 1) <= n < Pow16(m)
  {
    var low, high := Pow16(k - 1), Pow16(k);
    assert high == 16 * low;
    assert Pow16(m) == 16 * high;
    ScaleBounds(n, low, high);
  }

  /** A bound on n / 16 scaled back up to a bound on n. */
  lemma ScaleBounds(n: nat, low: nat, high: nat)
    requires low <= n / 16 < high
    ensures 16 * low <= n < 16 * high
  {
  }

  /** Minimality: a positive n takes exactly as many digits as it needs. */
  lemma {:induction false} HexDigitsLength(n: nat)
    requires n > 0
    ensures Pow16(|HexDigits(n)| - 1) <= n < Pow16(|HexDigits(n)|)
    decreases n
  {
    if n >= 16 {
      var q := n / 16;
      HexDigitsLength(q);
      assert HexDigits(n) == HexDigits(q) + [HexDigit(n % 16)];
      LengthStep(n, |HexDigits(q)|, |HexDigits(n)|);
    } else {
      assert |HexDigits(n)| == 1;
      assert Pow16(1) == 16 * Pow16(0);
    }
  }

  lemma {:induction false} MinimalDigitsUnique(s: string, v: nat)
    requires ParseMinimal(s) == Some(v)
    ensures HexDigits(v) == s
    decreases |s|
  {
    if |s| == 1 {
      DigitValueInverse(s[0]);
    } else {
      var high := s[..|s| - 1];
      var h := ParseDigits(high).value;
      var l := DigitValue(s[|s| - 1]).value;
      DigitValueInverse(s[|s| - 1]);
      assert ParseMinimal(high) == Some(h) by {
        assert high[0] == s[0];
      }
      MinimalDigitsUnique(high, h);
      if h == 0 {
        assert false;
      }
      assert v / 16 == h && v % 16 == l;
      assert s == high + [s[|s| - 1]];
    }
  }

  lemma MinimalRoundTrip(n: nat)
    ensures ParseMinimal(HexDigits(n)) == Some(n)
  {
    DigitsRoundTrip(n);
    HexDigitsCanonical(n);
    if n == 0 {
      assert HexDigits(n) == "0";
    }
  }

  /** Reading back what convertDecimalToHex wrote gives the number. */
  lemma QuantityRoundTrip(num: int)
    ensures ParseQuantity(ConvertDecimalToHex(num)) == Some(num)
  {
    if num < 0 {
      NegativeRoundTrip(num);
    } else {
      NonNegativeRoundTrip(num);
    }
  }

  lemma NegativeRoundTrip(num: int)
    requires num < 0
    ensures ParseQuantity(ConvertDecimalToHex(num)) == Some(num)
  {
    var s := ConvertDecimalToHex(num);
    var d := HexDigits(-num);
    assert s[2] == '-' && s[3..] == d by {
      assert s == "0x-" + d;
    }
    assert ParseMinimal(d) == Some(-num) by {
      MinimalRoundTrip(-num);
    }
  }

  lemma NonNegativeRoundTrip(num: int)
    requires num >= 0
    ensures ParseQuantity(ConvertDecimalToHex(num)) == Some(num)
  {
    var s := ConvertDecimalToHex(num);
    var d := HexDigits(num);
    assert s[2] == d[0] && s[2..] == d by {
      assert s == "0x" + d;
    }
    assert d[0] != '-' by {
      HexDigitsCanonical(num);
      assert d[0] in Digits;
    }
    assert ParseMinimal(d) == Some(num) by {
      MinimalRoundTrip(num);
    }
  }

  /** Every string the reader accepts is the encoding of its value. */
  lemma QuantityCanonical(s: string, num: int)
    requires ParseQuantity(s) == Some(num)
    ensures ConvertDecimalToHex(num) == s
  {
    if s[2] == '-' {
      NegativeCanonical(s, num);
    } else {
      NonNegativeCanonical(s, num);
    }
  }

  lemma NegativeCanonical(s: string, num: int)
    requires ParseQuantity(s) == Some(num) && s[2] == '-'
    ensures ConvertDecimalToHex(num) == s
  {
    var d := s[3..];
    assert ParseMinimal(d) == Some(-num) && num < 0;
    MinimalDigitsUnique(d, -num);
    assert s == "0x" + "-" + d by {
      assert s[..2] == "0x";
    }
  }

  lemma NonNegativeCanonical(s: string, num: int)
    requires ParseQuantity(s) == Some(num) && s[2] != '-'
    ensures ConvertDecimalToHex(num) == s
  {
    var d := s[2..];
    assert ParseMinimal(d) == Some(num) && num >= 0;
    MinimalDigitsUnique(d, num);
    assert s == "0x" + d by {
      assert s[..2] == "0x";
    }
  }

  /** Distinct block numbers are rendered as distinct strings. */
  lemma ConvertInjective(a: int, b: int)
    requires ConvertDecimalToHex(a) == ConvertDecimalToHex(b)
    ensures a == b
  {
    QuantityRoundTrip(a);
    QuantityRoundTrip(b);
  }

  /** The bounds of the request the tests build. */
  lemma ConvertExamples()
    ensures ConvertDecimalToHex(100) == "0x64"
    ensures ConvertDecimalToHex(200) == "0xc8"
    ensures ConvertDecimalToHex(0) == "0x0"
  {
    assert HexDigits(100) == HexDigits(6) + [HexDigit(4)];
    assert HexDigits(200) == HexDigits(12) + [HexDigit(8)];
  }
}
