/** Base-16 text of unsigned integers: std::to_chars, std::from_chars and zero padding. */
module Hex {
  import opened BitLists

  const ZERO: byte := 48

  function HexDigit(n: nat): (c: byte)
    requires n < 16
  {
    if n < 10 then 48 + n else 87 + n
  }

  /** The digits as they are written, and their upper-case forms, which are read, too. */
  const DIGITS: seq<byte> := [48, 49, 50, 51, 52, 53, 54, 55, 56, 57, 97, 98, 99, 100, 101, 102]
  const UPPER_CASE: seq<byte> := [48, 49, 50, 51, 52, 53, 54, 55, 56, 57, 65, 66, 67, 68, 69, 70]

  lemma DigitIsLowerCase(n: nat)
    requires n < 16
    ensures HexDigit(n) == DIGITS[n]
  {
  }

  /** A character is read as a digit exactly if it is one of these, and then as its place. */
  lemma DigitMeaning(c: byte)
    ensures DigitValue(c) < 16 <==> c in DIGITS || c in UPPER_CASE
    ensures forall v | 0 <= v < 16 :: DigitValue(c) == v <==> c == DIGITS[v] || c == UPPER_CASE[v]
  {
    forall v | 0 <= v < 16
      ensures DigitValue(c) == v <==> c == DIGITS[v] || c == UPPER_CASE[v]
    {
      PlaceOfDigit(v);
    }
    if DigitValue(c) < 16 {
      assert c == DIGITS[DigitValue(c)] || c == UPPER_CASE[DigitValue(c)];
    }
  }

  lemma PlaceOfDigit(v: nat)
    requires v < 16
    ensures DIGITS[v] == (if v < 10 then 48 + v else 87 + v) && UPPER_CASE[v] == (if v < 10 then 48 + v else 55 + v)
  {
  }

  /** std::to_chars(value, 16): lower-case digits without leading zeros. */
  function HexText(n: nat): (t: seq<byte>)
    ensures |t| > 0
  {
    if n < 16 then [HexDigit(n)] else HexText(n / 16) + [HexDigit(n % 16)]
  }

  function Repeat(c: byte, n: nat): (t: seq<byte>)
    ensures |t| == n
  {
    seq(n, _ => c)
  }

  /** The text written for a value and a minimum width. */
  function PaddedHex(n: nat, width: nat): (t: seq<byte>)
    ensures |t| >= width
  {
    var t := HexText(n);
    if |t| < width then Repeat(ZERO, width - |t|) + t else t
  }

  /** The value of a digit as std::from_chars reads it, or 16. */
  function DigitValue(c: byte): (v: nat)
    ensures v <= 16
  {
    if 48 <= c <= 57 then c - 48
    else if 97 <= c <= 102 then c - 87
    else if 65 <= c <= 70 then c - 55
    else 16
  }

  datatype Parsed = NoDigits | Overflow | Value(value: nat)

  /** The number of leading characters that are digits. */
  function DigitCount(t: seq<byte>): (n: nat)
    ensures n <= |t|
    ensures forall i | 0 <= i < n :: DigitValue(t[i]) < 16
    ensures n < |t| ==> DigitValue(t[n]) == 16
  {
    if t == [] || DigitValue(t[0]) == 16 then 0 else 1 + DigitCount(t[1..])
  }

  function DigitsValue(t: seq<byte>): (v: nat)
    requires forall i | 0 <= i < |t| :: DigitValue(t[i]) < 16
  {
    if t == [] then 0 else 16 * DigitsValue(t[..|t| - 1]) + DigitValue(t[|t| - 1])
  }

  /** std::from_chars into a uint32_t: the longest run of digits, if there is one. */
  function ParseHex(t: seq<byte>): Parsed {
    var n := DigitCount(t);
    if n == 0 then NoDigits
    else
      var v := DigitsValue(t[..n]);
      if v < 0x1_0000_0000 then Value(v) else Overflow
  }

  lemma DigitRoundTrip(n: nat)
    requires n < 16
    ensures DigitValue(HexDigit(n)) == n
  {
  }

  predicate AllDigits(t: seq<byte>) {
    forall i | 0 <= i < |t| :: DigitValue(t[i]) < 16
  }

  lemma {:induction false} HexTextValue(n: nat)
    ensures AllDigits(HexText(n)) && DigitsValue(HexText(n)) == n
  {
    if n < 16 {
      DigitRoundTrip(n);
      assert [HexDigit(n)][..0] == [];
    } else {
      HexTextValue(n / 16);
      DigitRoundTrip(n % 16);
      var t := HexText(n);
      assert t[..|t| - 1] == HexText(n / 16);
    }
  }

  /** A number is written without leading zeros. */
  lemma {:induction false} NoLeadingZero(n: nat)
    ensures n > 0 ==> HexText(n)[0] != ZERO
    ensures n == 0 ==> HexText(n) == [ZERO]
  {
    if n >= 16 {
      NoLeadingZero(n / 16);
    }
  }

  /** A run of digits is below the power of 16 with as many zeros. */
  lemma {:induction false} DigitsBound(t: seq<byte>)
    requires AllDigits(t)
    ensures DigitsValue(t) < Pow16(|t|)
  {
    if t != [] {
      DigitsBound(t[..|t| - 1]);
    }
  }

  /** Eight characters are read as the number of the digits that they begin with, if they begin with
      one; it always fits. */
  lemma EightCharacters(t: seq<byte>, v: nat)
    requires |t| == 8
    ensures ParseHex(t) == Value(v) <==>
            exists n :: 0 < n <= 8 && AllDigits(t[..n]) && (n < 8 ==> DigitValue(t[n]) == 16) && DigitsValue(t[..n]) == v
  {
    hide DigitsValue;
    var m := DigitCount(t);
    DigitsBound(t[..m]);
    SixteenToTheEighth();
    PowersGrow(m, 8);
    forall n | 0 < n <= 8 && AllDigits(t[..n]) && (n < 8 ==> DigitValue(t[n]) == 16)
      ensures n == m
    {
      CountIs(t, n);
    }
  }

  lemma CountIs(t: seq<byte>, n: nat)
    requires n <= |t| && AllDigits(t[..n]) && (n < |t| ==> DigitValue(t[n]) == 16)
    ensures DigitCount(t) == n
  {
    hide DigitValue;
    assert forall i | 0 <= i < n :: t[..n][i] == t[i];
  }

  lemma {:induction false} PowersGrow(m: nat, n: nat)
    requires m <= n
    ensures Pow16(m) <= Pow16(n)
    decreases n - m
  {
    if m < n {
      PowersGrow(m, n - 1);
    }
  }

  function Pow16(k: nat): (r: nat)
    ensures r > 0
  {
    if k == 0 then 1 else 16 * Pow16(k - 1)
  }

  lemma {:induction false} HexTextLength(n: nat, k: nat)
    requires k > 0 && n < Pow16(k)
    ensures |HexText(n)| <= k
  {
    if n >= 16 {
      assert k > 1 by { assert Pow16(1) == 16; }
      HexTextLength(n / 16, k - 1);
    }
  }

  lemma {:induction false} PaddingValue(t: seq<byte>, n: nat)
    requires AllDigits(t)
    ensures AllDigits(Repeat(ZERO, n) + t) && DigitsValue(Repeat(ZERO, n) + t) == DigitsValue(t)
    decreases n + |t|
  {
    var s := Repeat(ZERO, n) + t;
    if t != [] {
      PaddingValue(t[..|t| - 1], n);
      assert s[..|s| - 1] == Repeat(ZERO, n) + t[..|t| - 1];
    } else if n > 0 {
      PaddingValue([], n - 1);
      assert s[..|s| - 1] == Repeat(ZERO, n - 1) + [];
    }
  }

  lemma {:induction false} AllDigitsCount(t: seq<byte>)
    requires AllDigits(t)
    ensures DigitCount(t) == |t|
  {
    if t != [] {
      assert AllDigits(t[1..]);
      AllDigitsCount(t[1..]);
    }
  }

  lemma SixteenToTheEighth()
    ensures Pow16(8) == 0x1_0000_0000
  {
    assert Pow16(4) == 0x1_0000;
  }

  /** Reading back what was written for a uint32_t with width 8. */
  lemma HexRoundTrip(n: nat)
    requires n < 0x1_0000_0000
    ensures |PaddedHex(n, 8)| == 8 && AllDigits(PaddedHex(n, 8))
    ensures ParseHex(PaddedHex(n, 8)) == Value(n)
  {
    hide HexText, DigitsValue, DigitCount, DigitValue;
    SixteenToTheEighth();
    HexTextLength(n, 8);
    HexTextValue(n);
    var t := HexText(n);
    PaddingValue(t, 8 - |t|);
    assert Repeat(ZERO, 0) + t == t;
    var p := PaddedHex(n, 8);
    AllDigitsCount(p);
    assert p[..8] == p;
  }
}
