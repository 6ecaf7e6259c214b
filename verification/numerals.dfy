/**
 * `ArabicService.latinToArabicNumbers`: every ASCII digit of the decimal
 * rendering becomes the Arabic-Indic digit of the same value
 * (U+0660 .. U+0669); every other character is copied.
 */
module Numerals {
  import opened Strings

  const ArabicZero: int := 0x0660

  predicate IsArabicIndicDigit(c: char) {
    '\U{0660}' <= c <= '\U{0669}'
  }

  /** The Arabic-Indic digit with the value of ASCII digit `c`. */
  function ArabicDigitFor(c: char): (a: char)
    requires IsAsciiDigit(c)
    ensures IsArabicIndicDigit(a)
    ensures a as int - ArabicZero == c as int - '0' as int
  {
    (ArabicZero + (c as int - '0' as int)) as char
  }

  /** The ASCII digit with the value of Arabic-Indic digit `a`. */
  function LatinDigitFor(a: char): (c: char)
    requires IsArabicIndicDigit(a)
    ensures IsAsciiDigit(c)
    ensures c as int - '0' as int == a as int - ArabicZero
  {
    ('0' as int + (a as int - ArabicZero)) as char
  }

  /** Character-by-character transliteration of ASCII digits. */
  function LatinToArabicNumbers(s: string): (r: string)
    ensures |r| == |s|
  {
    if |s| == 0 then []
    else [if IsAsciiDigit(s[0]) then ArabicDigitFor(s[0]) else s[0]] + LatinToArabicNumbers(s[1..])
  }

  /** Each ASCII digit becomes the Arabic-Indic digit of the same value and
      every other character is copied, position by position. */
  lemma {:induction false} LatinToArabicSpec(s: string)
    ensures var r := LatinToArabicNumbers(s);
      && (forall i :: 0 <= i < |s| && IsAsciiDigit(s[i]) ==> r[i] == ArabicDigitFor(s[i]))
      && (forall i :: 0 <= i < |s| && !IsAsciiDigit(s[i]) ==> r[i] == s[i])
    decreases |s|
  {
    if |s| > 0 {
      var r := LatinToArabicNumbers(s);
      LatinToArabicSpec(s[1..]);
      assert forall i :: 1 <= i < |s| ==> r[i] == LatinToArabicNumbers(s[1..])[i - 1] && s[i] == s[1..][i - 1];
    }
  }

  /** The reverse transliteration, Arabic-Indic digits back to ASCII. */
  function ArabicToLatinNumbers(s: string): (r: string)
    ensures |r| == |s|
  {
    if |s| == 0 then []
    else [if IsArabicIndicDigit(s[0]) then LatinDigitFor(s[0]) else s[0]] + ArabicToLatinNumbers(s[1..])
  }

  /** Each Arabic-Indic digit becomes the ASCII digit of the same value and
      every other character is copied, position by position. */
  lemma {:induction false} ArabicToLatinSpec(s: string)
    ensures var r := ArabicToLatinNumbers(s);
      && (forall i :: 0 <= i < |s| && IsArabicIndicDigit(s[i]) ==> r[i] == LatinDigitFor(s[i]))
      && (forall i :: 0 <= i < |s| && !IsArabicIndicDigit(s[i]) ==> r[i] == s[i])
    decreases |s|
  {
    if |s| > 0 {
      var r := ArabicToLatinNumbers(s);
      ArabicToLatinSpec(s[1..]);
      assert forall i :: 1 <= i < |s| ==> r[i] == ArabicToLatinNumbers(s[1..])[i - 1] && s[i] == s[1..][i - 1];
    }
  }

  predicate NoArabicIndicDigits(s: string) {
    forall i :: 0 <= i < |s| ==> !IsArabicIndicDigit(s[i])
  }

  /** Transliteration loses nothing: on a string that holds no Arabic-Indic
      digit to begin with, the reverse transliteration restores it. */
  lemma RoundTrip(s: string)
    requires NoArabicIndicDigits(s)
    ensures ArabicToLatinNumbers(LatinToArabicNumbers(s)) == s
  {
    var r := LatinToArabicNumbers(s);
    var back := ArabicToLatinNumbers(r);
    LatinToArabicSpec(s);
    ArabicToLatinSpec(r);
    forall i | 0 <= i < |s|
      ensures back[i] == s[i]
    {
      if IsAsciiDigit(s[i]) {
        assert IsArabicIndicDigit(r[i]);
      } else {
        assert r[i] == s[i];
      }
    }
  }

  /** The Arabic numeral string of a verse number (`toString()` then transliterate). */
  function VerseNumeral(n: int): (r: string)
    ensures |r| == |IntToString(n)|
  {
    LatinToArabicNumbers(IntToString(n))
  }

  /** A non-negative verse number renders as Arabic-Indic digits only,
      never whitespace, and reads back as the number itself. */
  lemma {:induction false} VerseNumeralDenotes(n: nat)
    ensures |VerseNumeral(n)| > 0
    ensures forall i :: 0 <= i < |VerseNumeral(n)| ==> IsArabicIndicDigit(VerseNumeral(n)[i])
    ensures forall i :: 0 <= i < |VerseNumeral(n)| ==> !IsJsSpace(VerseNumeral(n)[i])
    ensures AllDigits(ArabicToLatinNumbers(VerseNumeral(n)))
    ensures ParseDecimal(ArabicToLatinNumbers(VerseNumeral(n))) == n
  {
    var d := NatToString(n);
    VerseNumeralDigits(n);
    assert NoArabicIndicDigits(d) by {
      forall i | 0 <= i < |d|
        ensures !IsArabicIndicDigit(d[i])
      {
        assert IsAsciiDigit(d[i]);
      }
    }
    RoundTrip(d);
    ParseNatToString(n);
  }

  /** The numeral of a non-negative number is the transliterated decimal
      rendering, made of Arabic-Indic digits only (so no whitespace). */
  lemma VerseNumeralDigits(n: nat)
    ensures VerseNumeral(n) == LatinToArabicNumbers(NatToString(n))
    ensures forall i :: 0 <= i < |VerseNumeral(n)| ==> IsArabicIndicDigit(VerseNumeral(n)[i])
    ensures forall i :: 0 <= i < |VerseNumeral(n)| ==> !IsJsSpace(VerseNumeral(n)[i])
  {
    var d := NatToString(n);
    var r := LatinToArabicNumbers(d);
    LatinToArabicSpec(d);
    assert forall i :: 0 <= i < |r| ==> IsAsciiDigit(d[i]) && r[i] == ArabicDigitFor(d[i]);
  }
}
