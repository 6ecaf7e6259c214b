/**
 * String helpers the line assembler relies on, written to match the
 * JavaScript built-ins it calls: `String.prototype.trim`, `Array.prototype.join`,
 * `String.prototype.padStart` and `Number.prototype.toString` (radix 10).
 */
module Strings {

  /** The code points `String.prototype.trim` strips: ECMAScript WhiteSpace
      (TAB, VT, FF, SPACE, NBSP, ZWNBSP and the Zs category) and LineTerminator
      (LF, CR, LS, PS). */
  predicate IsJsSpace(c: char) {
    || c == '\t' || c == '\U{000B}' || c == '\U{000C}' || c == ' '
    || c == '\U{00A0}' || c == '\U{FEFF}' || c == '\U{1680}'
    || ('\U{2000}' <= c <= '\U{200A}')
    || c == '\U{202F}' || c == '\U{205F}' || c == '\U{3000}'
    || c == '\n' || c == '\r' || c == '\U{2028}' || c == '\U{2029}'
  }

  /** `String.prototype.trim`: strips whitespace at both ends. */
  function Trim(s: string): (r: string)
    ensures |r| <= |s|
    decreases |s|
  {
    if |s| > 0 && IsJsSpace(s[0]) then Trim(s[1..])
    else if |s| > 0 && IsJsSpace(s[|s| - 1]) then Trim(s[..|s| - 1])
    else s
  }

  /** The number of whitespace characters `s` starts with. */
  function LeadingSpaces(s: string): (n: nat)
    ensures n <= |s|
  {
    if |s| > 0 && IsJsSpace(s[0]) then 1 + LeadingSpaces(s[1..]) else 0
  }

  /** What `Trim` computes: the infix of `s` that starts after its leading
      whitespace and stops before its trailing whitespace, so that it
      neither starts nor ends with whitespace itself. */
  predicate TrimmedFrom(s: string, i: nat, r: string) {
    && i + |r| <= |s| && r == s[i..i + |r|]
    && (forall k :: 0 <= k < i ==> IsJsSpace(s[k]))
    && (forall k :: i + |r| <= k < |s| ==> IsJsSpace(s[k]))
    && (r == [] || (!IsJsSpace(r[0]) && !IsJsSpace(r[|r| - 1])))
  }

  lemma {:induction false} TrimSpec(s: string)
    ensures TrimmedFrom(s, LeadingSpaces(s), Trim(s))
    decreases |s|
  {
    if |s| > 0 && IsJsSpace(s[0]) {
      TrimSpec(s[1..]);
      TrimSpecLeading(s);
    } else if |s| > 0 && IsJsSpace(s[|s| - 1]) {
      TrimSpec(s[..|s| - 1]);
      TrimSpecTrailing(s);
    } else {
      assert s[0..|s|] == s;
    }
  }

  lemma TrimSpecLeading(s: string)
    requires |s| > 0 && IsJsSpace(s[0])
    requires TrimmedFrom(s[1..], LeadingSpaces(s[1..]), Trim(s[1..]))
    ensures TrimmedFrom(s, LeadingSpaces(s), Trim(s))
  {
    var t := s[1..];
    assert Trim(s) == Trim(t);
    assert LeadingSpaces(s) == LeadingSpaces(t) + 1;
    ShiftTrimmed(s, LeadingSpaces(t), Trim(t));
  }

  /** A whitespace character in front moves the trimmed infix one place on. */
  lemma ShiftTrimmed(s: string, i: nat, r: string)
    requires |s| > 0 && IsJsSpace(s[0]) && TrimmedFrom(s[1..], i, r)
    ensures TrimmedFrom(s, i + 1, r)
  {
    var t := s[1..];
    SliceOfTail(s, i, |r|);
    forall k | 0 < k < i + 1
      ensures IsJsSpace(s[k])
    {
      assert s[k] == t[k - 1];
    }
    forall k | i + 1 + |r| <= k < |s|
      ensures IsJsSpace(s[k])
    {
      assert s[k] == t[k - 1];
    }
  }

  lemma SliceOfTail<T>(s: seq<T>, i: nat, n: nat)
    requires 0 < |s| && i + n <= |s| - 1
    ensures s[1..][i..i + n] == s[i + 1..i + 1 + n]
  {
  }

  lemma TrimSpecTrailing(s: string)
    requires |s| > 0 && !IsJsSpace(s[0]) && IsJsSpace(s[|s| - 1])
    requires TrimmedFrom(s[..|s| - 1], LeadingSpaces(s[..|s| - 1]), Trim(s[..|s| - 1]))
    ensures TrimmedFrom(s, LeadingSpaces(s), Trim(s))
  {
    var t := s[..|s| - 1];
    assert t[0] == s[0];
    assert LeadingSpaces(t) == 0 == LeadingSpaces(s);
    assert Trim(s) == Trim(t);
    ExtendTrimmed(s, Trim(t));
  }

  /** A whitespace character at the end joins the trailing run. */
  lemma ExtendTrimmed(s: string, r: string)
    requires |s| > 0 && IsJsSpace(s[|s| - 1]) && TrimmedFrom(s[..|s| - 1], 0, r)
    ensures TrimmedFrom(s, 0, r)
  {
    var t := s[..|s| - 1];
    assert r == t[..|r|] == s[..|r|];
    forall k | |r| <= k < |s|
      ensures IsJsSpace(s[k])
    {
      if k < |s| - 1 {
        assert s[k] == t[k];
      }
    }
  }

  /** A string with no whitespace at either end is its own trim. */
  lemma TrimOfClean(s: string)
    requires s == [] || (!IsJsSpace(s[0]) && !IsJsSpace(s[|s| - 1]))
    ensures Trim(s) == s
  {
  }

  /** Trimming twice is trimming once. */
  lemma TrimIdempotent(s: string)
    ensures Trim(Trim(s)) == Trim(s)
  {
    TrimSpec(s);
    TrimOfClean(Trim(s));
  }

  /** `Array.prototype.join(sep)` on an array of strings. */
  function Join(parts: seq<string>, sep: string): (r: string)
    ensures |parts| == 0 ==> r == []
    ensures |parts| > 0 ==> |r| == TotalLength(parts) + (|parts| - 1) * |sep|
  {
    if |parts| == 0 then []
    else if |parts| == 1 then parts[0]
    else parts[0] + sep + Join(parts[1..], sep)
  }

  function TotalLength(parts: seq<string>): nat {
    if |parts| == 0 then 0 else |parts[0]| + TotalLength(parts[1..])
  }

  /** Non-empty, with no whitespace at either end: what `trim` leaves alone. */
  predicate Clean(s: string) {
    s != [] && !IsJsSpace(s[0]) && !IsJsSpace(s[|s| - 1])
  }

  /** Joining non-empty parts starts with the first part's first character
      and ends with the last part's last character. */
  lemma {:induction false} JoinEnds(parts: seq<string>, sep: string)
    requires |parts| > 0 && forall i :: 0 <= i < |parts| ==> |parts[i]| > 0
    ensures var r := Join(parts, sep); var l := parts[|parts| - 1];
      |r| > 0 && r[0] == parts[0][0] && r[|r| - 1] == l[|l| - 1]
    decreases |parts|
  {
    if |parts| > 1 {
      JoinEnds(parts[1..], sep);
      assert parts[1..][|parts| - 2] == parts[|parts| - 1];
      var rest := Join(parts[1..], sep);
      assert Join(parts, sep) == parts[0] + (sep + rest);
    }
  }

  /** Joining parts that `trim` leaves alone gives a string `trim` leaves
      alone, whatever the separator. */
  lemma JoinOfClean(parts: seq<string>, sep: string)
    requires |parts| > 0 && forall i :: 0 <= i < |parts| ==> Clean(parts[i])
    ensures Clean(Join(parts, sep)) && Trim(Join(parts, sep)) == Join(parts, sep)
  {
    JoinEnds(parts, sep);
    TrimOfClean(Join(parts, sep));
  }

  /** `String.prototype.padStart(width, [fill])`: left-pads with `fill`
      up to `width` characters and leaves longer strings alone. */
  function PadStart(s: string, width: nat, fill: char): (r: string)
    ensures |r| == if |s| >= width then |s| else width
    decreases width - |s|
  {
    if |s| >= width then s else PadStart([fill] + s, width, fill)
  }

  /** Padding only prepends: the string ends with `s` and everything before
      it is the fill character. */
  lemma {:induction false} PadStartSpec(s: string, width: nat, fill: char)
    ensures var r := PadStart(s, width, fill);
      && r[|r| - |s|..] == s
      && forall i :: 0 <= i < |r| - |s| ==> r[i] == fill
    decreases width - |s|
  {
    if |s| < width {
      var t := [fill] + s;
      PadStartSpec(t, width, fill);
      var r := PadStart(s, width, fill);
      assert r[|r| - |t|..] == t;
      assert r[|r| - |s|..] == t[1..];
    }
  }

  /* ---------------------------- decimal numerals ---------------------------- */

  predicate IsAsciiDigit(c: char) {
    '0' <= c <= '9'
  }

  predicate AllDigits(s: string) {
    forall i :: 0 <= i < |s| ==> IsAsciiDigit(s[i])
  }

  function DigitChar(d: nat): (c: char)
    requires d < 10
    ensures IsAsciiDigit(c) && c as int - '0' as int == d
  {
    ('0' as int + d) as char
  }

  /** `Number.prototype.toString()` for a non-negative integer. */
  function NatToString(n: nat): (r: string)
    ensures |r| > 0 && AllDigits(r)
    ensures r[0] == '0' ==> n == 0
  {
    if n < 10 then [DigitChar(n)] else NatToString(n / 10) + [DigitChar(n % 10)]
  }

  /** Numbers below 1000 have at most three decimal digits. */
  lemma ShortNatToString(n: nat)
    requires n < 1000
    ensures |NatToString(n)| <= 3
  {
    if n >= 10 {
      var m := n / 10;
      assert |NatToString(n)| == |NatToString(m)| + 1;
      if m >= 10 {
        assert m / 10 < 10;
        assert |NatToString(m)| == |NatToString(m / 10)| + 1;
      }
    }
  }

  /** `Number.prototype.toString()` for any integer: a minus sign, then the digits. */
  function IntToString(n: int): (r: string)
    ensures |r| > 0
    ensures n >= 0 ==> r == NatToString(n)
    ensures n < 0 ==> r == "-" + NatToString(-n)
  {
    if n < 0 then "-" + NatToString(-n) else NatToString(n)
  }

  /** The value a string of ASCII digits denotes (leading zeros allowed). */
  function ParseDecimal(s: string): nat
    requires AllDigits(s)
  {
    if |s| == 0 then 0
    else ParseDecimal(s[..|s| - 1]) * 10 + (s[|s| - 1] as int - '0' as int)
  }

  /** Reading back the decimal rendering of `n` gives `n`. */
  lemma {:induction false} ParseNatToString(n: nat)
    ensures ParseDecimal(NatToString(n)) == n
  {
    var r := NatToString(n);
    if n >= 10 {
      assert r[..|r| - 1] == NatToString(n / 10);
      ParseNatToString(n / 10);
    }
  }

  /** A leading zero does not change the value of a digit string. */
  lemma {:induction false} ParseIgnoresLeadingZero(s: string)
    requires AllDigits(s)
    ensures AllDigits(['0'] + s) && ParseDecimal(['0'] + s) == ParseDecimal(s)
    decreases |s|
  {
    if |s| > 0 {
      assert (['0'] + s)[..|s|] == ['0'] + s[..|s| - 1];
      ParseIgnoresLeadingZero(s[..|s| - 1]);
    }
  }

  /** Zero-padding a decimal rendering keeps the value it denotes:
      `padStart(3, "0")` on a surah number still reads back as that number. */
  lemma {:induction false} PaddedNumberDenotes(n: nat, width: nat)
    ensures AllDigits(PadStart(NatToString(n), width, '0'))
    ensures ParseDecimal(PadStart(NatToString(n), width, '0')) == n
  {
    ParseNatToString(n);
    PadKeepsValue(NatToString(n), width);
  }

  lemma {:induction false} PadKeepsValue(s: string, width: nat)
    requires AllDigits(s)
    ensures AllDigits(PadStart(s, width, '0'))
    ensures ParseDecimal(PadStart(s, width, '0')) == ParseDecimal(s)
    decreases width - |s|
  {
    if |s| < width {
      ParseIgnoresLeadingZero(s);
      PadKeepsValue(['0'] + s, width);
    }
  }
}
