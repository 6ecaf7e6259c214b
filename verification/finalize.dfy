/**
 * The final transformation of `generateLines`: every bucket becomes one
 * numbered line record. A bucket that starts with a header or basmala
 * becomes that record; a bucket of words becomes a text line built by
 * `buildTextLinePayload`; an empty bucket is dropped.
 */
module Finalize {
  import opened Strings
  import opened Layout
  import opened Placement
  import opened Corrections

  /* ----------------------------- text payload ----------------------------- */

  function WordTexts(words: seq<WordItem>): (texts: seq<string>)
    ensures |texts| == |words|
    ensures forall i :: 0 <= i < |words| ==> texts[i] == words[i].word
  {
    seq(|words|, i requires 0 <= i < |words| => words[i].word)
  }

  /** The four fields of a word kept in a text line's `words`. */
  function OutWordOf(w: WordItem): OutWord {
    OutWord(w.location, w.word, w.qpcV2, w.qpcV1)
  }

  /** `${start.surah}:${start.verse}-${end.surah}:${end.verse}`. */
  function VerseRangeText(start: WordItem, end: WordItem): string {
    IntToString(start.surah) + ":" + IntToString(start.verse) + "-" + IntToString(end.surah) + ":" + IntToString(end.verse)
  }

  /** `buildTextLinePayload`: `null` for no words; otherwise the words'
      texts space-joined and trimmed, the verse range from the first to the
      last word, and each word's four output fields, in order. */
  function BuildTextLinePayload(words: seq<WordItem>): (r: Option<TextPayload>)
    ensures r.None? <==> |words| == 0
    ensures r.Some? ==> |r.value.words| == |words|
    ensures r.Some? ==> forall i :: 0 <= i < |words| ==> r.value.words[i] == OutWordOf(words[i])
  {
    if |words| == 0 then None
    else
      var text := Trim(Join(WordTexts(words), " "));
      var outs := seq(|words|, i requires 0 <= i < |words| => OutWordOf(words[i]));
      Some(TextPayload(text, VerseRangeText(words[0], words[|words| - 1]), outs))
  }

  /** The text of a line is the joined word texts with surrounding
      whitespace removed and nothing else: an infix of the joined string,
      preceded and followed only by whitespace, itself free of whitespace
      at either end. */
  lemma PayloadText(words: seq<WordItem>)
    requires |words| > 0
    ensures var joined := Join(WordTexts(words), " ");
      TrimmedFrom(joined, LeadingSpaces(joined), BuildTextLinePayload(words).value.text)
  {
    TrimSpec(Join(WordTexts(words), " "));
  }

  /** When every word text is already free of surrounding whitespace, the
      text is exactly the words joined by single spaces. */
  lemma PayloadTextOfClean(words: seq<WordItem>)
    requires |words| > 0 && forall i :: 0 <= i < |words| ==> Clean(words[i].word)
    ensures BuildTextLinePayload(words).value.text == Join(WordTexts(words), " ")
  {
    JoinOfClean(WordTexts(words), " ");
  }

  /* ------------------------- reading a verse range ------------------------- */

  /** The longest prefix of ASCII digits, and what follows it. */
  function SplitDigits(s: string): (r: (string, string))
    ensures AllDigits(r.0) && r.0 + r.1 == s
    ensures r.1 == [] || !IsAsciiDigit(r.1[0])
  {
    if |s| > 0 && IsAsciiDigit(s[0]) then
      var tail := SplitDigits(s[1..]);
      ConsDigits(s, tail.0, tail.1);
      ([s[0]] + tail.0, tail.1)
    else ([], s)
  }

  lemma ConsDigits(s: string, d: string, rest: string)
    requires |s| > 0 && IsAsciiDigit(s[0]) && AllDigits(d) && d + rest == s[1..]
    ensures AllDigits([s[0]] + d) && ([s[0]] + d) + rest == s
  {
    assert [s[0]] + (d + rest) == s;
  }

  lemma {:induction false} SplitDigitsOf(d: string, rest: string)
    requires AllDigits(d) && (rest == [] || !IsAsciiDigit(rest[0]))
    ensures SplitDigits(d + rest) == (d, rest)
  {
    if |d| > 0 {
      assert (d + rest)[1..] == d[1..] + rest;
      SplitDigitsOf(d[1..], rest);
      assert [d[0]] + d[1..] == d;
    } else {
      assert d + rest == rest;
    }
  }

  /** A numeral, the separator `sep`, and the rest of the string. */
  function ReadNumber(s: string, sep: Option<char>): Option<(nat, string)> {
    var (digits, rest) := SplitDigits(s);
    if digits == [] then None
    else if sep.None? then (if rest == [] then Some((ParseDecimal(digits), [])) else None)
    else if rest == [] || rest[0] != sep.value then None
    else Some((ParseDecimal(digits), rest[1..]))
  }

  /** Reads `s:v-s:v` back into its four numbers. */
  function DecodeVerseRange(s: string): Option<(nat, nat, nat, nat)> {
    match ReadNumber(s, Some(':'))
    case None => None
    case Some((a, r1)) =>
      match ReadNumber(r1, Some('-'))
      case None => None
      case Some((b, r2)) =>
        match ReadNumber(r2, Some(':'))
        case None => None
        case Some((c, r3)) =>
          match ReadNumber(r3, None)
          case None => None
          case Some((d, _)) => Some((a, b, c, d))
  }

  lemma ReadRendered(n: nat, sep: char, rest: string)
    requires !IsAsciiDigit(sep)
    ensures ReadNumber(NatToString(n) + [sep] + rest, Some(sep)) == Some((n, rest))
  {
    var d := NatToString(n);
    assert d + [sep] + rest == d + ([sep] + rest);
    SplitDigitsOf(d, [sep] + rest);
    ParseNatToString(n);
    assert ([sep] + rest)[1..] == rest;
  }

  lemma ReadRenderedLast(n: nat)
    ensures ReadNumber(NatToString(n), None) == Some((n, []))
  {
    var d := NatToString(n);
    assert d + [] == d;
    SplitDigitsOf(d, []);
    ParseNatToString(n);
  }

  /** The verse range of a line written from non-negative surah and verse
      numbers reads back as those four numbers, so the range loses nothing. */
  lemma VerseRangeRoundTrip(start: WordItem, end: WordItem)
    requires start.surah >= 0 && start.verse >= 0 && end.surah >= 0 && end.verse >= 0
    ensures DecodeVerseRange(VerseRangeText(start, end)) == Some((start.surah, start.verse, end.surah, end.verse))
  {
    var a, b, c, d := NatToString(start.surah), NatToString(start.verse), NatToString(end.surah), NatToString(end.verse);
    var r3 := d;
    var r2 := c + ":" + r3;
    var r1 := b + "-" + r2;
    var s := a + ":" + r1;
    assert VerseRangeText(start, end) == s;
    ReadRendered(start.surah, ':', r1);
    ReadRendered(start.verse, '-', r2);
    ReadRendered(end.surah, ':', r3);
    ReadRenderedLast(end.verse);
  }

  /* ------------------------------ line records ------------------------------ */

  /** One bucket as line `line`: its marker if it starts with one, else a
      text line of its words, or nothing for an empty bucket. */
  function FinalizeBucket(b: Bucket, line: int): (r: Option<OutputLine>)
    ensures r.None? <==> b == []
    ensures r.Some? ==> r.value.line == line
  {
    if |b| > 0 && b[0].MarkerEntry? then Some(OutputLine(line, MarkerLine(b[0].m)))
    else
      assert |b| > 0 ==> BucketWords(b) == [b[0].w] + BucketWords(b[1..]);
      match BuildTextLinePayload(BucketWords(b))
      case None => None
      case Some(p) => Some(OutputLine(line, TextLine(p)))
  }

  /** The buckets from index `start - 1` on, numbered from `start`. */
  function FinalizeFrom(lines: seq<Bucket>, start: int): (r: seq<OutputLine>)
    ensures |r| <= |lines|
    ensures forall i :: 0 <= i < |r| ==> start <= r[i].line < start + |lines|
  {
    if |lines| == 0 then []
    else
      var here := match FinalizeBucket(lines[0], start) case None => [] case Some(o) => [o];
      var rest := FinalizeFrom(lines[1..], start + 1);
      assert forall i :: 0 <= i < |rest| ==> start < rest[i].line;
      here + rest
  }

  /** The map over the buckets with 1-based line numbers, then the filter
      of the `null`s. */
  function FinalLines(lines: seq<Bucket>): seq<OutputLine> {
    FinalizeFrom(lines, 1)
  }

  /* ------------------------------- properties ------------------------------- */

  /** Line numbers strictly increase through the output, and there is one
      line per non-empty bucket. */
  lemma {:induction false} FinalizeOrdered(lines: seq<Bucket>, start: int)
    ensures var r := FinalizeFrom(lines, start);
      && |r| == NonEmptyCount(lines)
      && forall i, j :: 0 <= i < j < |r| ==> r[i].line < r[j].line
  {
    if |lines| > 0 {
      FinalizeOrdered(lines[1..], start + 1);
    }
  }

  /** With no empty bucket nothing is dropped: line `i + start` is bucket
      `i`, numbered without gaps. */
  lemma {:induction false} FinalizeDense(lines: seq<Bucket>, start: int)
    requires NoEmptyBucket(lines)
    ensures var r := FinalizeFrom(lines, start);
      && |r| == |lines|
      && forall i :: 0 <= i < |r| ==> r[i] == FinalizeBucket(lines[i], start + i).value
  {
    if |lines| > 0 {
      assert NoEmptyBucket(lines[1..]) by {
        forall i | 0 <= i < |lines| - 1
          ensures lines[1..][i] != []
        {
          assert lines[1..][i] == lines[i + 1];
        }
      }
      FinalizeDense(lines[1..], start + 1);
      var r := FinalizeFrom(lines, start);
      var rest := FinalizeFrom(lines[1..], start + 1);
      assert r == [FinalizeBucket(lines[0], start).value] + rest;
      forall i | 0 < i < |r|
        ensures r[i] == FinalizeBucket(lines[i], start + i).value
      {
        assert r[i] == rest[i - 1];
        assert lines[1..][i - 1] == lines[i];
      }
    }
  }

  /** A shaped bucket that does not start with a marker holds only words,
      so its text line carries every item of the bucket, in order. */
  lemma {:induction false} TextBucketWords(b: Bucket)
    requires Shaped(b) && !IsMarkerBucket(b)
    ensures |BucketWords(b)| == |b|
    ensures forall i :: 0 <= i < |b| ==> b[i].WordEntry? && BucketWords(b)[i] == b[i].w
  {
    if |b| > 0 {
      var rest := b[1..];
      assert Shaped(rest) && !IsMarkerBucket(rest) by {
        forall i | 1 <= i < |rest|
          ensures rest[i].WordEntry?
        {
          assert rest[i] == b[i + 1];
        }
      }
      TextBucketWords(rest);
      assert BucketWords(b) == [b[0].w] + BucketWords(rest);
      forall i | 0 < i < |b|
        ensures b[i].WordEntry? && BucketWords(b)[i] == b[i].w
      {
        assert b[i] == rest[i - 1];
      }
    }
  }

  /** A bucket of words becomes a text line whose `words` are those of the
      bucket, in order, and whose range runs from its first word to its
      last. */
  lemma TextLineOfBucket(b: Bucket, line: int)
    requires |b| > 0 && Shaped(b) && !IsMarkerBucket(b)
    ensures var r := FinalizeBucket(b, line).value;
      && r.content.TextLine?
      && |r.content.payload.words| == |b|
      && (forall i :: 0 <= i < |b| ==> r.content.payload.words[i] == OutWordOf(b[i].w))
      && r.content.payload.verseRange == VerseRangeText(b[0].w, b[|b| - 1].w)
  {
    TextBucketWords(b);
  }

  /** Whatever follows a header or basmala in its bucket is lost: the
      bucket becomes the marker's line alone, so a word placed behind a
      marker never reaches the output. */
  lemma WordBehindMarkerIsDropped(m: Marker, rest: Bucket, line: int)
    ensures FinalizeBucket([MarkerEntry(m)] + rest, line) == Some(OutputLine(line, MarkerLine(m)))
  {
  }

  /* ------------------------------ words kept ------------------------------ */

  /** The output fields of a list of words. */
  function Project(ws: seq<WordItem>): (r: seq<OutWord>)
    ensures |r| == |ws|
    ensures forall i :: 0 <= i < |ws| ==> r[i] == OutWordOf(ws[i])
  {
    seq(|ws|, i requires 0 <= i < |ws| => OutWordOf(ws[i]))
  }

  lemma ProjectAppend(a: seq<WordItem>, b: seq<WordItem>)
    ensures Project(a + b) == Project(a) + Project(b)
  {
  }

  /** The words of every text line, line after line. */
  function OutputWords(out: seq<OutputLine>): seq<OutWord> {
    if |out| == 0 then []
    else (if out[0].content.TextLine? then out[0].content.payload.words else []) + OutputWords(out[1..])
  }

  /** No bucket holds a word behind a header or basmala. */
  predicate NoHiddenWords(lines: seq<Bucket>) {
    forall i :: 0 <= i < |lines| && IsMarkerBucket(lines[i]) ==> |lines[i]| == 1
  }

  /** When no word sits behind a marker, the text lines carry exactly the
      words of the buckets, in order. */
  lemma {:induction false} FinalizeKeepsWords(lines: seq<Bucket>, start: int)
    requires AllShaped(lines) && NoHiddenWords(lines)
    ensures OutputWords(FinalizeFrom(lines, start)) == Project(WordsIn(lines))
  {
    if |lines| > 0 {
      var b := lines[0];
      var rest := lines[1..];
      assert AllShaped(rest) && NoHiddenWords(rest) by {
        forall i | 0 <= i < |rest|
          ensures Shaped(rest[i]) && (IsMarkerBucket(rest[i]) ==> |rest[i]| == 1)
        {
          assert rest[i] == lines[i + 1];
        }
      }
      FinalizeKeepsWords(rest, start + 1);
      ProjectAppend(BucketWords(b), WordsIn(rest));
      var here := match FinalizeBucket(b, start) case None => [] case Some(o) => [o];
      assert FinalizeFrom(lines, start) == here + FinalizeFrom(rest, start + 1);
      OutputWordsAppend(here, FinalizeFrom(rest, start + 1));
      var mine: seq<OutWord> := if |here| > 0 && here[0].content.TextLine? then here[0].content.payload.words else [];
      assert OutputWords(here) == mine;
      if b == [] {
      } else if IsMarkerBucket(b) {
        assert BucketWords(b) == [];
      } else {
        TextBucketWords(b);
        assert Project(BucketWords(b)) == mine;
      }
    }
  }

  lemma {:induction false} OutputWordsAppend(a: seq<OutputLine>, b: seq<OutputLine>)
    ensures OutputWords(a + b) == OutputWords(a) + OutputWords(b)
  {
    if |a| == 0 {
      assert a + b == b;
    } else {
      assert (a + b)[1..] == a[1..] + b;
      OutputWordsAppend(a[1..], b);
    }
  }

  /** Projecting two lists with the same elements gives two lists with the
      same elements. */
  lemma {:induction false} ProjectPermutation(a: seq<WordItem>, b: seq<WordItem>)
    requires multiset(a) == multiset(b)
    ensures multiset(Project(a)) == multiset(Project(b))
    decreases |a|
  {
    if |a| == 0 {
      assert |b| == |multiset(b)| == 0;
    } else {
      var x := a[0];
      assert x in multiset(b);
      var k :| 0 <= k < |b| && b[k] == x;
      var b' := b[..k] + b[k + 1..];
      CancelFirst(a, b, k);
      ProjectPermutation(a[1..], b');
      ProjectRemoveAt(b, k);
      assert Project(a) == [OutWordOf(x)] + Project(a[1..]);
      assert multiset(Project(a)) == multiset{OutWordOf(x)} + multiset(Project(a[1..]));
    }
  }

  /** Taking the first element of `a` out of both lists keeps them equal
      as multisets. */
  lemma CancelFirst<T>(a: seq<T>, b: seq<T>, k: nat)
    requires |a| > 0 && k < |b| && b[k] == a[0] && multiset(a) == multiset(b)
    ensures multiset(a[1..]) == multiset(b[..k] + b[k + 1..])
  {
    var ma, mb := multiset(a[1..]), multiset(b[..k] + b[k + 1..]);
    assert ma + multiset{a[0]} == multiset(a) by {
      assert a == [a[0]] + a[1..];
    }
    RemoveAt(b, k);
    MultisetCancel(ma, mb, multiset{a[0]});
  }

  lemma MultisetCancel<T>(m: multiset<T>, n: multiset<T>, x: multiset<T>)
    requires m + x == n + x
    ensures m == n
  {
    assert forall e :: m[e] == (m + x)[e] - x[e] == (n + x)[e] - x[e] == n[e];
  }

  lemma RemoveAt<T>(b: seq<T>, k: nat)
    requires k < |b|
    ensures multiset(b) == multiset(b[..k] + b[k + 1..]) + multiset{b[k]}
  {
    assert b == b[..k] + [b[k]] + b[k + 1..];
  }

  lemma ProjectRemoveAt(b: seq<WordItem>, k: nat)
    requires k < |b|
    ensures multiset(Project(b)) == multiset(Project(b[..k] + b[k + 1..])) + multiset{OutWordOf(b[k])}
  {
    var p := Project(b);
    assert Project(b[..k] + b[k + 1..]) == p[..k] + p[k + 1..];
    RemoveAt(p, k);
  }
}
