/**
 * `generateLines(pageData, page)`: the verse loop, the filter of empty
 * buckets, the count-based corrections and the final transformation,
 * composed; and what the composition guarantees for a whole page.
 */
module Generate {
  import opened Strings
  import opened Numerals
  import opened Providers
  import opened Layout
  import opened VerseMerge
  import opened Placement
  import opened Corrections
  import opened Finalize

  /** The line records of one page. */
  function GenerateLines(verses: seq<Verse>, page: int, t: Tables): (r: Result<seq<OutputLine>>)
    ensures |verses| == 0 ==> r == Ok([])
  {
    match PlaceVerses(Start, verses, t)
    case Err(f) => Err(f)
    case Ok(st) =>
      match Correct(FilterNonEmpty(st.lines), verses, page, t.surahs)
      case Err(f) => Err(f)
      case Ok(lines) => Ok(FinalLines(lines))
  }

  /** The buckets the corrections produce for a page whose verse loop succeeds. */
  function CorrectedBuckets(verses: seq<Verse>, page: int, t: Tables): seq<Bucket>
    requires PlaceVerses(Start, verses, t).Ok? && |verses| > 0
  {
    Correct(FilterNonEmpty(PlaceVerses(Start, verses, t).value.lines), verses, page, t.surahs).value
  }

  /* -------------------------------- failures -------------------------------- */

  lemma {:induction false} PlaceEntriesFailure(lines: seq<Bucket>, offset: int, es: seq<Entry>)
    ensures var r := PlaceEntries(lines, offset, es);
      r.Err? ==> r.failure.LineIndexBeforePage? && r.failure.target < 0
    decreases |es|
  {
    if |es| > 0 && es[0].line + offset >= 0 {
      PlaceEntriesFailure(PlaceWord(lines, es[0].line + offset, es[0].item).value, offset, es[1..]);
    }
  }

  lemma {:induction false} PlaceVersesFailure(st: State, verses: seq<Verse>, t: Tables)
    ensures var r := PlaceVerses(st, verses, t);
      r.Err? ==> r.failure.LineIndexBeforePage? && r.failure.target < 0
    decreases |verses|
  {
    if |verses| > 0 {
      var (lines, offset) := EnterVerse(st, verses[0], t.surahs);
      PlaceEntriesFailure(lines, offset, VerseEntries(verses[0], t.qpcV1));
      var next := PlaceVerse(st, verses[0], t);
      if next.Ok? {
        PlaceVersesFailure(next.value, verses[1..], t);
      }
    }
  }

  /** A page can only fail by sending a word to a bucket index before the
      first; reading the first verse of an empty page never happens. */
  lemma GenerateFailsOnlyBeforePage(verses: seq<Verse>, page: int, t: Tables)
    ensures var r := GenerateLines(verses, page, t);
      r.Err? ==> r.failure.LineIndexBeforePage? && r.failure.target < 0
  {
    PlaceVersesFailure(Start, verses, t);
  }

  lemma VerseEntriesOnPage(lines: seq<Bucket>, v: Verse, v1: GlyphTable, offset: int)
    requires offset >= 0
    requires forall j :: 0 <= j < KeptCount(v) ==> v.words[j].line >= 0
    ensures PlaceEntries(lines, offset, VerseEntries(v, v1)).Ok?
  {
    var es := VerseEntries(v, v1);
    PlaceEntriesFailsIff(lines, offset, es);
    forall i | 0 <= i < |es|
      ensures es[i].line + offset >= 0
    {
      assert SameButQpc(MergeVerseNumber(v, v1)[i].word, v.words[i]);
    }
  }

  lemma {:induction false} PlaceVersesOnPage(st: State, verses: seq<Verse>, t: Tables)
    requires st.offset >= 0 && OnPage(verses)
    ensures PlaceVerses(st, verses, t).Ok?
    decreases |verses|
  {
    if |verses| > 0 {
      var v := verses[0];
      var (lines, offset) := EnterVerse(st, v, t.surahs);
      EnterVerseCountsMarkers(st, v, t.surahs);
      VerseEntriesOnPage(lines, v, t.qpcV1, offset);
      var next := PlaceVerse(st, v, t);
      assert next.Ok? && next.value.offset >= 0;
      assert OnPage(verses[1..]) by {
        forall i, j | 0 <= i < |verses| - 1 && 0 <= j < KeptCount(verses[1..][i])
          ensures verses[1..][i].words[j].line >= 0
        {
          assert verses[1..][i] == verses[i + 1];
        }
      }
      PlaceVersesOnPage(next.value, verses[1..], t);
    }
  }

  /** A page whose kept words all sit on lines 0 or more is generated
      without error. */
  lemma GenerateSucceedsOnPage(verses: seq<Verse>, page: int, t: Tables)
    requires OnPage(verses)
    ensures GenerateLines(verses, page, t).Ok?
  {
    PlaceVersesOnPage(Start, verses, t);
  }

  /** A kept word of the first verse on a negative line fails the page:
      nothing has shifted the lines yet. */
  lemma GenerateFailsBeforeFirstLine(verses: seq<Verse>, page: int, t: Tables, j: nat)
    requires |verses| > 0 && j < KeptCount(verses[0]) && verses[0].words[j].line < 0
    ensures GenerateLines(verses, page, t).Err?
  {
    var v := verses[0];
    var es := VerseEntries(v, t.qpcV1);
    assert SameButQpc(MergeVerseNumber(v, t.qpcV1)[j].word, v.words[j]);
    assert es[j].line + 0 < 0;
    PlaceEntriesFailsIff([], 0, es);
  }

  /* ------------------------------- line numbers ------------------------------- */

  /** The buckets left after the corrections hold no empty bucket, keep the
      shape invariant and hold the page's words. */
  lemma CorrectedBucketsFacts(verses: seq<Verse>, page: int, t: Tables)
    requires PlaceVerses(Start, verses, t).Ok? && |verses| > 0
    ensures var placed := PlaceVerses(Start, verses, t).value.lines;
      var lines := CorrectedBuckets(verses, page, t);
      && NoEmptyBucket(lines)
      && AllShaped(lines)
      && multiset(WordsIn(lines)) == multiset(PageItems(verses, t.qpcV1))
      && NonEmptyCount(placed) <= |lines| <= NonEmptyCount(placed) + 2
      && (|lines| == NonEmptyCount(placed) <==> !NeedsCorrection(NonEmptyCount(placed)))
  {
    var placed := PlaceVerses(Start, verses, t).value.lines;
    var filtered := FilterNonEmpty(placed);
    PlacementFromStart(verses, t);
    FilterKeepsContents(placed);
    CorrectKeepsContents(filtered, verses, page, t.surahs);
    CorrectFrames(filtered, verses, page, t.surahs);
  }

  /** The records are numbered 1, 2, 3, ... without gaps, one per bucket
      left after the corrections: as many as the non-empty buckets the
      verse loop built when that count is not 6, 7, 13 or 14, and one or
      two more when it is. */
  lemma GenerateNumbering(verses: seq<Verse>, page: int, t: Tables)
    requires GenerateLines(verses, page, t).Ok?
    ensures var r := GenerateLines(verses, page, t).value;
      forall i :: 0 <= i < |r| ==> r[i].line == i + 1
    ensures |verses| > 0 ==>
      var r := GenerateLines(verses, page, t).value;
      var n := NonEmptyCount(PlaceVerses(Start, verses, t).value.lines);
      && |r| == |CorrectedBuckets(verses, page, t)|
      && (!NeedsCorrection(n) ==> |r| == n)
      && (NeedsCorrection(n) ==> n + 1 <= |r| <= n + 2)
  {
    if |verses| > 0 {
      var lines := CorrectedBuckets(verses, page, t);
      CorrectedBucketsFacts(verses, page, t);
      FinalizeDense(lines, 1);
    }
  }

  /* ------------------------------ words kept ------------------------------ */

  /** No hidden words survive filtering and corrections. */
  lemma NoHiddenWordsKept(verses: seq<Verse>, page: int, t: Tables)
    requires PlaceVerses(Start, verses, t).Ok? && |verses| > 0
    requires NoHiddenWords(PlaceVerses(Start, verses, t).value.lines)
    ensures NoHiddenWords(CorrectedBuckets(verses, page, t))
  {
    var placed := PlaceVerses(Start, verses, t).value.lines;
    var filtered := FilterNonEmpty(placed);
    FilterKeepsHiddenFree(placed);
    var f := AddedAround(|filtered|, verses, page, t.surahs);
    CorrectFrames(filtered, verses, page, t.surahs);
    FramedHiddenFree(f.above, filtered, f.below);
  }

  lemma FramedHiddenFree(above: seq<Bucket>, lines: seq<Bucket>, below: seq<Bucket>)
    requires AllSingleMarkers(above) && AllSingleMarkers(below) && NoHiddenWords(lines)
    ensures NoHiddenWords(above + lines + below)
  {
    var r := above + lines + below;
    forall i | 0 <= i < |r| && IsMarkerBucket(r[i])
      ensures |r[i]| == 1
    {
      if i < |above| {
        assert r[i] == above[i];
      } else if i < |above| + |lines| {
        assert r[i] == lines[i - |above|];
      } else {
        assert r[i] == below[i - |above| - |lines|];
      }
    }
  }

  lemma {:induction false} FilterKeepsHiddenFree(lines: seq<Bucket>)
    requires NoHiddenWords(lines)
    ensures NoHiddenWords(FilterNonEmpty(lines))
  {
    if |lines| > 0 {
      assert NoHiddenWords(lines[1..]) by {
        forall i | 0 <= i < |lines| - 1 && IsMarkerBucket(lines[1..][i])
          ensures |lines[1..][i]| == 1
        {
          assert lines[1..][i] == lines[i + 1];
        }
      }
      FilterKeepsHiddenFree(lines[1..]);
      var rest := FilterNonEmpty(lines[1..]);
      if lines[0] != [] {
        var r := [lines[0]] + rest;
        forall i | 0 < i < |r| && IsMarkerBucket(r[i])
          ensures |r[i]| == 1
        {
          assert r[i] == rest[i - 1];
        }
      }
    }
  }

  /** When no word lands behind a header or basmala, every word of the page
      appears in the text lines exactly once: the output words are a
      permutation of the page's words. */
  lemma {:induction false} GenerateKeepsEveryWord(verses: seq<Verse>, page: int, t: Tables)
    requires GenerateLines(verses, page, t).Ok? && |verses| > 0
    requires NoHiddenWords(PlaceVerses(Start, verses, t).value.lines)
    ensures multiset(OutputWords(GenerateLines(verses, page, t).value)) == multiset(Project(PageItems(verses, t.qpcV1)))
  {
    var lines := CorrectedBuckets(verses, page, t);
    CorrectedBucketsFacts(verses, page, t);
    NoHiddenWordsKept(verses, page, t);
    FinalizeKeepsWords(lines, 1);
    ProjectPermutation(WordsIn(lines), PageItems(verses, t.qpcV1));
  }

  /* ---------------------------- single-surah pages ---------------------------- */

  /** The distinct source lines the page's kept words sit on. */
  function LinesUsed(es: seq<Entry>): set<int> {
    set i | 0 <= i < |es| :: es[i].line
  }

  function NonEmptyIndices(lines: seq<Bucket>): set<int> {
    set b | 0 <= b < |lines| && lines[b] != []
  }

  lemma {:induction false} NonEmptyCountIsIndices(lines: seq<Bucket>)
    ensures NonEmptyCount(lines) == |NonEmptyIndices(lines)|
    decreases |lines|
  {
    if |lines| > 0 {
      var n := |lines| - 1;
      var init := lines[..n];
      assert lines == init + [lines[n]];
      NonEmptyCountAppend(init, [lines[n]]);
      NonEmptyCountIsIndices(init);
      assert NonEmptyCount([lines[n]]) == (if lines[n] != [] then 1 else 0) by {
        assert [lines[n]][1..] == [];
      }
      if lines[n] != [] {
        assert NonEmptyIndices(lines) == NonEmptyIndices(init) + {n};
      } else {
        assert NonEmptyIndices(lines) == NonEmptyIndices(init);
      }
    }
  }

  /** Buckets built line by line are non-empty exactly at the lines used. */
  lemma ByLineIndices(lines: seq<Bucket>, es: seq<Entry>)
    requires LinesOnPage(es) && |lines| == Span(es)
    requires forall b :: 0 <= b < |lines| ==> lines[b] == OnLine(es, b)
    ensures NonEmptyIndices(lines) == LinesUsed(es)
  {
    forall b | b in NonEmptyIndices(lines)
      ensures b in LinesUsed(es)
    {
      OnLineSpec(es, b);
    }
    forall b | b in LinesUsed(es)
      ensures b in NonEmptyIndices(lines)
    {
      OnLineSpec(es, b);
    }
  }

  /** On a page of one surah whose kept words sit on lines 0 or more, the
      verse loop leaves one non-empty bucket per distinct source line. */
  lemma {:induction false} SingleSurahBucketCount(verses: seq<Verse>, t: Tables, s: int)
    requires forall i :: 0 <= i < |verses| ==> verses[i].surah == s
    requires OnPage(verses)
    ensures PlaceVerses(Start, verses, t).Ok?
    ensures var placed := PlaceVerses(Start, verses, t).value.lines;
      NonEmptyCount(placed) == |LinesUsed(PageEntries(verses, t.qpcV1))|
  {
    SingleSurahPlacement(verses, t, s);
    PageEntriesOnPage(verses, t.qpcV1);
    var placed := PlaceVerses(Start, verses, t).value.lines;
    NonEmptyCountIsIndices(placed);
    ByLineIndices(placed, PageEntries(verses, t.qpcV1));
  }

  lemma {:induction false} NoMarkerCount(lines: seq<Bucket>)
    requires MarkerCount(lines) == 0
    ensures NoMarkers(lines)
  {
    if |lines| > 0 {
      NoMarkerCount(lines[1..]);
      assert forall b :: 0 < b < |lines| ==> lines[b] == lines[1..][b - 1];
    }
  }

  /** A page of one surah whose kept words sit on lines 0 or more, on
      which the distinct source lines are not 6, 7, 13 or 14 in number,
      comes out as exactly one text line per distinct source line,
      numbered from 1, with no header or basmala. */
  lemma {:induction false} SingleSurahTextLines(verses: seq<Verse>, page: int, t: Tables, s: int)
    requires |verses| > 0 && forall i :: 0 <= i < |verses| ==> verses[i].surah == s
    requires OnPage(verses)
    requires !NeedsCorrection(|LinesUsed(PageEntries(verses, t.qpcV1))|)
    ensures var r := GenerateLines(verses, page, t);
      && r.Ok?
      && |r.value| == |LinesUsed(PageEntries(verses, t.qpcV1))|
      && forall i :: 0 <= i < |r.value| ==> r.value[i].line == i + 1 && r.value[i].content.TextLine?
  {
    SingleSurahBucketCount(verses, t, s);
    var filtered := SingleSurahFiltered(verses, t, s);
    assert Correct(filtered, verses, page, t.surahs) == Ok(filtered);
    PlainBucketsAreTextLines(filtered);
  }

  /** The non-empty buckets of a one-surah page hold no header or basmala. */
  lemma SingleSurahFiltered(verses: seq<Verse>, t: Tables, s: int) returns (filtered: seq<Bucket>)
    requires forall i :: 0 <= i < |verses| ==> verses[i].surah == s
    requires OnPage(verses)
    ensures PlaceVerses(Start, verses, t).Ok?
    ensures var placed := PlaceVerses(Start, verses, t).value.lines;
      && filtered == FilterNonEmpty(placed)
      && |filtered| == NonEmptyCount(placed)
      && NoEmptyBucket(filtered) && NoMarkers(filtered)
  {
    SingleSurahPlacement(verses, t, s);
    var placed := PlaceVerses(Start, verses, t).value.lines;
    filtered := FilterNonEmpty(placed);
    FilterKeepsContents(placed);
    NoMarkerCount(filtered);
  }

  /** Non-empty buckets without a header or basmala become text lines,
      one per bucket, numbered from 1. */
  lemma PlainBucketsAreTextLines(lines: seq<Bucket>)
    requires NoEmptyBucket(lines) && NoMarkers(lines)
    ensures var r := FinalLines(lines);
      && |r| == |lines|
      && forall i :: 0 <= i < |r| ==> r[i].line == i + 1 && r[i].content.TextLine?
  {
    FinalizeDense(lines, 1);
    var r := FinalLines(lines);
    forall i | 0 <= i < |r|
      ensures r[i].line == i + 1 && r[i].content.TextLine?
    {
      assert lines[i] != [] && !IsMarkerBucket(lines[i]);
    }
  }

  /* ------------------------- header and basmala lines ------------------------- */

  /** Dropping empty buckets keeps an adjacent header and basmala adjacent. */
  lemma {:induction false} PairSurvivesFilter(lines: seq<Bucket>, surahs: seq<SurahRecord>, n: int)
    requires HeaderThenBasmala(lines, surahs, n)
    ensures HeaderThenBasmala(FilterNonEmpty(lines), surahs, n)
  {
    var k :| 0 <= k && k + 1 < |lines| && lines[k] == HeaderBucket(surahs, n) && lines[k + 1] == BasmalaBucket;
    var m := PairIndexAfterFilter(lines, k, HeaderBucket(surahs, n));
  }

  lemma {:induction false} PairIndexAfterFilter(lines: seq<Bucket>, k: nat, h: Bucket) returns (m: nat)
    requires k + 1 < |lines| && lines[k] == h && lines[k + 1] == BasmalaBucket && h != []
    ensures var f := FilterNonEmpty(lines); m + 1 < |f| && f[m] == h && f[m + 1] == BasmalaBucket
    decreases k
  {
    var f := FilterNonEmpty(lines);
    if k == 0 {
      assert lines[1..][0] == BasmalaBucket;
      assert f == [h] + ([BasmalaBucket] + FilterNonEmpty(lines[1..][1..]));
      m := 0;
    } else {
      assert lines[1..][k - 1] == h && lines[1..][k] == BasmalaBucket;
      var m' := PairIndexAfterFilter(lines[1..], k - 1, h);
      m := if lines[0] == [] then m' else m' + 1;
    }
  }

  lemma PairSurvivesFrame(above: seq<Bucket>, lines: seq<Bucket>, below: seq<Bucket>, surahs: seq<SurahRecord>, n: int)
    requires HeaderThenBasmala(lines, surahs, n)
    ensures HeaderThenBasmala(above + lines + below, surahs, n)
  {
    var k :| 0 <= k && k + 1 < |lines| && lines[k] == HeaderBucket(surahs, n) && lines[k + 1] == BasmalaBucket;
    var r := above + lines + below;
    assert r[|above| + k] == lines[k] && r[|above| + k + 1] == lines[k + 1];
  }

  /** Adjacent header and basmala buckets become adjacent header and
      basmala lines. */
  lemma PairInOutput(lines: seq<Bucket>, surahs: seq<SurahRecord>, n: int)
    requires NoEmptyBucket(lines) && HeaderThenBasmala(lines, surahs, n)
    ensures var r := FinalLines(lines);
      exists k :: 0 <= k && k + 1 < |r|
        && r[k].content == MarkerLine(HeaderFor(surahs, n)) && r[k + 1].content == MarkerLine(BasmalaMarker)
  {
    var k :| 0 <= k && k + 1 < |lines| && lines[k] == HeaderBucket(surahs, n) && lines[k + 1] == BasmalaBucket;
    MarkerLineAt(lines, k);
    MarkerLineAt(lines, k + 1);
  }

  lemma MarkerLineAt(lines: seq<Bucket>, i: nat)
    requires NoEmptyBucket(lines) && i < |lines| && IsMarkerBucket(lines[i])
    ensures |FinalLines(lines)| == |lines| && FinalLines(lines)[i].content == MarkerLine(lines[i][0].m)
  {
    FinalizeDense(lines, 1);
  }

  /** When consecutive verses change surah to one other than 9 and no word
      lands behind a header or basmala, the new surah's header line is
      immediately followed by a basmala line in the output. */
  lemma HeaderThenBasmalaLines(verses: seq<Verse>, page: int, t: Tables, i: nat)
    requires GenerateLines(verses, page, t).Ok?
    requires 0 < i < |verses| && verses[i - 1].surah != verses[i].surah && verses[i].surah != 9
    requires NoHiddenWords(PlaceVerses(Start, verses, t).value.lines)
    ensures var r := GenerateLines(verses, page, t).value;
      exists k :: 0 <= k && k + 1 < |r|
        && r[k].content == MarkerLine(HeaderFor(t.surahs, verses[i].surah))
        && r[k + 1].content == MarkerLine(BasmalaMarker)
  {
    var n := verses[i].surah;
    var placed := PlaceVerses(Start, verses, t).value.lines;
    SurahChangeLeavesPair(Start, verses, t, i);
    assert !HasHiddenWord(placed);
    var filtered := FilterNonEmpty(placed);
    PairSurvivesFilter(placed, t.surahs, n);
    var f := AddedAround(|filtered|, verses, page, t.surahs);
    CorrectFrames(filtered, verses, page, t.surahs);
    PairSurvivesFrame(f.above, filtered, f.below, t.surahs, n);
    CorrectedBucketsFacts(verses, page, t);
    PairInOutput(CorrectedBuckets(verses, page, t), t.surahs, n);
  }

  /** Without that condition the order does not hold. A one-word verse of
      surah 1 on line 2, then surah 2 with words on lines 1 and 2: the
      surah-2 word on line 1 hits the header bucket, the splice opens an
      empty bucket between header and basmala, and the word on line 2 fills
      it. The page reads text, header, text, basmala, and the word behind the
      header is lost. */
  lemma BasmalaSplitFromHeader(a: RawWord, b: RawWord, c: RawWord, orn: RawWord, page: int, t: Tables)
    requires a.line == 2 && b.line == 1 && c.line == 2
    ensures var r := GenerateLines([Verse(1, 1, [a]), Verse(2, 1, [b, c, orn])], page, t);
      && r.Ok? && |r.value| == 4
      && r.value[0].content.TextLine?
      && r.value[1].content == MarkerLine(HeaderFor(t.surahs, 2))
      && r.value[2].content.TextLine?
      && |r.value[2].content.payload.words| == 1
      && r.value[2].content.payload.words[0].location == c.location
      && r.value[3].content == MarkerLine(BasmalaMarker)
  {
    var verses := [Verse(1, 1, [a]), Verse(2, 1, [b, c, orn])];
    var h := HeaderFor(t.surahs, 2);
    var ia, ib, ic := WitnessPlacement(a, b, c, orn, t);
    var placed := [[], [], [WordEntry(ia)], [MarkerEntry(h), WordEntry(ib)], [WordEntry(ic)], BasmalaBucket];
    WitnessOutput(placed, ia, ib, ic, h, verses, page, t.surahs);
  }

  lemma PlaceTwoVerses(st: State, v1: Verse, v2: Verse, t: Tables)
    requires PlaceVerse(st, v1, t).Ok?
    ensures PlaceVerses(st, [v1, v2], t) == PlaceVerse(PlaceVerse(st, v1, t).value, v2, t)
  {
    var next := PlaceVerse(st, v1, t).value;
    assert [v1, v2][1..] == [v2] && [v2][1..] == [];
    assert PlaceVerses(st, [v1, v2], t) == PlaceVerses(next, [v2], t);
    match PlaceVerse(next, v2, t)
    case Err(f) =>
    case Ok(last) => assert PlaceVerses(last, [], t) == Ok(last);
  }

  lemma PlaceOneEntry(lines: seq<Bucket>, offset: int, e: Entry)
    ensures PlaceEntries(lines, offset, [e]) == PlaceWord(lines, e.line + offset, e.item)
  {
    assert [e][1..] == [];
  }

  lemma PlaceTwoEntries(lines: seq<Bucket>, offset: int, e: Entry, f: Entry)
    requires PlaceWord(lines, e.line + offset, e.item).Ok?
    ensures PlaceEntries(lines, offset, [e, f]) == PlaceEntries(PlaceWord(lines, e.line + offset, e.item).value, offset, [f])
  {
    assert [e, f][1..] == [f];
  }

  lemma WitnessPlacement(a: RawWord, b: RawWord, c: RawWord, orn: RawWord, t: Tables) returns (ia: WordItem, ib: WordItem, ic: WordItem)
    requires a.line == 2 && b.line == 1 && c.line == 2
    ensures ic.location == c.location
    ensures PlaceVerses(Start, [Verse(1, 1, [a]), Verse(2, 1, [b, c, orn])], t)
      == Ok(State([[], [], [WordEntry(ia)], [MarkerEntry(HeaderFor(t.surahs, 2)), WordEntry(ib)], [WordEntry(ic)], BasmalaBucket],
                  2, Some(2)))
  {
    var v1, v2 := Verse(1, 1, [a]), Verse(2, 1, [b, c, orn]);
    VerseEntriesOfWords(v1, t.qpcV1);
    VerseEntriesOfWords(v2, t.qpcV1);
    var e1, e2 := VerseEntries(v1, t.qpcV1), VerseEntries(v2, t.qpcV1);
    ia, ib, ic := e1[0].item, e2[0].item, e2[1].item;
    assert e1 == [Entry(2, ia)] && e2 == [Entry(1, ib), Entry(2, ic)];
    var l1 := WitnessFirstVerse(ia);
    PlaceOneEntry([], 0, e1[0]);
    var st := State(l1, 0, Some(1));
    assert PlaceVerse(Start, v1, t) == Ok(st);
    var h := HeaderBucket(t.surahs, 2);
    var entered := l1 + [h, BasmalaBucket];
    assert OpeningBuckets(t.surahs, 2) == [h, BasmalaBucket];
    assert EnterVerse(st, v2, t.surahs) == (entered, 2);
    var l2 := WitnessSecondVerse(ia, ib, ic, h);
    PlaceTwoEntries(entered, 2, e2[0], e2[1]);
    PlaceOneEntry(PlaceWord(entered, 3, ib).value, 2, e2[1]);
    assert PlaceEntries(entered, 2, e2) == Ok(l2);
    assert PlaceVerse(st, v2, t) == Ok(State(l2, 2, Some(2)));
    PlaceTwoVerses(Start, v1, v2, t);
    assert h + [WordEntry(ib)] == [MarkerEntry(HeaderFor(t.surahs, 2)), WordEntry(ib)];
  }

  lemma WitnessFirstVerse(ia: WordItem) returns (l1: seq<Bucket>)
    ensures l1 == [[], [], [WordEntry(ia)]] && PlaceWord([], 2, ia) == Ok(l1)
  {
    PlaceWordEffect([], 2, ia);
    l1 := PlaceWord([], 2, ia).value;
    assert BucketAt([], 0) == [] && BucketAt([], 1) == [] && BucketAt([], 2) == [];
    assert |l1| == 3 && l1[0] == [] && l1[1] == [] && l1[2] == [WordEntry(ia)];
  }

  lemma WitnessSecondVerse(ia: WordItem, ib: WordItem, ic: WordItem, h: Bucket) returns (l2: seq<Bucket>)
    requires IsMarkerBucket(h) && |h| == 1
    ensures var l1 := [[], [], [WordEntry(ia)]] + [h, BasmalaBucket];
      && PlaceWord(l1, 3, ib).Ok?
      && PlaceWord(PlaceWord(l1, 3, ib).value, 4, ic) == Ok(l2)
    ensures l2 == [[], [], [WordEntry(ia)], h + [WordEntry(ib)], [WordEntry(ic)], BasmalaBucket]
  {
    var l1 := [[], [], [WordEntry(ia)]] + [h, BasmalaBucket];
    assert |l1| == 5 && l1[3] == h && l1[4] == BasmalaBucket;
    PlaceWordEffect(l1, 3, ib);
    var m := PlaceWord(l1, 3, ib).value;
    assert |m| == 6 && m[0] == [] && m[1] == [] && m[2] == [WordEntry(ia)];
    assert m[3] == h + [WordEntry(ib)] && m[4] == [] && m[5] == BasmalaBucket;
    PlaceWordEffect(m, 4, ic);
    l2 := PlaceWord(m, 4, ic).value;
    assert |l2| == 6 && l2[0] == [] && l2[1] == [] && l2[2] == [WordEntry(ia)];
    assert l2[3] == h + [WordEntry(ib)] && l2[4] == [WordEntry(ic)] && l2[5] == BasmalaBucket;
  }

  lemma WitnessOutput(placed: seq<Bucket>, ia: WordItem, ib: WordItem, ic: WordItem, h: Marker,
                      verses: seq<Verse>, page: int, surahs: seq<SurahRecord>)
    requires placed == [[], [], [WordEntry(ia)], [MarkerEntry(h), WordEntry(ib)], [WordEntry(ic)], BasmalaBucket]
    ensures var r := FinalLines(FilterNonEmpty(placed));
      && Correct(FilterNonEmpty(placed), verses, page, surahs) == Ok(FilterNonEmpty(placed))
      && |r| == 4
      && r[0].content.TextLine?
      && r[1].content == MarkerLine(h)
      && r[2].content.TextLine? && |r[2].content.payload.words| == 1 && r[2].content.payload.words[0] == OutWordOf(ic)
      && r[3].content == MarkerLine(BasmalaMarker)
  {
    var filtered := [[WordEntry(ia)], [MarkerEntry(h), WordEntry(ib)], [WordEntry(ic)], BasmalaBucket];
    assert placed == [[], []] + filtered;
    FilterLeadingEmpties(filtered);
    WitnessLines(filtered[0], filtered[1], filtered[2], filtered[3]);
  }

  lemma FilterLeadingEmpties(rest: seq<Bucket>)
    requires NoEmptyBucket(rest)
    ensures FilterNonEmpty([[], []] + rest) == rest
  {
    assert ([[], []] + rest)[1..] == [[]] + rest;
    assert ([[]] + rest)[1..] == rest;
    FilterKeepsContents(rest);
  }

  lemma WitnessLines(b0: Bucket, b1: Bucket, b2: Bucket, b3: Bucket)
    requires |b0| == 1 && b0[0].WordEntry? && |b2| == 1 && b2[0].WordEntry?
    requires IsMarkerBucket(b1) && IsMarkerBucket(b3)
    ensures var r := FinalLines([b0, b1, b2, b3]);
      && |r| == 4
      && r[0].content.TextLine?
      && r[1].content == MarkerLine(b1[0].m)
      && r[2].content.TextLine? && |r[2].content.payload.words| == 1 && r[2].content.payload.words[0] == OutWordOf(b2[0].w)
      && r[3].content == MarkerLine(b3[0].m)
  {
    var lines := [b0, b1, b2, b3];
    FinalizeDense(lines, 1);
    TextLineOfBucket(b0, 1);
    TextLineOfBucket(b2, 3);
  }

  /* ------------------------------ one small page ------------------------------ */

  /** The verse loop on a page of one two-word verse on line 0: one
      bucket holding the verse-end word. */
  lemma OneVersePlacement(w0: RawWord, w1: RawWord, surah: int, verse: int, t: Tables)
    requires w0.line == 0
    ensures var v := Verse(surah, verse, [w0, w1]);
      PlaceVerses(Start, [v], t) == Ok(State([[WordEntry(VerseItems(v, t.qpcV1)[0])]], 0, Some(surah)))
  {
    var v := Verse(surah, verse, [w0, w1]);
    var item := VerseItems(v, t.qpcV1)[0];
    var es := VerseEntries(v, t.qpcV1);
    assert es == [Entry(0, item)];
    assert BucketAt([], 0) == [] && !IsMarkerBucket([]);
    PlaceWordEffect([], 0, item);
    var placed := PlaceWord([], 0, item).value;
    assert |placed| == 1 && placed[0] == [WordEntry(item)];
    assert placed == [[WordEntry(item)]];
    assert PlaceEntries([], 0, es) == Ok(placed) by {
      assert es[1..] == [];
    }
    assert EnterVerse(Start, v, t.surahs) == ([], 0);
    assert [v][1..] == [];
  }

  /** A page holding one two-word verse (a word and the verse-number
      ornament) on its first line: one text line, numbered 1, whose single
      word is the first word's text, a space, and the verse numeral, and
      whose text is that word trimmed; exactly that word when the text has
      no whitespace at either end and the verse number is not negative. */
  lemma OneVersePage(w0: RawWord, w1: RawWord, surah: int, verse: int, page: int, t: Tables)
    requires w0.line == 0
    ensures var v := Verse(surah, verse, [w0, w1]);
      var r := GenerateLines([v], page, t);
      var word := w0.text + " " + VerseNumeral(verse);
      && r.Ok? && |r.value| == 1 && r.value[0].line == 1
      && r.value[0].content.TextLine?
      && r.value[0].content.payload.text == Trim(word)
      && (Clean(w0.text) && verse >= 0 ==> r.value[0].content.payload.text == word)
      && |r.value[0].content.payload.words| == 1
      && r.value[0].content.payload.words[0].word == word
      && r.value[0].content.payload.words[0].location == w0.location
  {
    var v := Verse(surah, verse, [w0, w1]);
    VerseEndItem(v, t.qpcV1);
    var item := VerseItems(v, t.qpcV1)[0];
    OneVersePlacement(w0, w1, surah, verse, t);
    var placed := [[WordEntry(item)]];
    assert FilterNonEmpty(placed) == placed by {
      assert placed[1..] == [];
    }
    assert Correct(placed, [v], page, t.surahs) == Ok(placed);
    SingleWordLine(item);
    if Clean(w0.text) && verse >= 0 {
      NumberedWordIsClean(w0.text, verse);
      TrimOfClean(item.word);
    }
  }

  /** A word followed by a space and a verse numeral has no whitespace at
      either end when the word has none. */
  lemma NumberedWordIsClean(text: string, verse: nat)
    requires Clean(text)
    ensures Clean(text + " " + VerseNumeral(verse))
  {
    var d := VerseNumeral(verse);
    var word := text + " " + d;
    VerseNumeralDenotes(verse);
    assert word[0] == text[0];
    assert word[|word| - 1] == d[|d| - 1];
  }

  /** A page of a single one-word bucket gives one text line, numbered 1,
      holding that word alone, whose text is the word trimmed. */
  lemma SingleWordLine(item: WordItem)
    ensures var r := FinalLines([[WordEntry(item)]]);
      && |r| == 1 && r[0].line == 1 && r[0].content.TextLine?
      && r[0].content.payload.text == Trim(item.word)
      && r[0].content.payload.words == [OutWordOf(item)]
  {
    var placed := [[WordEntry(item)]];
    assert BucketWords([WordEntry(item)]) == [item] by {
      assert [WordEntry(item)][1..] == [];
    }
    assert Join(WordTexts([item]), " ") == item.word;
    assert FinalLines(placed) == [FinalizeBucket(placed[0], 1).value] by {
      assert placed[1..] == [];
    }
  }
}
