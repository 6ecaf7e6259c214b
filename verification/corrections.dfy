/**
 * What `generateLines` does between the verse loop and the final
 * transformation: dropping empty buckets, then the count-based corrections
 * that add the header and basmala lines the page data does not place
 * (a page that starts or announces a surah, and the two opening pages).
 */
module Corrections {
  import opened Providers
  import opened Layout
  import opened Placement

  /* --------------------------- dropping empties --------------------------- */

  /** `lines.filter((line) => line.length > 0)`. */
  function FilterNonEmpty(lines: seq<Bucket>): (r: seq<Bucket>)
    ensures |r| <= |lines|
    ensures forall i :: 0 <= i < |r| ==> r[i] != []
  {
    if |lines| == 0 then []
    else if lines[0] == [] then FilterNonEmpty(lines[1..])
    else [lines[0]] + FilterNonEmpty(lines[1..])
  }

  function NonEmptyCount(lines: seq<Bucket>): nat {
    if |lines| == 0 then 0 else (if lines[0] != [] then 1 else 0) + NonEmptyCount(lines[1..])
  }

  lemma {:induction false} NonEmptyCountAppend(a: seq<Bucket>, c: seq<Bucket>)
    ensures NonEmptyCount(a + c) == NonEmptyCount(a) + NonEmptyCount(c)
  {
    if |a| == 0 {
      assert a + c == c;
    } else {
      assert (a + c)[0] == a[0] && (a + c)[1..] == a[1..] + c;
      NonEmptyCountAppend(a[1..], c);
    }
  }

  predicate NoEmptyBucket(lines: seq<Bucket>) {
    forall i :: 0 <= i < |lines| ==> lines[i] != []
  }

  /** Filtering keeps every non-empty bucket, in order: the words and the
      markers are those of the unfiltered list, the shape invariant holds
      on, one bucket survives per non-empty bucket, and a list without
      empty buckets is left as it is. */
  lemma {:induction false} FilterKeepsContents(lines: seq<Bucket>)
    ensures var r := FilterNonEmpty(lines);
      && WordsIn(r) == WordsIn(lines)
      && MarkerCount(r) == MarkerCount(lines)
      && (AllShaped(lines) ==> AllShaped(r))
      && |r| == NonEmptyCount(lines)
      && (NoEmptyBucket(lines) ==> r == lines)
  {
    if |lines| > 0 {
      var rest := FilterNonEmpty(lines[1..]);
      FilterKeepsContents(lines[1..]);
      TailFacts(lines);
      if lines[0] == [] {
        assert BucketWords(lines[0]) == [];
      } else {
        var r := [lines[0]] + rest;
        assert r[1..] == rest;
        if AllShaped(lines) {
          ShapedCons(lines[0], rest);
        }
      }
    }
  }

  /** The filter looks at one bucket at a time: it keeps a non-empty bucket
      whole, drops an empty one, and distributes over concatenation, so the
      surviving buckets are the original ones, intact and in order. */
  lemma {:induction false} FilterPiecewise(a: seq<Bucket>, c: seq<Bucket>, x: Bucket)
    ensures FilterNonEmpty([x]) == if |x| > 0 then [x] else []
    ensures FilterNonEmpty(a + c) == FilterNonEmpty(a) + FilterNonEmpty(c)
  {
    assert [x][1..] == [];
    if |a| == 0 {
      assert a + c == c;
    } else {
      assert (a + c)[0] == a[0] && (a + c)[1..] == a[1..] + c;
      FilterPiecewise(a[1..], c, x);
    }
  }

  /** What the first bucket and the rest inherit from the whole list. */
  lemma TailFacts(lines: seq<Bucket>)
    requires |lines| > 0
    ensures AllShaped(lines) ==> Shaped(lines[0]) && AllShaped(lines[1..])
    ensures NoEmptyBucket(lines) ==> lines[0] != [] && NoEmptyBucket(lines[1..])
    ensures [lines[0]] + lines[1..] == lines
  {
    if AllShaped(lines) {
      forall i | 0 <= i < |lines| - 1
        ensures Shaped(lines[1..][i])
      {
        assert lines[1..][i] == lines[i + 1];
      }
    }
    if NoEmptyBucket(lines) {
      forall i | 0 <= i < |lines| - 1
        ensures lines[1..][i] != []
      {
        assert lines[1..][i] == lines[i + 1];
      }
    }
  }

  lemma ShapedCons(b: Bucket, rest: seq<Bucket>)
    requires Shaped(b) && AllShaped(rest)
    ensures AllShaped([b] + rest)
  {
    var r := [b] + rest;
    forall i | 0 < i < |r|
      ensures Shaped(r[i])
    {
      assert r[i] == rest[i - 1];
    }
  }

  /* ----------------------------- corrections ----------------------------- */

  /** Pages whose bucket count, after filtering, calls for a correction. */
  predicate NeedsCorrection(n: nat) {
    n == 6 || n == 7 || n == 13 || n == 14
  }

  /** Thirteen buckets: a page that opens a surah gets that surah's header and
      a basmala at the top (even for surah 9); otherwise the page announces
      the next surah with its header at the bottom, and a basmala unless the
      next surah is 9. */
  function FixThirteen(lines: seq<Bucket>, verses: seq<Verse>, surahs: seq<SurahRecord>): (r: seq<Bucket>)
    requires |verses| > 0
    ensures |r| == |lines| + 1 || |r| == |lines| + 2
  {
    var first := verses[0];
    if first.verseNumber == 1 then
      [HeaderBucket(surahs, first.surah), BasmalaBucket] + lines
    else
      lines + OpeningBuckets(surahs, verses[|verses| - 1].surah + 1)
  }

  /** Fourteen buckets: a basmala at the top of a page that opens a surah
      other than 9; the header of surah 9 at the top of a page of surah 9;
      otherwise the header of the last verse's surah at the bottom. */
  function FixFourteen(lines: seq<Bucket>, verses: seq<Verse>, surahs: seq<SurahRecord>): (r: seq<Bucket>)
    requires |verses| > 0
    ensures |r| == |lines| + 1
  {
    var first := verses[0];
    if first.verseNumber == 1 && first.surah != 9 then
      [BasmalaBucket] + lines
    else if first.surah == 9 then
      [HeaderBucket(surahs, first.surah)] + lines
    else
      lines + [HeaderBucket(surahs, verses[|verses| - 1].surah)]
  }

  /** Six or seven buckets (the two opening pages): the first verse's
      surah header on top, followed by a basmala on page 2. */
  function FixOpeningPage(lines: seq<Bucket>, verses: seq<Verse>, page: int, surahs: seq<SurahRecord>): seq<Bucket>
    requires |verses| > 0
  {
    [HeaderBucket(surahs, verses[0].surah)] + (if page == 2 then [BasmalaBucket] else []) + lines
  }

  /** The `13` / `14` branch, then the separate `6` / `7` test on the
      count that branch leaves. Reading `verses[0]` of an empty page throws. */
  function Correct(lines: seq<Bucket>, verses: seq<Verse>, page: int, surahs: seq<SurahRecord>): (r: Result<seq<Bucket>>)
    ensures r.Err? <==> |verses| == 0 && NeedsCorrection(|lines|)
    ensures r.Err? ==> r.failure == NoFirstVerse
  {
    if !NeedsCorrection(|lines|) then Ok(lines)
    else if |verses| == 0 then Err(NoFirstVerse)
    else
      var fixed :=
        if |lines| == 13 then FixThirteen(lines, verses, surahs)
        else if |lines| == 14 then FixFourteen(lines, verses, surahs)
        else lines;
      Ok(if |fixed| == 6 || |fixed| == 7 then FixOpeningPage(fixed, verses, page, surahs) else fixed)
  }

  /* ------------------------------ properties ------------------------------ */

  /** A bucket holding one header or basmala and nothing else. */
  predicate SingleMarker(b: Bucket) {
    |b| == 1 && b[0].MarkerEntry?
  }

  predicate AllSingleMarkers(bs: seq<Bucket>) {
    forall i :: 0 <= i < |bs| ==> SingleMarker(bs[i])
  }

  /** The buckets a correction adds above and below the page's buckets. */
  datatype Frame = Frame(above: seq<Bucket>, below: seq<Bucket>)

  /** The corrections as one table of cases on the bucket count, an
      independent reading of the two-step code. */
  function AddedAround(n: nat, verses: seq<Verse>, page: int, surahs: seq<SurahRecord>): Frame
    requires |verses| > 0
  {
    var first := verses[0];
    var last := verses[|verses| - 1].surah;
    var h := HeaderBucket(surahs, first.surah);
    if n == 13 && first.verseNumber == 1 then Frame([h, BasmalaBucket], [])
    else if n == 13 then Frame([], OpeningBuckets(surahs, last + 1))
    else if n == 14 && first.verseNumber == 1 && first.surah != 9 then Frame([BasmalaBucket], [])
    else if n == 14 && first.surah == 9 then Frame([h], [])
    else if n == 14 then Frame([], [HeaderBucket(surahs, last)])
    else if n == 6 || n == 7 then Frame([h] + (if page == 2 then [BasmalaBucket] else []), [])
    else Frame([], [])
  }

  lemma ThirteenIsAdded(lines: seq<Bucket>, verses: seq<Verse>, page: int, surahs: seq<SurahRecord>)
    requires |verses| > 0 && |lines| == 13
    ensures var f := AddedAround(|lines|, verses, page, surahs);
      Correct(lines, verses, page, surahs).value == f.above + lines + f.below
  {
    var fixed := FixThirteen(lines, verses, surahs);
    assert Correct(lines, verses, page, surahs).value == fixed;
    if verses[0].verseNumber == 1 {
      assert fixed == [HeaderBucket(surahs, verses[0].surah), BasmalaBucket] + lines + [];
    } else {
      assert fixed == [] + lines + OpeningBuckets(surahs, verses[|verses| - 1].surah + 1);
    }
  }

  lemma FourteenIsAdded(lines: seq<Bucket>, verses: seq<Verse>, page: int, surahs: seq<SurahRecord>)
    requires |verses| > 0 && |lines| == 14
    ensures var f := AddedAround(|lines|, verses, page, surahs);
      Correct(lines, verses, page, surahs).value == f.above + lines + f.below
  {
    var fixed := FixFourteen(lines, verses, surahs);
    assert Correct(lines, verses, page, surahs).value == fixed;
    var first := verses[0];
    if (first.verseNumber == 1 && first.surah != 9) || first.surah == 9 {
      assert fixed == [fixed[0]] + lines + [];
    } else {
      assert fixed == [] + lines + [HeaderBucket(surahs, verses[|verses| - 1].surah)];
    }
  }

  /** The two-step code agrees with the table of cases: the page's buckets,
      untouched, between the buckets added above and below. */
  lemma CorrectIsAdded(lines: seq<Bucket>, verses: seq<Verse>, page: int, surahs: seq<SurahRecord>)
    requires |verses| > 0
    ensures var f := AddedAround(|lines|, verses, page, surahs);
      Correct(lines, verses, page, surahs) == Ok(f.above + lines + f.below)
  {
    if |lines| == 13 {
      ThirteenIsAdded(lines, verses, page, surahs);
    } else if |lines| == 14 {
      FourteenIsAdded(lines, verses, page, surahs);
    } else if |lines| == 6 || |lines| == 7 {
      OpeningIsAdded(lines, verses, page, surahs);
    } else {
      assert [] + lines + [] == lines;
    }
  }

  lemma OpeningIsAdded(lines: seq<Bucket>, verses: seq<Verse>, page: int, surahs: seq<SurahRecord>)
    requires |verses| > 0 && (|lines| == 6 || |lines| == 7)
    ensures var f := AddedAround(|lines|, verses, page, surahs);
      Correct(lines, verses, page, surahs).value == f.above + lines + f.below
  {
    var f := AddedAround(|lines|, verses, page, surahs);
    assert Correct(lines, verses, page, surahs).value == f.above + lines;
    assert f.above + lines + [] == f.above + lines;
  }

  /** What the table adds: only single header or basmala buckets, at most
      two of them, and some exactly when the count is 6, 7, 13 or 14. */
  lemma AddedAreMarkers(n: nat, verses: seq<Verse>, page: int, surahs: seq<SurahRecord>)
    requires |verses| > 0
    ensures var f := AddedAround(n, verses, page, surahs);
      && AllSingleMarkers(f.above) && AllSingleMarkers(f.below)
      && |f.above| + |f.below| <= 2
      && (|f.above| + |f.below| > 0 <==> NeedsCorrection(n))
  {
  }

  /** Every correction adds whole header or basmala buckets around the page's
      buckets and nothing else: at most two, and some exactly when the
      bucket count is 6, 7, 13 or 14. */
  lemma CorrectFrames(lines: seq<Bucket>, verses: seq<Verse>, page: int, surahs: seq<SurahRecord>)
    requires |verses| > 0
    ensures var r := Correct(lines, verses, page, surahs).value;
      var f := AddedAround(|lines|, verses, page, surahs);
      && r == f.above + lines + f.below
      && AllSingleMarkers(f.above) && AllSingleMarkers(f.below)
      && |lines| <= |r| <= |lines| + 2
      && (|r| > |lines| <==> NeedsCorrection(|lines|))
  {
    CorrectIsAdded(lines, verses, page, surahs);
    AddedAreMarkers(|lines|, verses, page, surahs);
  }

  /** At most one correction applies: the 13 and 14 fixes leave 14 or 15
      buckets, never the 6 or 7 that trigger the opening-page fix. */
  lemma AtMostOneCorrection(lines: seq<Bucket>, verses: seq<Verse>, page: int, surahs: seq<SurahRecord>)
    requires |verses| > 0 && (|lines| == 13 || |lines| == 14)
    ensures var r := Correct(lines, verses, page, surahs).value;
      && (|r| == 14 || |r| == 15)
      && (|lines| == 14 ==> |r| == 15)
  {
    CorrectIsAdded(lines, verses, page, surahs);
  }

  /** The header a page starting a surah on thirteen buckets receives, and
      the basmala under it. */
  lemma ThirteenOpeningSurah(lines: seq<Bucket>, verses: seq<Verse>, page: int, surahs: seq<SurahRecord>)
    requires |lines| == 13 && |verses| > 0 && verses[0].verseNumber == 1
    ensures var r := Correct(lines, verses, page, surahs).value;
      && |r| == 15 && r[2..] == lines
      && r[0] == [MarkerEntry(HeaderFor(surahs, verses[0].surah))]
      && r[1] == [MarkerEntry(Basmala(BasmalaGlyphV2, BasmalaGlyphV1))]
  {
    CorrectIsAdded(lines, verses, page, surahs);
    var r := Correct(lines, verses, page, surahs).value;
    assert r[2..] == lines;
  }

  /** A page announcing the next surah on thirteen buckets: the header of the
      surah after the last verse's at the bottom, and a basmala after it
      unless that surah is 9. */
  lemma ThirteenAnnouncingSurah(lines: seq<Bucket>, verses: seq<Verse>, page: int, surahs: seq<SurahRecord>)
    requires |lines| == 13 && |verses| > 0 && verses[0].verseNumber != 1
    ensures var r := Correct(lines, verses, page, surahs).value;
      var next := verses[|verses| - 1].surah + 1;
      && r[..13] == lines
      && r[13] == [MarkerEntry(HeaderFor(surahs, next))]
      && (next != 9 <==> |r| == 15)
      && (next != 9 ==> r[14] == [MarkerEntry(BasmalaMarker)])
  {
    ThirteenIsAdded(lines, verses, page, surahs);
    var r := Correct(lines, verses, page, surahs).value;
    var ob := OpeningBuckets(surahs, verses[|verses| - 1].surah + 1);
    assert r == lines + ob;
    assert r[..13] == lines;
    assert r[13] == ob[0];
  }

  /** The three fourteen-bucket cases, each adding one bucket. */
  lemma FourteenCases(lines: seq<Bucket>, verses: seq<Verse>, page: int, surahs: seq<SurahRecord>)
    requires |lines| == 14 && |verses| > 0
    ensures var r := Correct(lines, verses, page, surahs).value;
      var first := verses[0];
      && |r| == 15
      && (first.verseNumber == 1 && first.surah != 9 ==> r[0] == BasmalaBucket && r[1..] == lines)
      && (first.surah == 9 ==> r[0] == [MarkerEntry(HeaderFor(surahs, 9))] && r[1..] == lines)
      && (first.verseNumber != 1 && first.surah != 9 ==>
            r[..14] == lines && r[14] == [MarkerEntry(HeaderFor(surahs, verses[|verses| - 1].surah))])
  {
    var r := Correct(lines, verses, page, surahs).value;
    var first := verses[0];
    if (first.verseNumber == 1 && first.surah != 9) || first.surah == 9 {
      assert r[1..] == lines;
    } else {
      assert r[..14] == lines;
    }
  }

  /** The opening pages: the first verse's surah header, then a basmala on
      page 2 only, then the page's buckets. */
  lemma OpeningPageCases(lines: seq<Bucket>, verses: seq<Verse>, page: int, surahs: seq<SurahRecord>)
    requires (|lines| == 6 || |lines| == 7) && |verses| > 0
    ensures var r := Correct(lines, verses, page, surahs).value;
      var k := if page == 2 then 2 else 1;
      && |r| == |lines| + k && r[k..] == lines
      && r[0] == [MarkerEntry(HeaderFor(surahs, verses[0].surah))]
      && (page == 2 ==> r[1] == BasmalaBucket)
  {
    var r := Correct(lines, verses, page, surahs).value;
    var k := if page == 2 then 2 else 1;
    assert r[k..] == lines;
  }

  lemma {:induction false} SingleMarkersHoldNoWords(bs: seq<Bucket>)
    requires AllSingleMarkers(bs)
    ensures WordsIn(bs) == [] && MarkerCount(bs) == |bs|
  {
    if |bs| > 0 {
      assert BucketWords(bs[0]) == [];
      assert AllSingleMarkers(bs[1..]) by {
        forall i | 0 <= i < |bs| - 1
          ensures SingleMarker(bs[1..][i])
        {
          assert bs[1..][i] == bs[i + 1];
        }
      }
      SingleMarkersHoldNoWords(bs[1..]);
    }
  }

  /** Putting single-marker buckets around a list keeps its words and its
      shape, adds one marker per bucket and no empty bucket. */
  lemma {:induction false} FramedContents(above: seq<Bucket>, lines: seq<Bucket>, below: seq<Bucket>)
    requires AllSingleMarkers(above) && AllSingleMarkers(below)
    ensures var r := above + lines + below;
      && WordsIn(r) == WordsIn(lines)
      && MarkerCount(r) == MarkerCount(lines) + |above| + |below|
      && (AllShaped(lines) ==> AllShaped(r))
      && (NoEmptyBucket(lines) ==> NoEmptyBucket(r))
  {
    var r := above + lines + below;
    SingleMarkersHoldNoWords(above);
    SingleMarkersHoldNoWords(below);
    Split3(above, lines, below);
    assert WordsIn(r) == [] + WordsIn(lines) + [];
    forall i | 0 <= i < |r|
      ensures i < |above| ==> SingleMarker(r[i])
      ensures |above| <= i < |above| + |lines| ==> r[i] == lines[i - |above|]
      ensures |above| + |lines| <= i ==> SingleMarker(r[i])
    {
      if i < |above| {
        assert r[i] == above[i];
      } else if |above| + |lines| <= i {
        assert r[i] == below[i - |above| - |lines|];
      }
    }
  }

  /** Corrections keep the words (in order) and the shape invariant, add
      only marker buckets, and never add an empty bucket. */
  lemma CorrectKeepsContents(lines: seq<Bucket>, verses: seq<Verse>, page: int, surahs: seq<SurahRecord>)
    requires |verses| > 0
    ensures var r := Correct(lines, verses, page, surahs).value;
      && WordsIn(r) == WordsIn(lines)
      && MarkerCount(r) == MarkerCount(lines) + (|r| - |lines|)
      && (AllShaped(lines) ==> AllShaped(r))
      && (NoEmptyBucket(lines) ==> NoEmptyBucket(r))
  {
    var f := AddedAround(|lines|, verses, page, surahs);
    CorrectFrames(lines, verses, page, surahs);
    FramedContents(f.above, lines, f.below);
  }

  /** Thirteen buckets on a page opening surah 9: the page still gets a
      basmala under the header, although at a change of surah inside a page
      no basmala is pushed before surah 9. */
  lemma ThirteenKeepsBasmalaForSurahNine(lines: seq<Bucket>, verses: seq<Verse>, page: int, surahs: seq<SurahRecord>)
    requires |lines| == 13 && |verses| > 0 && verses[0].surah == 9 && verses[0].verseNumber == 1
    ensures Correct(lines, verses, page, surahs).value[1] == BasmalaBucket
    ensures OpeningBuckets(surahs, 9) == [HeaderBucket(surahs, 9)]
  {
  }
}
