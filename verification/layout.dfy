/**
 * The records the line assembler reads, builds and emits: the page input
 * (verses of positioned words), the transient line buckets, and the
 * finalised line records.
 */
module Layout {
  import opened Strings
  import opened Providers

  /* --------------------------------- input --------------------------------- */

  /** One entry of a verse's `words` array in a page file. `line` is the
      line of the printed page the word sits on; `qpc` is its QPC v2 glyph. */
  datatype RawWord = RawWord(text: string, qpc: string, line: int, position: int, location: string)

  /** One entry of a page file's `verses` array. */
  datatype Verse = Verse(surah: int, verseNumber: int, words: seq<RawWord>)

  /* ------------------------------ line buckets ------------------------------ */

  /** A word as placed in a bucket (`WordItem`). */
  datatype WordItem = WordItem(
    location: string,
    word: string,
    qpcV2: string,
    qpcV1: string,
    surah: int,
    verse: int,
    position: int,
    isVerseEnd: bool)

  /** The non-text line records (`NonTextItem`). */
  datatype Marker =
    | SurahHeader(text: string, surah: string)
    | Basmala(qpcV2: string, qpcV1: string)

  datatype Item = WordEntry(w: WordItem) | MarkerEntry(m: Marker)

  /** A line bucket is an array of items. A bucket that starts with a marker
      may receive words after it (see `Placement.PlaceWord`). */
  type Bucket = seq<Item>

  predicate IsMarkerBucket(b: Bucket) {
    |b| > 0 && b[0].MarkerEntry?
  }

  /** Every item after the first is a word: a bucket is empty, all words,
      or one marker followed by words. */
  predicate Shaped(b: Bucket) {
    forall i :: 1 <= i < |b| ==> b[i].WordEntry?
  }

  predicate AllShaped(lines: seq<Bucket>) {
    forall i :: 0 <= i < |lines| ==> Shaped(lines[i])
  }

  /** The header record for surah `n`: its name and its id padded to three digits. */
  function HeaderFor(surahs: seq<SurahRecord>, n: int): (m: Marker)
    ensures m.SurahHeader? && m.text == SurahName(surahs, n)
    ensures n >= 0 ==> |m.surah| >= 3 && AllDigits(m.surah) && ParseDecimal(m.surah) == n
    ensures 0 <= n < 1000 ==> |m.surah| == 3
  {
    var id := PadStart(IntToString(n), 3, '0');
    assert n >= 0 ==> AllDigits(id) && ParseDecimal(id) == n by {
      if n >= 0 {
        PaddedNumberDenotes(n, 3);
      }
    }
    assert 0 <= n < 1000 ==> |id| == 3 by {
      if 0 <= n < 1000 {
        ShortNatToString(n);
      }
    }
    SurahHeader(SurahName(surahs, n), id)
  }

  /** The header id of a non-negative surah number is its decimal rendering
      with zeros in front, exactly as many as bring it to three characters
      (none for a number of three digits or more). */
  lemma HeaderIdDigits(surahs: seq<SurahRecord>, n: nat)
    ensures var id := HeaderFor(surahs, n).surah;
      var d := NatToString(n);
      var pad := if |d| >= 3 then 0 else 3 - |d|;
      && |id| == |d| + pad
      && id[pad..] == d
      && forall i :: 0 <= i < pad ==> id[i] == '0'
  {
    PadStartSpec(NatToString(n), 3, '0');
  }

  /** The basmala record, carrying the fixed glyphs of both font versions. */
  const BasmalaMarker: Marker := Basmala(BasmalaGlyphV2, BasmalaGlyphV1)

  function HeaderBucket(surahs: seq<SurahRecord>, n: int): Bucket {
    [MarkerEntry(HeaderFor(surahs, n))]
  }

  const BasmalaBucket: Bucket := [MarkerEntry(BasmalaMarker)]

  /* --------------------------------- output --------------------------------- */

  /** One entry of a text line's `words` array. */
  datatype OutWord = OutWord(location: string, word: string, qpcV2: string, qpcV1: string)

  /** What `buildTextLinePayload` returns for a non-empty word list. */
  datatype TextPayload = TextPayload(text: string, verseRange: string, words: seq<OutWord>)

  datatype LineContent = MarkerLine(marker: Marker) | TextLine(payload: TextPayload)

  /** A finalised line record: its 1-based number and its content. */
  datatype OutputLine = OutputLine(line: int, content: LineContent)

  /* --------------------------------- errors --------------------------------- */

  /** The ways the assembler throws.
      `LineIndexBeforePage`: a word's target index is negative, so the
      bucket it is pushed to is `undefined`.
      `NoFirstVerse`: a correction reads `verses[0]` of an empty page. */
  datatype Failure = LineIndexBeforePage(target: int) | NoFirstVerse

  datatype Result<T> = Ok(value: T) | Err(failure: Failure)

  datatype Option<T> = None | Some(value: T)
}
