/**
 * Verse ingestion: folding the verse-number ornament (the synthetic last
 * entry of a multi-word verse) into the word before it, and turning each
 * remaining entry into the `WordItem` that is placed in a line bucket.
 */
module VerseMerge {
  import opened Strings
  import opened Numerals
  import opened Providers
  import opened Layout

  /** An entry of the verse's working copy: the raw word (its `qpc` possibly
      merged), the v1 numeral glyph to append (`__appendV1`, `""` when none)
      and whether it ends the verse (`__isVerseEnd`). */
  datatype Staged = Staged(word: RawWord, appendV1: string, verseEnd: bool)

  function Unmarked(ws: seq<RawWord>): (r: seq<Staged>)
    ensures |r| == |ws|
    ensures forall i :: 0 <= i < |ws| ==> r[i] == Staged(ws[i], "", false)
  {
    seq(|ws|, i requires 0 <= i < |ws| => Staged(ws[i], "", false))
  }

  /** The two words agree on everything but their QPC v2 glyph. */
  predicate SameButQpc(a: RawWord, b: RawWord) {
    a.text == b.text && a.line == b.line && a.position == b.position && a.location == b.location
  }

  /** The QPC v2 glyph of the word before the ornament after merging: both
      glyphs space-joined and trimmed when both are non-empty (truthy),
      otherwise the word's own glyph. */
  function MergedQpc(prev: string, ornament: string): string {
    if prev != "" && ornament != "" then Trim(prev + " " + ornament) else prev
  }

  /** The number of a verse's words that survive the ornament merge. */
  function KeptCount(v: Verse): nat {
    if |v.words| > 1 then |v.words| - 1 else |v.words|
  }

  /** The working copy of a verse's words after the ornament merge. */
  function MergeVerseNumber(v: Verse, v1: GlyphTable): (r: seq<Staged>)
    // a multi-word verse loses exactly its last entry; a single-word verse keeps all
    ensures |r| == KeptCount(v)
    // entries keep their order and everything but the v2 glyph
    ensures forall i :: 0 <= i < |r| ==> SameButQpc(r[i].word, v.words[i])
    // only the entry before the ornament is touched
    ensures forall i :: 0 <= i < |r| && !(|v.words| > 1 && i == |r| - 1) ==> r[i] == Staged(v.words[i], "", false)
    // and it takes the ornament's glyph, the v1 numeral glyph and the verse-end mark
    ensures |v.words| > 1 ==>
      var n := |v.words|;
      && r[n - 2].verseEnd
      && r[n - 2].word.qpc == MergedQpc(v.words[n - 2].qpc, v.words[n - 1].qpc)
      && r[n - 2].appendV1 == WordGlyph(v1, v.surah, v.verseNumber, v.words[n - 2].position + 2)
  {
    var n := |v.words|;
    if n > 1 then
      var prev := v.words[n - 2];
      var last := v.words[n - 1];
      var endGlyphV1 := WordGlyph(v1, v.surah, v.verseNumber, prev.position + 2);
      Unmarked(v.words[..n - 2]) + [Staged(prev.(qpc := MergedQpc(prev.qpc, last.qpc)), endGlyphV1, true)]
    else
      Unmarked(v.words)
  }

  function CountVerseEnds(ss: seq<Staged>): nat {
    if |ss| == 0 then 0 else (if ss[0].verseEnd then 1 else 0) + CountVerseEnds(ss[1..])
  }

  lemma {:induction false} NoVerseEnds(ss: seq<Staged>)
    requires forall i :: 0 <= i < |ss| ==> !ss[i].verseEnd
    ensures CountVerseEnds(ss) == 0
  {
    if |ss| > 0 {
      NoVerseEnds(ss[1..]);
    }
  }

  lemma {:induction false} CountVerseEndsAppend(a: seq<Staged>, b: seq<Staged>)
    ensures CountVerseEnds(a + b) == CountVerseEnds(a) + CountVerseEnds(b)
  {
    if |a| > 0 {
      assert (a + b)[1..] == a[1..] + b;
      CountVerseEndsAppend(a[1..], b);
    } else {
      assert a + b == b;
    }
  }

  /** Every multi-word verse yields exactly one verse-end word, its last;
      a single-word (or empty) verse yields none. */
  lemma VerseEndIsUniqueAndLast(v: Verse, v1: GlyphTable)
    ensures var r := MergeVerseNumber(v, v1);
      && CountVerseEnds(r) == (if |v.words| > 1 then 1 else 0)
      && forall i :: 0 <= i < |r| ==> (r[i].verseEnd <==> |v.words| > 1 && i == |r| - 1)
  {
    var r := MergeVerseNumber(v, v1);
    if |v.words| > 1 {
      var n := |v.words|;
      assert r == r[..n - 2] + [r[n - 2]];
      NoVerseEnds(r[..n - 2]);
      CountVerseEndsAppend(r[..n - 2], [r[n - 2]]);
      assert CountVerseEnds([r[n - 2]]) == 1;
    } else {
      NoVerseEnds(r);
    }
  }

  /** The QPC v1 glyph with the numeral glyph appended (space-joined when
      the numeral glyph is non-empty), trimmed. */
  function V1Glyph(own: string, append: string): string {
    Trim(own + (if append != "" then " " + append else ""))
  }

  /** The `WordItem` built for one working-copy entry of verse `v`. */
  function MakeWordItem(v: Verse, s: Staged, v1: GlyphTable): (w: WordItem)
    ensures w.location == s.word.location && w.qpcV2 == s.word.qpc
    ensures w.surah == v.surah && w.verse == v.verseNumber && w.position == s.word.position
    ensures w.isVerseEnd == s.verseEnd
    ensures w.word == if s.verseEnd then s.word.text + " " + VerseNumeral(v.verseNumber) else s.word.text
    ensures w.qpcV1 == V1Glyph(WordGlyph(v1, v.surah, v.verseNumber, s.word.position), s.appendV1)
  {
    var own := WordGlyph(v1, v.surah, v.verseNumber, s.word.position);
    var text := if s.verseEnd then s.word.text + " " + VerseNumeral(v.verseNumber) else s.word.text;
    WordItem(s.word.location, text, s.word.qpc, V1Glyph(own, s.appendV1),
             v.surah, v.verseNumber, s.word.position, s.verseEnd)
  }

  /** The word items a verse contributes, in order. */
  function VerseItems(v: Verse, v1: GlyphTable): (items: seq<WordItem>)
    ensures |items| == |MergeVerseNumber(v, v1)|
    ensures forall i :: 0 <= i < |items| ==> items[i] == MakeWordItem(v, MergeVerseNumber(v, v1)[i], v1)
  {
    var staged := MergeVerseNumber(v, v1);
    seq(|staged|, i requires 0 <= i < |staged| => MakeWordItem(v, staged[i], v1))
  }

  /** An entry the merge left alone becomes a plain word item: the word's
      own text, v2 glyph, location and position, its own v1 glyph trimmed,
      and no verse-end mark. */
  lemma PlainItem(v: Verse, w: RawWord, v1: GlyphTable)
    ensures MakeWordItem(v, Staged(w, "", false), v1)
      == WordItem(w.location, w.text, w.qpc, Trim(WordGlyph(v1, v.surah, v.verseNumber, w.position)),
                  v.surah, v.verseNumber, w.position, false)
  {
    var own := WordGlyph(v1, v.surah, v.verseNumber, w.position);
    assert own + "" == own;
  }

  /** A verse yields one word item per kept word, and every item but the
      verse end is its word unchanged: same text, v2 glyph, location and
      position, the word's own v1 glyph trimmed, and no verse-end mark. */
  lemma PlainWordItems(v: Verse, v1: GlyphTable)
    ensures var items := VerseItems(v, v1);
      && |items| == KeptCount(v)
      && forall i :: 0 <= i < |items| && !(|v.words| > 1 && i == |items| - 1) ==>
        items[i] == WordItem(v.words[i].location, v.words[i].text, v.words[i].qpc,
                             Trim(WordGlyph(v1, v.surah, v.verseNumber, v.words[i].position)),
                             v.surah, v.verseNumber, v.words[i].position, false)
  {
    var items := VerseItems(v, v1);
    var staged := MergeVerseNumber(v, v1);
    forall i | 0 <= i < |items| && !(|v.words| > 1 && i == |items| - 1)
      ensures items[i] == WordItem(v.words[i].location, v.words[i].text, v.words[i].qpc,
                                   Trim(WordGlyph(v1, v.surah, v.verseNumber, v.words[i].position)),
                                   v.surah, v.verseNumber, v.words[i].position, false)
    {
      assert staged[i] == Staged(v.words[i], "", false);
      PlainItem(v, v.words[i], v1);
    }
  }

  /** The last word item of a multi-word verse is its verse-end word: the
      text of the entry before the ornament followed by a space and the
      verse numeral, and its own v1 glyph followed by the glyph two
      positions further on. */
  lemma VerseEndItem(v: Verse, v1: GlyphTable)
    requires |v.words| > 1
    ensures var items := VerseItems(v, v1);
      var prev := v.words[|v.words| - 2];
      var w := items[|items| - 1];
      && w.isVerseEnd
      && w.location == prev.location && w.position == prev.position
      && w.word == prev.text + " " + VerseNumeral(v.verseNumber)
      && w.qpcV1 == V1Glyph(WordGlyph(v1, v.surah, v.verseNumber, prev.position),
                            WordGlyph(v1, v.surah, v.verseNumber, prev.position + 2))
  {
    var n := |v.words|;
    var staged := MergeVerseNumber(v, v1);
    var last := staged[n - 2];
    var prev := v.words[n - 2];
    assert last.verseEnd && last.appendV1 == WordGlyph(v1, v.surah, v.verseNumber, prev.position + 2);
    assert SameButQpc(last.word, prev);
    var w := MakeWordItem(v, last, v1);
    assert VerseItems(v, v1)[n - 2] == w;
  }

  /** The verse numeral a verse-end word ends with reads back, through the
      reverse transliteration, as the verse number. */
  lemma VerseEndWordText(v: Verse, v1: GlyphTable)
    requires |v.words| > 1 && v.verseNumber >= 0
    ensures var items := VerseItems(v, v1);
      var w := items[|items| - 1];
      var d := VerseNumeral(v.verseNumber);
      && w.word == v.words[|v.words| - 2].text + " " + d
      && AllDigits(ArabicToLatinNumbers(d))
      && ParseDecimal(ArabicToLatinNumbers(d)) == v.verseNumber
  {
    VerseEndItem(v, v1);
    VerseNumeralDenotes(v.verseNumber);
  }

  /** With glyphs that carry no surrounding whitespace, the merged v1 glyph
      is the two glyphs joined by one space. */
  lemma V1GlyphOfClean(g: string, e: string)
    requires Clean(g) && Clean(e)
    ensures V1Glyph(g, e) == g + " " + e
  {
    var s := g + " " + e;
    assert g + (" " + e) == s;
    assert s[0] == g[0] && s[|s| - 1] == e[|e| - 1];
    TrimOfClean(s);
  }

  /** For a verse-end word whose glyph-table entries carry no surrounding
      whitespace, the v1 glyph is the word's own glyph, a space, and the
      glyph found two positions further on (the numeral's). */
  lemma VerseEndV1Glyph(v: Verse, v1: GlyphTable)
    requires |v.words| > 1
    requires var p := v.words[|v.words| - 2].position;
      Clean(WordGlyph(v1, v.surah, v.verseNumber, p)) && Clean(WordGlyph(v1, v.surah, v.verseNumber, p + 2))
    ensures var items := VerseItems(v, v1);
      var p := v.words[|v.words| - 2].position;
      items[|items| - 1].qpcV1
        == WordGlyph(v1, v.surah, v.verseNumber, p) + " " + WordGlyph(v1, v.surah, v.verseNumber, p + 2)
  {
    var p := v.words[|v.words| - 2].position;
    var g, e := WordGlyph(v1, v.surah, v.verseNumber, p), WordGlyph(v1, v.surah, v.verseNumber, p + 2);
    var n := |v.words|;
    var last := MergeVerseNumber(v, v1)[n - 2];
    assert last.appendV1 == e && last.word.position == p;
    ItemGlyphOfClean(v, last, v1);
    assert VerseItems(v, v1)[n - 2] == MakeWordItem(v, last, v1);
  }

  lemma ItemGlyphOfClean(v: Verse, s: Staged, v1: GlyphTable)
    requires Clean(WordGlyph(v1, v.surah, v.verseNumber, s.word.position)) && Clean(s.appendV1)
    ensures MakeWordItem(v, s, v1).qpcV1 == WordGlyph(v1, v.surah, v.verseNumber, s.word.position) + " " + s.appendV1
  {
    V1GlyphOfClean(WordGlyph(v1, v.surah, v.verseNumber, s.word.position), s.appendV1);
  }

  /** A single-word verse yields one plain word: no numeral is appended. */
  lemma SingleWordVerseHasNoSuffix(v: Verse, v1: GlyphTable)
    requires |v.words| == 1
    ensures var items := VerseItems(v, v1);
      |items| == 1 && !items[0].isVerseEnd && items[0].word == v.words[0].text
  {
  }
}
