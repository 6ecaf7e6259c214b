/**
 * The two lookup services the line assembler consults, with their loaded
 * tables passed in as values: `QPCFontProvider` (word glyphs of the QPC v1
 * font, the fixed basmala glyphs) and `ArabicService.getSurahName`.
 */
module Providers {

  /** A glyph table is keyed by `"surah:verse:position"`; the three integers
      stand for that key (the rendering of three integers joined by `:` is
      injective, so nothing is lost). */
  type GlyphKey = (int, int, int)
  type GlyphTable = map<GlyphKey, string>

  /** `getWordGlyph`: the table entry, or `""` when the key is missing
      (a table that failed to load is the empty map). An entry that is
      itself `""` also yields `""`, as `|| ""` does. */
  function WordGlyph(table: GlyphTable, surah: int, verse: int, position: int): (g: string)
    ensures (surah, verse, position) !in table ==> g == ""
  {
    if (surah, verse, position) in table then table[(surah, verse, position)] else ""
  }

  /** `getBasmalaGlyph("2")`: the three QPC v2 basmala glyphs. */
  const BasmalaGlyphV2: string := "\U{FB51}\U{FB52}\U{FB53}"

  /** `getBasmalaGlyph("1")`: the QPC v1 basmala glyphs. */
  const BasmalaGlyphV1: string := "#\"!"

  /** The loaded tables the assembler reads: `surahs.json` and the QPC v1
      word glyphs (the v2 table is never consulted by the assembler). */
  datatype Tables = Tables(surahs: seq<SurahRecord>, qpcV1: GlyphTable)

  /** One entry of `surahs.json`. */
  datatype SurahRecord = SurahRecord(id: int, arabicLong: string)

  predicate HasId(surahs: seq<SurahRecord>, id: int) {
    exists i :: 0 <= i < |surahs| && surahs[i].id == id
  }

  /** `getSurahName`: `""` when no record carries the id. */
  function SurahName(surahs: seq<SurahRecord>, id: int): (name: string)
    ensures !HasId(surahs, id) ==> name == ""
  {
    if |surahs| == 0 then ""
    else if surahs[0].id == id then surahs[0].arabicLong
    else SurahName(surahs[1..], id)
  }

  /** When records carry the id, the name is that of the FIRST of them,
      as `Array.prototype.find` returns. */
  lemma {:induction false} SurahNameIsFirstMatch(surahs: seq<SurahRecord>, id: int, i: nat)
    requires i < |surahs| && surahs[i].id == id
    requires forall j :: 0 <= j < i ==> surahs[j].id != id
    ensures SurahName(surahs, id) == surahs[i].arabicLong
  {
    if i > 0 {
      SurahNameIsFirstMatch(surahs[1..], id, i - 1);
    }
  }
}
