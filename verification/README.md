# mushaf-layout line assembler in Dafny

This project models `generateLines` from `src/index.ts` of mushaf-layout
together with its helpers. `generateLines` turns one page of the Quran into
the ordered list of lines a mushaf page shows. Its input is the page's
verses; each verse carries its words with their QPC glyphs and the page line
each word sits on. The output is one record per line:

- a surah header (`surah-header`, with the surah's Arabic name and its number
  padded to three digits);
- a basmala (the fixed QPC v1 and v2 glyphs);
- or a text line, holding the joined text, the verse range and the
  per-word glyph records.

The model follows the code step by step. Every step is a pure function over
immutable datatypes.

1. **Verse-number merge** (`VerseMerge`). In a verse with more than one
   entry, the last entry is the verse-number ornament. Its v2 glyph is folded
   into the word before it, that word is marked as the verse end, and the
   ornament is dropped. The verse-end word's text gets the verse number in
   Arabic-Indic digits (`Numerals`). Its v1 glyph gets the glyph found at
   position + 2.
2. **Bucket placement** (`Placement`). At each change of surah, a header
   bucket is pushed, followed by a basmala bucket unless the new surah is 9.
   Each push bumps a running line offset. Every word then goes to bucket
   `line + offset`, and the list grows with empty buckets as needed. If the
   target bucket starts with a header or basmala, an empty bucket is spliced
   in after it, but the word is still pushed onto the marker's bucket.
3. **Corrections** (`Corrections`). Empty buckets are filtered out. Pages
   with exactly 13 or 14 buckets get a header and/or basmala added at the
   top or bottom. Then, separately, pages with 6 or 7 buckets get the first
   surah's header on top, plus a basmala on page 2.
4. **Finalisation** (`Finalize`). Buckets are numbered from 1. A bucket
   starting with a marker becomes that marker's line, and anything behind
   the marker is dropped. A word bucket becomes a text payload, as
   `buildTextLinePayload` builds it.

`Generate.GenerateLines` chains the four steps. The JavaScript exceptions
the code can raise are modelled as `Failure` values:

- a word whose target index is negative is pushed onto `undefined`;
- a correction reads `verses[0]` of an empty page. This one is proved
  unreachable.

Some helpers mirror the JavaScript built-ins the code relies on (`Strings`):

- `trim`, over the JavaScript whitespace and line-terminator set;
- `join`;
- `padStart`;
- number-to-string conversion;
- a decimal reader, used to state round trips.

The surah list and the v1 glyph table are passed in as values (`Tables`).

The model follows what the code does, even where its comments or its
evident intent suggest otherwise:

- The comment at the marker check says a new text line is pushed for the
  word. The code does insert an empty bucket after the marker, but it pushes
  the word onto the marker bucket itself, so the word is lost at
  finalisation.
- The surah-change rule skips the basmala for surah 9. The 13-bucket
  "page opens a surah" correction has no such check and always adds one.

## Model

| member | source | states |
|---|---|---|
| Numerals.LatinToArabicSpec | src/index.ts:18-24 | Each ASCII digit becomes the Arabic-Indic digit of the same value, and every other character is kept in place |
| Numerals.RoundTrip | src/index.ts:18-24 | Transliterating back to ASCII digits restores any string that held no Arabic-Indic digit, so the transliteration loses nothing |
| Numerals.VerseNumeralDenotes | src/index.ts:18-24 | The numeral of a verse number is non-empty, all Arabic-Indic digits, free of whitespace, and reads back to the number |
| Providers.WordGlyph | src/index.ts:65-69 | A key missing from the glyph table yields the empty string |
| Providers.SurahNameIsFirstMatch | src/index.ts:27-32 | The surah name is that of the first record carrying the id (`find`) |
| Providers.SurahName | src/index.ts:31 | No record with the id gives the empty name |
| Layout.HeaderFor | src/index.ts:99-103 | A header carries the surah's name. For a non-negative surah number, its id string is all ASCII digits, reads back to the number, and is at least three characters long: exactly three for numbers below 1000 |
| Layout.HeaderIdDigits | src/index.ts:101 | The id is the number's decimal rendering preceded by exactly enough zeros to reach three characters, and by none when it already has three or more digits |
| Strings.PaddedNumberDenotes | src/index.ts:101 | Padding a number's decimal form with zeros on the left keeps it all digits and keeps its value |
| Strings.TrimSpec | src/index.ts:119 | `trim` returns the slice of the input between its leading and trailing whitespace runs, with no whitespace at either end |
| Strings.TrimIdempotent | src/index.ts:119 | Trimming twice is trimming once |
| Strings.JoinOfClean | src/index.ts:116-119 | Joining non-empty parts that have no edge whitespace gives a string that trimming leaves unchanged |
| VerseMerge.MergeVerseNumber | src/index.ts:161-178 | A multi-word verse loses exactly its last entry and a single-word verse keeps all. Order and all fields except the v2 glyph are kept. Only the entry before the ornament changes: it is marked verse end, gets the merged v2 glyph and the v1 glyph at position + 2 |
| VerseMerge.VerseEndIsUniqueAndLast | src/index.ts:161-178 | Exactly one verse-end entry in a multi-word verse, none in a single-word verse, and it is the last kept entry |
| VerseMerge.PlainWordItems | src/index.ts:182-209 | A verse yields one item per kept word. Every item except the verse end is its word unchanged: same location, text, v2 glyph and position, the verse's surah and number, the word's own v1 glyph trimmed, and no verse-end mark |
| VerseMerge.VerseEndItem | src/index.ts:161-178 | The last item of a multi-word verse is the verse end, sits at the word before the ornament, reads `text + " " + numeral`, and its v1 glyph joins the word's glyph with the glyph at position + 2 |
| VerseMerge.VerseEndWordText | src/index.ts:197 | The numeral appended to a verse-end word reads back to the verse number |
| VerseMerge.VerseEndV1Glyph | src/index.ts:194-195 | When both v1 glyphs are present and free of edge whitespace, the verse-end v1 glyph is exactly the two joined by one space |
| VerseMerge.SingleWordVerseHasNoSuffix | src/index.ts:161-178 | A single-word verse yields one item that is not a verse end and keeps its text |
| Placement.PlaceWord | src/index.ts:211 | Placing fails exactly when the target index is negative (the push then hits `undefined`), with that index as the failure |
| Placement.PlaceWordEffect | src/index.ts:183-192 | The list grows to cover the target, and the word is appended to the target bucket. Earlier buckets are unchanged or new empty ones. A marker target gets an empty bucket right after it and the later buckets shift by one; otherwise the later buckets stay put |
| Placement.PlaceWordInvariants | src/index.ts:183-211 | Placing one word keeps every bucket's shape (at most one leading marker) and the marker count, and adds exactly that word to the buckets' words |
| Placement.PlaceEntriesFailsIff | src/index.ts:182-212 | Placing a verse's words fails exactly when some word's line plus the offset is negative |
| Placement.VerseEntriesOfWords | src/index.ts:157-186 | A verse contributes one entry per kept word, in order: entry i carries the source line, location and position of word i, and the entries' items are the verse's word items |
| Placement.AddSurahHeader | src/index.ts:99-103 | Appends one header bucket for the surah after the existing buckets and bumps the offset by one |
| Placement.AddBasmala | src/index.ts:106-109 | Appends one basmala bucket after the existing buckets and bumps the offset by one |
| Placement.EnterVerse | src/index.ts:150-154 | Without a change of surah, buckets and offset are unchanged (so no header precedes the first verse). On a change, it appends the new surah's header, then a basmala unless the surah is 9, and raises the offset by the number of buckets added |
| Placement.EnterVerseCountsMarkers | src/index.ts:150-154 | The offset grows by exactly the number of marker buckets pushed, and no word is added |
| Placement.PlacementFromStart | src/index.ts:146-213 | After the verse loop, every bucket is well shaped, the final offset equals the number of marker buckets, and the buckets hold exactly the page's merged words as a multiset |
| Placement.SingleSurahPlacement | src/index.ts:146-211 | On a page of one surah whose kept words sit on lines 0 or more, the loop pushes no header or basmala and keeps the offset at 0. There is one bucket per line up to the highest, and bucket b holds exactly the words on line b, in page order |
| Placement.SpliceShiftsLaterWords | src/index.ts:183-192 | For example, with buckets `[[a], header, basmala]` and offset 2, a word on line 3 is placed at bucket 5; a later word on line 0 hits the basmala, and the splice moves the first word to bucket 6. The general shift is Placement.PlaceWordEffect's marker clause |
| Placement.EnterVerseMakesPair | src/index.ts:150-154 | At a change to a surah other than 9, the buckets end with that surah's header bucket immediately followed by a basmala bucket |
| Placement.PlaceWordOnMarkerHides | src/index.ts:186-211 | A word whose target bucket starts with a header or basmala ends up behind that marker |
| Placement.PlaceWordKeepsPair | src/index.ts:186-211 | Placing one word keeps a surah's header and basmala adjacent, unless some marker bucket now has a word behind it |
| Placement.PlaceVersesKeepsPair | src/index.ts:146-213 | The rest of the verse loop keeps that alternative: an adjacent header and basmala, or a word hidden behind a marker |
| Placement.SurahChangeLeavesPair | src/index.ts:146-213 | Whenever the loop changes to a surah other than 9, the finished buckets hold that surah's header immediately followed by a basmala, or some word lands behind a marker |
| Corrections.FilterNonEmpty | src/index.ts:216 | No bucket of the result is empty and none is added |
| Corrections.FilterKeepsContents | src/index.ts:216 | Filtering keeps the words in order and the marker count. One bucket survives per non-empty bucket, and a list without empty buckets is unchanged |
| Corrections.FilterPiecewise | src/index.ts:216 | The filter keeps a non-empty bucket whole, drops an empty one, and distributes over concatenation, so the surviving buckets are the original ones, intact and in order |
| Corrections.Correct | src/index.ts:219-258 | The corrections fail (reading `verses[0]`) exactly when the page has no verse and the count is 6, 7, 13 or 14 |
| Corrections.CorrectIsAdded | src/index.ts:219-258 | The two-step code equals an independent table of cases giving the buckets added above and below |
| Corrections.CorrectFrames | src/index.ts:219-258 | Only single header/basmala buckets are added, at most two, and some exactly when the count is 6, 7, 13 or 14 |
| Corrections.AtMostOneCorrection | src/index.ts:219-251 | The 13/14 corrections leave 14 or 15 buckets, so the 6/7 correction never fires after them, and 14 always becomes 15 |
| Corrections.ThirteenOpeningSurah | src/index.ts:221-225 | 13 buckets on a page opening a surah: header and basmala on top, the rest unchanged |
| Corrections.ThirteenAnnouncingSurah | src/index.ts:226-235 | Otherwise 13 buckets: the next surah's header at the bottom, followed by a basmala exactly when that surah is not 9 |
| Corrections.ThirteenKeepsBasmalaForSurahNine | src/index.ts:221-225 | The 13-bucket opening case puts a basmala on top even for surah 9, unlike the surah-change rule |
| Corrections.FourteenCases | src/index.ts:237-249 | 14 buckets get one bucket: a basmala on top for verse 1 of a surah other than 9, the header of surah 9 on top for surah 9, or else the last verse's surah header at the bottom |
| Corrections.OpeningPageCases | src/index.ts:251-257 | 6 or 7 buckets: the first verse's surah header on top, preceded by a basmala exactly on page 2, the rest unchanged |
| Corrections.CorrectKeepsContents | src/index.ts:219-258 | The corrections keep the words and add only marker buckets, keep the shape, and add no empty bucket |
| Finalize.BuildTextLinePayload | src/index.ts:112-135 | `null` exactly for no words; otherwise one output word per input word, in order, copying location, text and both glyphs |
| Finalize.PayloadText | src/index.ts:116-119 | The payload text is the space-joined word texts with the leading and trailing whitespace runs stripped: an infix of the join, itself without edge whitespace |
| Finalize.PayloadTextOfClean | src/index.ts:116-119 | When no word text has edge whitespace, the payload text is exactly the word texts joined by single spaces |
| Finalize.VerseRangeRoundTrip | src/index.ts:121-123 | For non-negative surah and verse numbers, the verse range reads back to the first word's surah and verse and the last word's surah and verse |
| Finalize.FinalizeBucket | src/index.ts:263-276 | A bucket gives no line exactly when it is empty, and otherwise a line with the number it was given |
| Finalize.TextLineOfBucket | src/index.ts:271-274 | A word bucket becomes a text line holding its words in order and the range from its first to its last word |
| Finalize.WordBehindMarkerIsDropped | src/index.ts:269-270 | A bucket starting with a header or basmala becomes that marker's line, whatever follows it |
| Finalize.FinalizeOrdered | src/index.ts:263-279 | One output line per non-empty bucket, with strictly increasing line numbers |
| Finalize.FinalizeDense | src/index.ts:263-279 | Without empty buckets, output line i is bucket i numbered from the start |
| Finalize.FinalizeKeepsWords | src/index.ts:263-279 | When no word sits behind a marker, the text lines carry exactly the buckets' words, in order |
| Generate.GenerateFailsOnlyBeforePage | src/index.ts:183-211 | The only failure is a word whose target index is negative |
| Generate.GenerateSucceedsOnPage | src/index.ts:140-282 | A page whose kept words all have non-negative lines always succeeds |
| Generate.GenerateFailsBeforeFirstLine | src/index.ts:183-211 | A kept word of the first verse on a negative line makes the page fail |
| Generate.GenerateNumbering | src/index.ts:263-279 | Output lines are numbered exactly 1..N. N is the number of buckets left after the corrections. It equals the non-empty placed bucket count when that count is not 6, 7, 13 or 14, and is one or two more when it is |
| Generate.GenerateKeepsEveryWord | src/index.ts:140-282 | When no word lands behind a marker, the output's words are exactly the page's merged words, as a multiset |
| Generate.SingleSurahBucketCount | src/index.ts:146-216 | On a page of one surah whose kept words sit on lines 0 or more, the non-empty buckets are as many as the distinct source lines of its kept words |
| Generate.SingleSurahTextLines | src/index.ts:140-282 | Such a page, when that number of lines is not 6, 7, 13 or 14, gives exactly one text line per distinct source line, numbered from 1, and no header or basmala |
| Generate.OneVersePage | src/index.ts:140-282 | A page of one two-word verse on line 0 gives one text line, numbered 1, for any word text. Its single word is the first word's text, a space and the verse numeral, and its text is that word trimmed: exactly the word when the text has no edge whitespace and the verse number is non-negative |
| Generate.PairSurvivesFilter | src/index.ts:216 | Dropping empty buckets keeps an adjacent header and basmala bucket adjacent |
| Generate.PairInOutput | src/index.ts:263-279 | Without empty buckets, an adjacent header and basmala bucket become adjacent header and basmala lines |
| Generate.HeaderThenBasmalaLines | src/index.ts:140-282 | When consecutive verses change to a surah other than 9 and no word lands behind a marker, the output has that surah's header line immediately followed by a basmala line |
| Generate.BasmalaSplitFromHeader | src/index.ts:140-282 | Without that condition the order fails: a one-word verse of surah 1 on line 2, then surah 2 with words on lines 1 and 2, gives text, header, text, basmala. The word on line 1 is lost behind the header |

## Left out

- File I/O and the batch driver: `readJSON`, `ensureDir`, `loadQPCData`, `generateAllPages`, logging and counters. The loaded surah list and v1 glyph table are parameters (`Tables`). A v1 glyph table that is missing or fails to load stays `null`, and every lookup yields the empty string: this is the empty map. A missing or unreadable `surahs.json` makes `readJSON` throw inside `getSurahName`, so `generateLines` rejects at the first header. That failure is not modelled, because the surah list is always given.
- `getBasmalaFont` is not used by the line assembler. The QPC v2 glyph table and both verse-mapping tables are loaded but never read by it.
- `async`/`await`: the loop is sequential, so every step is a pure function.
- The code copies the verse's word list shallowly, so the merge writes `qpc`, `__appendV1` and `__isVerseEnd` into the caller's word objects. A second run over the same objects would merge twice. The model is value-based and reads fresh input each time.
- Word lines are JavaScript numbers. The model takes integers only; fractional or missing values are not modelled.
- Glyph keys are the strings `"surah:verse:position"`. The model keys by the triple of integers, which is equivalent for integer inputs.
- Strings are sequences of code points, not UTF-16 code units. Every character involved (Arabic letters, Arabic-Indic digits, ASCII) is a single code unit.
- Strings.PadStart: modelled for the single-character fill `"0"` the code uses, not for multi-character fills.
- Strings.IntToString: integers only, not the JavaScript rendering of other numbers.
- Generate.GenerateKeepsEveryWord: holds only when no word is placed behind a marker. Such a word is dropped at finalisation (Finalize.WordBehindMarkerIsDropped), so the output then misses it.
- Placement.SingleSurahPlacement: the bucket-by-line statement is proved for pages of one surah only. With a change of surah, a word sits at line + offset only until a later word hits a marker bucket; the splice then moves it down (Placement.SpliceShiftsLaterWords), so no such statement holds in general.
- Placement.EnterVerse: the header of a new surah other than 9 is followed by its basmala in the output only when no word lands behind a marker (Generate.HeaderThenBasmalaLines). A word whose line points at the header bucket makes the code splice an empty bucket between the header and the basmala, and a later word can fill it, so in general the basmala need not follow the header (Generate.BasmalaSplitFromHeader).
- Generate.GenerateLines: its own contract covers only the page without verses. Its other properties are stated by the Generate lemmas in the table.
