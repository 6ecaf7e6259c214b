/**
 * Bucket placement: the verse loop of `generateLines`. Each change of surah
 * pushes a header bucket (and, except before surah 9, a basmala bucket) and
 * shifts all later target lines by one per pushed bucket; each word goes to
 * bucket `line + offset`.
 */
module Placement {
  import opened Strings
  import opened Providers
  import opened Layout
  import opened VerseMerge

  /* ------------------------------- measures ------------------------------- */

  /** The words of a bucket, in order (a marker is skipped). */
  function BucketWords(b: Bucket): seq<WordItem> {
    if |b| == 0 then []
    else (if b[0].WordEntry? then [b[0].w] else []) + BucketWords(b[1..])
  }

  /** All words held by the buckets, bucket after bucket. */
  function WordsIn(lines: seq<Bucket>): seq<WordItem> {
    if |lines| == 0 then [] else BucketWords(lines[0]) + WordsIn(lines[1..])
  }

  /** The number of buckets that start with a header or basmala. */
  function MarkerCount(lines: seq<Bucket>): nat {
    if |lines| == 0 then 0 else (if IsMarkerBucket(lines[0]) then 1 else 0) + MarkerCount(lines[1..])
  }

  lemma {:induction false} BucketWordsAppend(a: Bucket, b: Bucket)
    ensures BucketWords(a + b) == BucketWords(a) + BucketWords(b)
  {
    if |a| == 0 {
      assert a + b == b;
    } else {
      assert (a + b)[1..] == a[1..] + b;
      assert (a + b)[0] == a[0];
      BucketWordsAppend(a[1..], b);
      var x: seq<WordItem> := if a[0].WordEntry? then [a[0].w] else [];
      assert BucketWords(a + b) == x + BucketWords(a[1..] + b);
      assert x + (BucketWords(a[1..]) + BucketWords(b)) == (x + BucketWords(a[1..])) + BucketWords(b);
    }
  }

  lemma {:induction false} WordsInAppend(a: seq<Bucket>, b: seq<Bucket>)
    ensures WordsIn(a + b) == WordsIn(a) + WordsIn(b)
  {
    if |a| == 0 {
      assert a + b == b;
    } else {
      assert (a + b)[1..] == a[1..] + b;
      assert (a + b)[0] == a[0];
      WordsInAppend(a[1..], b);
      var x := BucketWords(a[0]);
      assert WordsIn(a + b) == x + WordsIn(a[1..] + b);
      assert x + (WordsIn(a[1..]) + WordsIn(b)) == (x + WordsIn(a[1..])) + WordsIn(b);
    }
  }

  lemma {:induction false} MarkerCountAppend(a: seq<Bucket>, b: seq<Bucket>)
    ensures MarkerCount(a + b) == MarkerCount(a) + MarkerCount(b)
  {
    if |a| == 0 {
      assert a + b == b;
    } else {
      assert (a + b)[1..] == a[1..] + b;
      assert (a + b)[0] == a[0];
      MarkerCountAppend(a[1..], b);
    }
  }

  /** Both measures split over a list cut in three. */
  lemma Split3(pre: seq<Bucket>, mid: seq<Bucket>, post: seq<Bucket>)
    ensures WordsIn(pre + mid + post) == WordsIn(pre) + WordsIn(mid) + WordsIn(post)
    ensures MarkerCount(pre + mid + post) == MarkerCount(pre) + MarkerCount(mid) + MarkerCount(post)
  {
    WordsInAppend(pre + mid, post);
    WordsInAppend(pre, mid);
    MarkerCountAppend(pre + mid, post);
    MarkerCountAppend(pre, mid);
  }

  lemma {:induction false} EmptyBucketsHoldNothing(lines: seq<Bucket>)
    requires forall i :: 0 <= i < |lines| ==> lines[i] == []
    ensures WordsIn(lines) == [] && MarkerCount(lines) == 0
  {
    if |lines| > 0 {
      EmptyBucketsHoldNothing(lines[1..]);
    }
  }

  /* ------------------------------ one word ------------------------------- */

  /** `while (lines.length <= target) lines.push([])`, with `size = target + 1`. */
  function Grow(lines: seq<Bucket>, size: nat): (r: seq<Bucket>)
    ensures |r| == if |lines| >= size then |lines| else size
    ensures r[..|lines|] == lines
    ensures forall i :: |lines| <= i < |r| ==> r[i] == []
    decreases size - |lines|
  {
    if |lines| >= size then lines
    else
      var r := Grow(lines + [[]], size);
      assert r[..|lines|] == r[..|lines| + 1][..|lines|];
      r
  }

  /** The bucket `target` refers to before the word is placed (a bucket the
      list is grown with is empty). */
  function BucketAt(lines: seq<Bucket>, target: nat): Bucket {
    if target < |lines| then lines[target] else []
  }

  /** Places one word at bucket index `target`. A negative index throws
      (the bucket is `undefined`). When the target bucket starts with a
      header or basmala, an empty bucket is spliced in right after it, and
      the word is still pushed onto the target bucket itself. */
  function PlaceWord(lines: seq<Bucket>, target: int, w: WordItem): (r: Result<seq<Bucket>>)
    ensures r.Err? <==> target < 0
    ensures r.Err? ==> r.failure == LineIndexBeforePage(target)
  {
    if target < 0 then Err(LineIndexBeforePage(target))
    else
      var g := Grow(lines, target + 1);
      var spliced := if IsMarkerBucket(g[target]) then g[..target + 1] + [[]] + g[target + 1..] else g;
      Ok(spliced[target := spliced[target] + [WordEntry(w)]])
  }

  /** Where a placed word ends up: appended to the target bucket (after a
      marker, if the target starts with one); the buckets before the target
      are unchanged or new and empty; a marker target gets an empty bucket
      spliced in after it, moving the later buckets down by one. */
  lemma PlaceWordEffect(lines: seq<Bucket>, target: int, w: WordItem)
    requires target >= 0
    ensures var r := PlaceWord(lines, target, w).value;
      var hit := IsMarkerBucket(BucketAt(lines, target));
      var size := if target < |lines| then |lines| else target + 1;
      && |r| == size + (if hit then 1 else 0)
      && r[target] == BucketAt(lines, target) + [WordEntry(w)]
      && (forall i :: 0 <= i < target ==> r[i] == BucketAt(lines, i))
      && (hit ==> r[target + 1] == [] && forall i :: target + 1 < i < |r| ==> r[i] == lines[i - 1])
      && (!hit ==> forall i :: target < i < |r| ==> r[i] == lines[i])
  {
    var g := Grow(lines, target + 1);
    assert forall i :: 0 <= i < |lines| ==> g[i] == g[..|lines|][i];
  }

  /** The list `PlaceWord` builds, cut around the target: the grown list
      before the target, the target bucket with the word, the spliced empty
      bucket if any, and the grown list after the target. */
  lemma {:induction false} PlaceWordPieces(lines: seq<Bucket>, target: int, w: WordItem)
    requires target >= 0
    ensures var base := Grow(lines, target + 1);
      var prior := BucketAt(lines, target);
      var extra: seq<Bucket> := if IsMarkerBucket(prior) then [[]] else [];
      && target < |base| && base[target] == prior
      && base == base[..target] + [prior] + base[target + 1..]
      && PlaceWord(lines, target, w).value == base[..target] + ([prior + [WordEntry(w)]] + extra) + base[target + 1..]
  {
    var base := Grow(lines, target + 1);
    assert forall i :: 0 <= i < |lines| ==> base[i] == base[..|lines|][i];
  }

  /** Growing the list adds nothing but empty buckets. */
  lemma GrowAddsNothing(lines: seq<Bucket>, size: nat)
    ensures WordsIn(Grow(lines, size)) == WordsIn(lines)
    ensures MarkerCount(Grow(lines, size)) == MarkerCount(lines)
    ensures AllShaped(lines) ==> AllShaped(Grow(lines, size))
  {
    var g := Grow(lines, size);
    assert g == g[..|lines|] + g[|lines|..];
    EmptyBucketsHoldNothing(g[|lines|..]);
    WordsInAppend(lines, g[|lines|..]);
    MarkerCountAppend(lines, g[|lines|..]);
  }

  lemma {:induction false} PlaceWordKeepsShape(lines: seq<Bucket>, target: int, w: WordItem)
    requires target >= 0
    requires AllShaped(lines)
    ensures AllShaped(PlaceWord(lines, target, w).value)
  {
    var r := PlaceWord(lines, target, w).value;
    var base := Grow(lines, target + 1);
    var prior := BucketAt(lines, target);
    var extra: seq<Bucket> := if IsMarkerBucket(prior) then [[]] else [];
    var placed := [prior + [WordEntry(w)]] + extra;
    PlaceWordPieces(lines, target, w);
    GrowAddsNothing(lines, target + 1);
    assert Shaped(prior);
    forall i | 0 <= i < |r|
      ensures Shaped(r[i])
    {
      if i < target {
        assert r[i] == base[i];
      } else if i >= target + |placed| {
        assert r[i] == base[i - |placed| + 1];
      }
    }
  }

  /** Placing a word keeps every bucket shaped (a marker can only be
      first), keeps the number of marker buckets, and adds exactly that
      word to the words the buckets hold. */
  lemma {:induction false} PlaceWordInvariants(lines: seq<Bucket>, target: int, w: WordItem)
    requires target >= 0
    requires AllShaped(lines)
    ensures var r := PlaceWord(lines, target, w).value;
      && AllShaped(r)
      && MarkerCount(r) == MarkerCount(lines)
      && multiset(WordsIn(r)) == multiset(WordsIn(lines)) + multiset{w}
  {
    var r := PlaceWord(lines, target, w).value;
    PlaceWordKeepsShape(lines, target, w);
    var base := Grow(lines, target + 1);
    var prior := BucketAt(lines, target);
    var extra: seq<Bucket> := if IsMarkerBucket(prior) then [[]] else [];
    var placed := [prior + [WordEntry(w)]] + extra;
    PlaceWordPieces(lines, target, w);
    GrowAddsNothing(lines, target + 1);
    PlacedBucketMeasures(prior, w, extra);
    ReplaceBucket(base[..target], prior, placed, base[target + 1..], w);
  }

  /** Replacing one bucket by buckets holding the same markers and one more word. */
  lemma ReplaceBucket(pre: seq<Bucket>, prior: Bucket, placed: seq<Bucket>, post: seq<Bucket>, w: WordItem)
    requires WordsIn(placed) == BucketWords(prior) + [w] && WordsIn([prior]) == BucketWords(prior)
    requires MarkerCount(placed) == MarkerCount([prior])
    ensures MarkerCount(pre + placed + post) == MarkerCount(pre + [prior] + post)
    ensures multiset(WordsIn(pre + placed + post)) == multiset(WordsIn(pre + [prior] + post)) + multiset{w}
  {
    ReplaceBucketCounts(pre, prior, placed, post);
    ReplaceBucketWords(pre, prior, placed, post, w);
    InsertInMiddle(WordsIn(pre), BucketWords(prior), WordsIn(post), w);
  }

  lemma ReplaceBucketCounts(pre: seq<Bucket>, prior: Bucket, placed: seq<Bucket>, post: seq<Bucket>)
    requires MarkerCount(placed) == MarkerCount([prior])
    ensures MarkerCount(pre + placed + post) == MarkerCount(pre + [prior] + post)
  {
    Split3(pre, [prior], post);
    Split3(pre, placed, post);
  }

  lemma ReplaceBucketWords(pre: seq<Bucket>, prior: Bucket, placed: seq<Bucket>, post: seq<Bucket>, w: WordItem)
    requires WordsIn(placed) == BucketWords(prior) + [w] && WordsIn([prior]) == BucketWords(prior)
    ensures WordsIn(pre + placed + post) == WordsIn(pre) + (BucketWords(prior) + [w]) + WordsIn(post)
    ensures WordsIn(pre + [prior] + post) == WordsIn(pre) + BucketWords(prior) + WordsIn(post)
  {
    Split3(pre, [prior], post);
    Split3(pre, placed, post);
  }

  lemma InsertInMiddle(a: seq<WordItem>, b: seq<WordItem>, c: seq<WordItem>, w: WordItem)
    ensures multiset(a + (b + [w]) + c) == multiset(a + b + c) + multiset{w}
  {
  }

  lemma PlacedBucketMeasures(prior: Bucket, w: WordItem, extra: seq<Bucket>)
    requires extra == [] || extra == [[]]
    ensures WordsIn([prior]) == BucketWords(prior)
    ensures WordsIn([prior + [WordEntry(w)]] + extra) == BucketWords(prior) + [w]
    ensures MarkerCount([prior + [WordEntry(w)]] + extra) == MarkerCount([prior])
  {
    BucketWordsAppend(prior, [WordEntry(w)]);
    assert BucketWords([WordEntry(w)]) == [w];
    EmptyBucketsHoldNothing(extra);
    WordsInAppend([prior + [WordEntry(w)]], extra);
    MarkerCountAppend([prior + [WordEntry(w)]], extra);
    assert IsMarkerBucket(prior + [WordEntry(w)]) == IsMarkerBucket(prior);
  }

  /* ------------------------------ one verse ------------------------------ */

  /** A word item with the source line it is placed by. */
  datatype Entry = Entry(line: int, item: WordItem)

  /** The entries a verse contributes: its word items after the ornament
      merge, each with its source line. */
  function VerseEntries(v: Verse, v1: GlyphTable): (es: seq<Entry>)
    ensures |es| == |MergeVerseNumber(v, v1)|
    ensures forall i :: 0 <= i < |es| ==>
      es[i] == Entry(MergeVerseNumber(v, v1)[i].word.line, VerseItems(v, v1)[i])
  {
    var staged := MergeVerseNumber(v, v1);
    var items := VerseItems(v, v1);
    seq(|staged|, i requires 0 <= i < |staged| => Entry(staged[i].word.line, items[i]))
  }

  function Items(es: seq<Entry>): seq<WordItem> {
    if |es| == 0 then [] else [es[0].item] + Items(es[1..])
  }

  lemma {:induction false} ItemsIndex(es: seq<Entry>)
    ensures |Items(es)| == |es|
    ensures forall i :: 0 <= i < |es| ==> Items(es)[i] == es[i].item
  {
    if |es| > 0 {
      ItemsIndex(es[1..]);
      assert forall i :: 0 < i < |es| ==> es[1..][i - 1] == es[i];
    }
  }

  /** A verse contributes one entry per kept word, in order: entry `i`
      carries the source line of word `i` and that word's item. */
  lemma VerseEntriesOfWords(v: Verse, v1: GlyphTable)
    ensures var es := VerseEntries(v, v1);
      && |es| == KeptCount(v)
      && Items(es) == VerseItems(v, v1)
      && forall i :: 0 <= i < |es| ==>
        && es[i].line == v.words[i].line
        && es[i].item.location == v.words[i].location
        && es[i].item.position == v.words[i].position
  {
    var es := VerseEntries(v, v1);
    var items := VerseItems(v, v1);
    ItemsIndex(es);
    forall i | 0 <= i < |es|
      ensures es[i].line == v.words[i].line
      ensures es[i].item.location == v.words[i].location && es[i].item.position == v.words[i].position
    {
      assert SameButQpc(MergeVerseNumber(v, v1)[i].word, v.words[i]);
    }
  }

  /** Places the entries in order, each at `line + offset`. */
  function PlaceEntries(lines: seq<Bucket>, offset: int, es: seq<Entry>): (r: Result<seq<Bucket>>)
    decreases |es|
  {
    if |es| == 0 then Ok(lines)
    else match PlaceWord(lines, es[0].line + offset, es[0].item)
      case Err(f) => Err(f)
      case Ok(next) => PlaceEntries(next, offset, es[1..])
  }

  /** Placing a verse's words throws exactly when one of them targets a
      negative bucket index. */
  lemma {:induction false} PlaceEntriesFailsIff(lines: seq<Bucket>, offset: int, es: seq<Entry>)
    ensures PlaceEntries(lines, offset, es).Err? <==> exists i :: 0 <= i < |es| && es[i].line + offset < 0
    decreases |es|
  {
    if |es| > 0 && es[0].line + offset >= 0 {
      var next := PlaceWord(lines, es[0].line + offset, es[0].item).value;
      PlaceEntriesFailsIff(next, offset, es[1..]);
      if exists i :: 0 <= i < |es| && es[i].line + offset < 0 {
        var i :| 0 <= i < |es| && es[i].line + offset < 0;
        assert es[1..][i - 1] == es[i];
      }
      if exists i :: 0 <= i < |es[1..]| && es[1..][i].line + offset < 0 {
        var i :| 0 <= i < |es[1..]| && es[1..][i].line + offset < 0;
        assert es[i + 1] == es[1..][i];
      }
    }
  }

  lemma {:induction false} PlaceEntriesInvariants(lines: seq<Bucket>, offset: int, es: seq<Entry>)
    requires AllShaped(lines)
    requires PlaceEntries(lines, offset, es).Ok?
    ensures var r := PlaceEntries(lines, offset, es).value;
      && AllShaped(r)
      && MarkerCount(r) == MarkerCount(lines)
      && multiset(WordsIn(r)) == multiset(WordsIn(lines)) + multiset(Items(es))
    decreases |es|
  {
    if |es| > 0 {
      var t := es[0].line + offset;
      assert t >= 0;
      var next := PlaceWord(lines, t, es[0].item).value;
      var r := PlaceEntries(lines, offset, es).value;
      assert r == PlaceEntries(next, offset, es[1..]).value;
      assert AllShaped(next) && MarkerCount(next) == MarkerCount(lines)
        && multiset(WordsIn(next)) == multiset(WordsIn(lines)) + multiset{es[0].item} by {
        PlaceWordInvariants(lines, t, es[0].item);
      }
      assert AllShaped(r) && MarkerCount(r) == MarkerCount(next)
        && multiset(WordsIn(r)) == multiset(WordsIn(next)) + multiset(Items(es[1..])) by {
        PlaceEntriesInvariants(next, offset, es[1..]);
      }
      assert multiset(Items(es)) == multiset{es[0].item} + multiset(Items(es[1..])) by {
        assert Items(es) == [es[0].item] + Items(es[1..]);
      }
    }
  }

  /** The assembler's loop state: buckets so far, the running line offset,
      and the surah of the previous verse (`null` before the first). */
  datatype State = State(lines: seq<Bucket>, offset: int, current: Option<int>)

  const Start: State := State([], 0, None)

  /** `addSurahHeader`: pushes the header bucket of surah `n` and bumps the offset. */
  function AddSurahHeader(lines: seq<Bucket>, offset: int, surahs: seq<SurahRecord>, n: int): (r: (seq<Bucket>, int))
    ensures |r.0| == |lines| + 1 && r.0[..|lines|] == lines
    ensures r.0[|lines|] == [MarkerEntry(HeaderFor(surahs, n))]
    ensures r.1 == offset + 1
  {
    (lines + [HeaderBucket(surahs, n)], offset + 1)
  }

  /** `addBasmala`: pushes a basmala bucket and bumps the offset. */
  function AddBasmala(lines: seq<Bucket>, offset: int): (r: (seq<Bucket>, int))
    ensures |r.0| == |lines| + 1 && r.0[..|lines|] == lines
    ensures r.0[|lines|] == [MarkerEntry(BasmalaMarker)]
    ensures r.1 == offset + 1
  {
    (lines + [BasmalaBucket], offset + 1)
  }

  predicate SurahChanges(st: State, v: Verse) {
    st.current.Some? && st.current.value != v.surah
  }

  /** The buckets pushed at a change of surah: a header, then a basmala
      unless the new surah is 9. */
  function OpeningBuckets(surahs: seq<SurahRecord>, n: int): seq<Bucket> {
    [HeaderBucket(surahs, n)] + (if n != 9 then [BasmalaBucket] else [])
  }

  /** The buckets and offset once the boundary before verse `v` is handled. */
  function EnterVerse(st: State, v: Verse, surahs: seq<SurahRecord>): (r: (seq<Bucket>, int))
    ensures !SurahChanges(st, v) ==> r == (st.lines, st.offset)
    ensures SurahChanges(st, v) ==>
      r.0 == st.lines + OpeningBuckets(surahs, v.surah) && r.1 == st.offset + |OpeningBuckets(surahs, v.surah)|
  {
    if SurahChanges(st, v) then
      var (l, o) := AddSurahHeader(st.lines, st.offset, surahs, v.surah);
      assert l == st.lines + [HeaderBucket(surahs, v.surah)];
      if v.surah != 9 then AddBasmala(l, o) else (l, o)
    else (st.lines, st.offset)
  }

  /** One iteration of the verse loop. */
  function PlaceVerse(st: State, v: Verse, t: Tables): Result<State> {
    var (lines, offset) := EnterVerse(st, v, t.surahs);
    match PlaceEntries(lines, offset, VerseEntries(v, t.qpcV1))
    case Err(f) => Err(f)
    case Ok(placed) => Ok(State(placed, offset, Some(v.surah)))
  }

  /** The whole verse loop. */
  function PlaceVerses(st: State, verses: seq<Verse>, t: Tables): Result<State>
    decreases |verses|
  {
    if |verses| == 0 then Ok(st)
    else match PlaceVerse(st, verses[0], t)
      case Err(f) => Err(f)
      case Ok(next) => PlaceVerses(next, verses[1..], t)
  }

  /** Every word item of the page, verse after verse. */
  function PageItems(verses: seq<Verse>, v1: GlyphTable): seq<WordItem> {
    if |verses| == 0 then [] else Items(VerseEntries(verses[0], v1)) + PageItems(verses[1..], v1)
  }

  lemma MarkerBucketMeasures(m: Marker)
    ensures WordsIn([[MarkerEntry(m)]]) == [] && MarkerCount([[MarkerEntry(m)]]) == 1
  {
    assert BucketWords([MarkerEntry(m)]) == [];
  }

  lemma OpeningBucketsAreMarkers(surahs: seq<SurahRecord>, n: int)
    ensures var ob := OpeningBuckets(surahs, n);
      WordsIn(ob) == [] && MarkerCount(ob) == |ob| && AllShaped(ob)
  {
    var h := HeaderBucket(surahs, n);
    MarkerBucketMeasures(HeaderFor(surahs, n));
    if n != 9 {
      MarkerBucketMeasures(BasmalaMarker);
      WordsInAppend([h], [BasmalaBucket]);
      MarkerCountAppend([h], [BasmalaBucket]);
    }
  }

  /** A surah change pushes exactly one marker bucket per offset step. */
  lemma EnterVerseCountsMarkers(st: State, v: Verse, surahs: seq<SurahRecord>)
    ensures var (l, o) := EnterVerse(st, v, surahs);
      && MarkerCount(l) - o == MarkerCount(st.lines) - st.offset
      && WordsIn(l) == WordsIn(st.lines)
      && (AllShaped(st.lines) ==> AllShaped(l))
      && o >= st.offset
  {
    if SurahChanges(st, v) {
      var ob := OpeningBuckets(surahs, v.surah);
      OpeningBucketsAreMarkers(surahs, v.surah);
      MarkerCountAppend(st.lines, ob);
      WordsInAppend(st.lines, ob);
    }
  }

  /** The loop invariants of the verse loop: buckets are shaped, the line
      offset always equals the number of header and basmala buckets pushed,
      and the buckets hold exactly the word items of the verses placed so
      far (none lost, none duplicated). */
  lemma {:induction false} PlaceVersesInvariants(st: State, verses: seq<Verse>, t: Tables)
    requires AllShaped(st.lines) && st.offset >= 0
    requires PlaceVerses(st, verses, t).Ok?
    ensures var r := PlaceVerses(st, verses, t).value;
      && AllShaped(r.lines)
      && r.offset >= st.offset
      && MarkerCount(r.lines) - r.offset == MarkerCount(st.lines) - st.offset
      && multiset(WordsIn(r.lines)) == multiset(WordsIn(st.lines)) + multiset(PageItems(verses, t.qpcV1))
    decreases |verses|
  {
    if |verses| > 0 {
      var v := verses[0];
      var (lines, offset) := EnterVerse(st, v, t.surahs);
      EnterVerseCountsMarkers(st, v, t.surahs);
      PlaceEntriesInvariants(lines, offset, VerseEntries(v, t.qpcV1));
      var next := PlaceVerse(st, v, t).value;
      PlaceVersesInvariants(next, verses[1..], t);
    }
  }

  /** From the empty start: the offset is the number of marker buckets and
      every word of the page sits in some bucket. */
  lemma PlacementFromStart(verses: seq<Verse>, t: Tables)
    requires PlaceVerses(Start, verses, t).Ok?
    ensures var r := PlaceVerses(Start, verses, t).value;
      && AllShaped(r.lines)
      && r.offset == MarkerCount(r.lines)
      && multiset(WordsIn(r.lines)) == multiset(PageItems(verses, t.qpcV1))
  {
    PlaceVersesInvariants(Start, verses, t);
  }

  /* ---------------------------- words by line ---------------------------- */

  /** Every word that survives the ornament merge sits on a line of the
      page (index 0 or more); the ornament's own line is never read. */
  predicate OnPage(verses: seq<Verse>) {
    forall i, j :: 0 <= i < |verses| && 0 <= j < KeptCount(verses[i]) ==> verses[i].words[j].line >= 0
  }

  /** Every entry of the page, verse after verse. */
  function PageEntries(verses: seq<Verse>, v1: GlyphTable): seq<Entry> {
    if |verses| == 0 then [] else VerseEntries(verses[0], v1) + PageEntries(verses[1..], v1)
  }

  /** The entries on source line `b`, in order, as bucket items: the
      reference for what the bucket of line `b` holds. */
  function OnLine(es: seq<Entry>, b: int): Bucket {
    if |es| == 0 then []
    else (if es[0].line == b then [WordEntry(es[0].item)] else []) + OnLine(es[1..], b)
  }

  function MaxNat(a: nat, b: nat): nat {
    if a >= b then a else b
  }

  /** One more than the highest non-negative source line of the entries,
      0 when there is none. */
  function Span(es: seq<Entry>): nat {
    if |es| == 0 then 0 else MaxNat(if es[0].line >= 0 then es[0].line + 1 else 0, Span(es[1..]))
  }

  predicate NoMarkers(lines: seq<Bucket>) {
    forall b :: 0 <= b < |lines| ==> !IsMarkerBucket(lines[b])
  }

  predicate LinesOnPage(es: seq<Entry>) {
    forall i :: 0 <= i < |es| ==> es[i].line >= 0
  }

  /** The bucket of line `b` holds exactly the entries on line `b`: it is
      empty when no entry is on `b`, and each of its items is the item of
      an entry on `b`. Every entry lies below the span. */
  lemma {:induction false} OnLineSpec(es: seq<Entry>, b: int)
    ensures OnLine(es, b) == [] <==> forall i :: 0 <= i < |es| ==> es[i].line != b
    ensures forall k :: 0 <= k < |OnLine(es, b)| ==>
      exists i :: 0 <= i < |es| && es[i].line == b && OnLine(es, b)[k] == WordEntry(es[i].item)
    ensures LinesOnPage(es) ==> forall i :: 0 <= i < |es| ==> es[i].line < Span(es)
  {
    if |es| > 0 {
      var rest := es[1..];
      OnLineSpec(rest, b);
      var head: Bucket := if es[0].line == b then [WordEntry(es[0].item)] else [];
      var r := OnLine(es, b);
      assert r == head + OnLine(rest, b);
      assert forall i :: 0 < i < |es| ==> es[i] == rest[i - 1];
      forall k | 0 <= k < |r|
        ensures exists i :: 0 <= i < |es| && es[i].line == b && r[k] == WordEntry(es[i].item)
      {
        if k < |head| {
          assert r[k] == WordEntry(es[0].item);
        } else {
          assert r[k] == OnLine(rest, b)[k - |head|];
          var j :| 0 <= j < |rest| && rest[j].line == b && OnLine(rest, b)[k - |head|] == WordEntry(rest[j].item);
          assert es[j + 1] == rest[j];
        }
      }
      if LinesOnPage(es) {
        assert LinesOnPage(rest);
      }
    }
  }

  lemma OnLineAppend(a: seq<Entry>, c: seq<Entry>, b: int)
    ensures OnLine(a + c, b) == OnLine(a, b) + OnLine(c, b)
    ensures Span(a + c) == MaxNat(Span(a), Span(c))
  {
    OnLineConcat(a, c, b);
    SpanConcat(a, c);
  }

  lemma {:induction false} OnLineConcat(a: seq<Entry>, c: seq<Entry>, b: int)
    ensures OnLine(a + c, b) == OnLine(a, b) + OnLine(c, b)
  {
    if |a| == 0 {
      assert a + c == c;
    } else {
      assert (a + c)[0] == a[0] && (a + c)[1..] == a[1..] + c;
      OnLineConcat(a[1..], c, b);
      var x: Bucket := if a[0].line == b then [WordEntry(a[0].item)] else [];
      assert x + (OnLine(a[1..], b) + OnLine(c, b)) == (x + OnLine(a[1..], b)) + OnLine(c, b);
    }
  }

  lemma {:induction false} SpanConcat(a: seq<Entry>, c: seq<Entry>)
    ensures Span(a + c) == MaxNat(Span(a), Span(c))
  {
    if |a| == 0 {
      assert a + c == c;
    } else {
      assert (a + c)[0] == a[0] && (a + c)[1..] == a[1..] + c;
      SpanConcat(a[1..], c);
    }
  }

  lemma {:induction false} OnLineBeyond(es: seq<Entry>, b: int)
    requires b >= Span(es)
    ensures OnLine(es, b) == []
  {
    if |es| > 0 {
      OnLineBeyond(es[1..], b);
    }
  }

  /** Placing a word in buckets without markers appends it to its bucket
      and leaves every other bucket as it was. */
  lemma PlaceWordNoMarker(lines: seq<Bucket>, target: int, w: WordItem)
    requires target >= 0 && NoMarkers(lines)
    ensures var r := PlaceWord(lines, target, w).value;
      && |r| == MaxNat(|lines|, target + 1)
      && NoMarkers(r)
      && forall b :: 0 <= b ==>
        BucketAt(r, b) == BucketAt(lines, b) + (if b == target then [WordEntry(w)] else [])
  {
    var r := PlaceWord(lines, target, w).value;
    assert !IsMarkerBucket(BucketAt(lines, target));
    PlaceWordEffect(lines, target, w);
    forall b | 0 <= b
      ensures BucketAt(r, b) == BucketAt(lines, b) + (if b == target then [WordEntry(w)] else [])
    {
      if b != target {
        assert BucketAt(lines, b) + [] == BucketAt(lines, b);
      }
    }
    forall b | 0 <= b < |r|
      ensures !IsMarkerBucket(r[b])
    {
      assert r[b] == BucketAt(r, b);
    }
  }

  /** Placing entries at offset 0 in buckets without markers: bucket `b`
      receives exactly the entries on line `b`, in order, and the list grows
      to cover the highest line. */
  lemma {:induction false} PlaceEntriesByLine(lines: seq<Bucket>, es: seq<Entry>)
    requires NoMarkers(lines) && LinesOnPage(es)
    ensures var r := PlaceEntries(lines, 0, es);
      && r.Ok?
      && |r.value| == MaxNat(|lines|, Span(es))
      && NoMarkers(r.value)
      && forall b :: 0 <= b ==> BucketAt(r.value, b) == BucketAt(lines, b) + OnLine(es, b)
    decreases |es|
  {
    if |es| == 0 {
      forall b | 0 <= b
        ensures BucketAt(lines, b) == BucketAt(lines, b) + OnLine(es, b)
      {
        assert BucketAt(lines, b) + [] == BucketAt(lines, b);
      }
    } else {
      var e := es[0];
      var rest := es[1..];
      assert LinesOnPage(rest) by {
        assert forall i :: 0 <= i < |rest| ==> rest[i] == es[i + 1];
      }
      PlaceWordNoMarker(lines, e.line, e.item);
      var next := PlaceWord(lines, e.line, e.item).value;
      PlaceEntriesByLine(next, rest);
      var r := PlaceEntries(lines, 0, es).value;
      assert r == PlaceEntries(next, 0, rest).value;
      forall b | 0 <= b
        ensures BucketAt(r, b) == BucketAt(lines, b) + OnLine(es, b)
      {
        var x: Bucket := if e.line == b then [WordEntry(e.item)] else [];
        assert OnLine(es, b) == x + OnLine(rest, b);
        assert BucketAt(r, b) == (BucketAt(lines, b) + x) + OnLine(rest, b);
      }
    }
  }

  /** On a page of a single surah the verse loop never pushes a header or
      basmala, the offset stays 0, and bucket `b` receives exactly the
      entries on line `b`. */
  lemma {:induction false} PlaceVersesByLine(st: State, verses: seq<Verse>, t: Tables, s: int)
    requires st.offset == 0 && (st.current == None || st.current == Some(s)) && NoMarkers(st.lines)
    requires forall i :: 0 <= i < |verses| ==> verses[i].surah == s
    requires LinesOnPage(PageEntries(verses, t.qpcV1))
    ensures var r := PlaceVerses(st, verses, t);
      var es := PageEntries(verses, t.qpcV1);
      && r.Ok?
      && r.value.offset == 0
      && (r.value.current == None || r.value.current == Some(s))
      && NoMarkers(r.value.lines)
      && |r.value.lines| == MaxNat(|st.lines|, Span(es))
      && forall b :: 0 <= b ==> BucketAt(r.value.lines, b) == BucketAt(st.lines, b) + OnLine(es, b)
    decreases |verses|
  {
    var es := PageEntries(verses, t.qpcV1);
    if |verses| == 0 {
      forall b | 0 <= b
        ensures BucketAt(st.lines, b) == BucketAt(st.lines, b) + OnLine(es, b)
      {
        assert BucketAt(st.lines, b) + [] == BucketAt(st.lines, b);
      }
    } else {
      var ev := VerseEntries(verses[0], t.qpcV1);
      var later := PageEntries(verses[1..], t.qpcV1);
      PageEntriesSplit(verses, t.qpcV1);
      var next := PlaceVerseSameSurah(st, verses[0], t, s);
      assert forall i :: 0 <= i < |verses| - 1 ==> verses[1..][i] == verses[i + 1];
      PlaceVersesByLine(next, verses[1..], t, s);
      assert PlaceVerses(st, verses, t) == PlaceVerses(next, verses[1..], t);
      ComposeByLine(st.lines, next.lines, PlaceVerses(next, verses[1..], t).value.lines, ev, later);
    }
  }

  lemma PageEntriesSplit(verses: seq<Verse>, v1: GlyphTable)
    requires |verses| > 0 && LinesOnPage(PageEntries(verses, v1))
    ensures var ev := VerseEntries(verses[0], v1);
      var later := PageEntries(verses[1..], v1);
      && PageEntries(verses, v1) == ev + later
      && LinesOnPage(ev) && LinesOnPage(later)
  {
    LinesOnPageParts(VerseEntries(verses[0], v1), PageEntries(verses[1..], v1));
  }

  lemma LinesOnPageParts(a: seq<Entry>, c: seq<Entry>)
    requires LinesOnPage(a + c)
    ensures LinesOnPage(a) && LinesOnPage(c)
  {
    assert forall i :: 0 <= i < |a| ==> a[i] == (a + c)[i];
    assert forall i :: 0 <= i < |c| ==> c[i] == (a + c)[|a| + i];
  }

  /** One verse of the page's surah: no boundary, and its entries placed at
      offset 0, bucket by line. */
  lemma PlaceVerseSameSurah(st: State, v: Verse, t: Tables, s: int) returns (next: State)
    requires st.offset == 0 && (st.current == None || st.current == Some(s)) && NoMarkers(st.lines)
    requires v.surah == s && LinesOnPage(VerseEntries(v, t.qpcV1))
    ensures PlaceVerse(st, v, t) == Ok(next)
    ensures next.offset == 0 && next.current == Some(s) && NoMarkers(next.lines)
    ensures var ev := VerseEntries(v, t.qpcV1);
      && |next.lines| == MaxNat(|st.lines|, Span(ev))
      && forall b :: 0 <= b ==> BucketAt(next.lines, b) == BucketAt(st.lines, b) + OnLine(ev, b)
  {
    var ev := VerseEntries(v, t.qpcV1);
    assert EnterVerse(st, v, t.surahs) == (st.lines, 0);
    PlaceEntriesByLine(st.lines, ev);
    next := State(PlaceEntries(st.lines, 0, ev).value, 0, Some(s));
  }

  /** Two rounds of placement by line compose into one over both entry lists. */
  lemma ComposeByLine(lines: seq<Bucket>, mid: seq<Bucket>, r: seq<Bucket>, ev: seq<Entry>, later: seq<Entry>)
    requires |mid| == MaxNat(|lines|, Span(ev)) && |r| == MaxNat(|mid|, Span(later))
    requires forall b :: 0 <= b ==> BucketAt(mid, b) == BucketAt(lines, b) + OnLine(ev, b)
    requires forall b :: 0 <= b ==> BucketAt(r, b) == BucketAt(mid, b) + OnLine(later, b)
    ensures |r| == MaxNat(|lines|, Span(ev + later))
    ensures forall b :: 0 <= b ==> BucketAt(r, b) == BucketAt(lines, b) + OnLine(ev + later, b)
  {
    OnLineAppend(ev, later, 0);
    forall b | 0 <= b
      ensures BucketAt(r, b) == BucketAt(lines, b) + OnLine(ev + later, b)
    {
      OnLineAppend(ev, later, b);
    }
  }

  /** The words of a page's kept entries are all on lines 0 or more when
      its kept words are. */
  lemma {:induction false} PageEntriesOnPage(verses: seq<Verse>, v1: GlyphTable)
    requires OnPage(verses)
    ensures LinesOnPage(PageEntries(verses, v1))
    decreases |verses|
  {
    if |verses| > 0 {
      FirstVerseOnPage(verses, v1);
      OnPageTail(verses);
      PageEntriesOnPage(verses[1..], v1);
      LinesOnPageAppend(VerseEntries(verses[0], v1), PageEntries(verses[1..], v1));
    }
  }

  lemma FirstVerseOnPage(verses: seq<Verse>, v1: GlyphTable)
    requires |verses| > 0 && OnPage(verses)
    ensures LinesOnPage(VerseEntries(verses[0], v1))
  {
    var v := verses[0];
    VerseEntriesOfWords(v, v1);
    assert forall j :: 0 <= j < KeptCount(v) ==> v.words[j].line >= 0;
  }

  lemma OnPageTail(verses: seq<Verse>)
    requires |verses| > 0 && OnPage(verses)
    ensures OnPage(verses[1..])
  {
    forall i, j | 0 <= i < |verses| - 1 && 0 <= j < KeptCount(verses[1..][i])
      ensures verses[1..][i].words[j].line >= 0
    {
      assert verses[1..][i] == verses[i + 1];
    }
  }

  lemma LinesOnPageAppend(a: seq<Entry>, c: seq<Entry>)
    requires LinesOnPage(a) && LinesOnPage(c)
    ensures LinesOnPage(a + c)
  {
    forall i | 0 <= i < |a + c|
      ensures (a + c)[i].line >= 0
    {
      if i >= |a| {
        assert (a + c)[i] == c[i - |a|];
      }
    }
  }

  /** The verse loop on a page of one surah whose kept words sit on lines 0
      or more: no header or basmala, offset 0, one bucket per line up to the
      highest, and bucket `b` holds exactly the words on line `b`, in page
      order; so every word sits in the bucket of its own line. */
  lemma {:induction false} SingleSurahPlacement(verses: seq<Verse>, t: Tables, s: int)
    requires forall i :: 0 <= i < |verses| ==> verses[i].surah == s
    requires OnPage(verses)
    ensures var r := PlaceVerses(Start, verses, t);
      var es := PageEntries(verses, t.qpcV1);
      && r.Ok?
      && r.value.offset == 0
      && MarkerCount(r.value.lines) == 0
      && |r.value.lines| == Span(es)
      && forall b :: 0 <= b < |r.value.lines| ==> r.value.lines[b] == OnLine(es, b)
  {
    PageEntriesOnPage(verses, t.qpcV1);
    PlaceVersesByLine(Start, verses, t, s);
    var lines := PlaceVerses(Start, verses, t).value.lines;
    forall b | 0 <= b < |lines|
      ensures lines[b] == OnLine(PageEntries(verses, t.qpcV1), b)
    {
      assert BucketAt(lines, b) == lines[b];
    }
    NoMarkersCountNone(lines);
  }

  lemma {:induction false} NoMarkersCountNone(lines: seq<Bucket>)
    requires NoMarkers(lines)
    ensures MarkerCount(lines) == 0
  {
    if |lines| > 0 {
      assert NoMarkers(lines[1..]) by {
        assert forall b :: 0 <= b < |lines| - 1 ==> lines[1..][b] == lines[b + 1];
      }
      NoMarkersCountNone(lines[1..]);
    }
  }

  /** A word sent to a marker bucket moves every later bucket down by one,
      words already placed there included: here a word on line 3 of a new
      surah, placed at bucket 3 + 2, ends up in bucket 6 once a word on line
      0 hits the basmala bucket. */
  lemma SpliceShiftsLaterWords(a: WordItem, b: WordItem, c: WordItem, surahs: seq<SurahRecord>, n: int)
    requires n != 9
    ensures var lines := [[WordEntry(a)]] + OpeningBuckets(surahs, n);
      var r := PlaceEntries(lines, 2, [Entry(3, b), Entry(0, c)]);
      && r.Ok? && |r.value| == 7
      && r.value[2] == BasmalaBucket + [WordEntry(c)] && r.value[3] == []
      && r.value[5] == [] && r.value[6] == [WordEntry(b)]
  {
    var lines := [[WordEntry(a)]] + OpeningBuckets(surahs, n);
    var l1 := BeyondTheBasmala(lines, b);
    HitTheBasmala(l1, c);
    var es := [Entry(3, b), Entry(0, c)];
    assert es[1..][1..] == [];
    assert PlaceEntries(lines, 2, es) == PlaceEntries(PlaceWord(l1, 2, c).value, 2, []);
  }

  lemma BeyondTheBasmala(lines: seq<Bucket>, b: WordItem) returns (l1: seq<Bucket>)
    requires |lines| == 3 && lines[2] == BasmalaBucket
    ensures PlaceWord(lines, 5, b) == Ok(l1)
    ensures |l1| == 6 && l1[2] == BasmalaBucket && l1[4] == [] && l1[5] == [WordEntry(b)]
  {
    PlaceWordEffect(lines, 5, b);
    l1 := PlaceWord(lines, 5, b).value;
  }

  lemma HitTheBasmala(l1: seq<Bucket>, c: WordItem)
    requires |l1| == 6 && l1[2] == BasmalaBucket
    ensures var r := PlaceWord(l1, 2, c).value;
      && |r| == 7 && r[2] == BasmalaBucket + [WordEntry(c)] && r[3] == []
      && r[5] == l1[4] && r[6] == l1[5]
  {
    assert IsMarkerBucket(BucketAt(l1, 2));
    PlaceWordEffect(l1, 2, c);
  }

  /* ------------------------ header and basmala together ------------------------ */

  /** Some bucket holds a header or basmala with a word behind it. */
  predicate HasHiddenWord(lines: seq<Bucket>) {
    exists j :: 0 <= j < |lines| && IsMarkerBucket(lines[j]) && |lines[j]| > 1
  }

  /** The header bucket of surah `n` immediately followed by a basmala bucket. */
  predicate HeaderThenBasmala(lines: seq<Bucket>, surahs: seq<SurahRecord>, n: int) {
    exists k :: 0 <= k && k + 1 < |lines| && lines[k] == HeaderBucket(surahs, n) && lines[k + 1] == BasmalaBucket
  }

  /** What a surah change leaves behind survives: the pair stays adjacent,
      or some word has been pushed behind a marker. */
  predicate PairOrHidden(lines: seq<Bucket>, surahs: seq<SurahRecord>, n: int) {
    HeaderThenBasmala(lines, surahs, n) || HasHiddenWord(lines)
  }

  /** A word behind a marker stays behind it: buckets only grow, and a
      splice moves a bucket without changing it. */
  lemma PlaceWordKeepsHidden(lines: seq<Bucket>, target: int, w: WordItem)
    requires target >= 0 && HasHiddenWord(lines)
    ensures HasHiddenWord(PlaceWord(lines, target, w).value)
  {
    var r := PlaceWord(lines, target, w).value;
    var j :| 0 <= j < |lines| && IsMarkerBucket(lines[j]) && |lines[j]| > 1;
    PlaceWordEffect(lines, target, w);
    assert BucketAt(lines, j) == lines[j];
    if j < target {
      assert r[j] == lines[j];
    } else if j == target {
      assert r[j] == lines[j] + [WordEntry(w)];
    } else if IsMarkerBucket(BucketAt(lines, target)) {
      assert r[j + 1] == lines[j];
    } else {
      assert r[j] == lines[j];
    }
  }

  /** A word sent to a header or basmala bucket ends up behind it. */
  lemma PlaceWordOnMarkerHides(lines: seq<Bucket>, target: int, w: WordItem)
    requires 0 <= target < |lines| && IsMarkerBucket(lines[target])
    ensures HasHiddenWord(PlaceWord(lines, target, w).value)
  {
    PlaceWordEffect(lines, target, w);
    var r := PlaceWord(lines, target, w).value;
    assert r[target] == lines[target] + [WordEntry(w)];
  }

  /** A pair that no word reaches keeps its contents and moves at most one
      bucket down. */
  lemma PlaceWordKeepsPair(lines: seq<Bucket>, target: int, w: WordItem, surahs: seq<SurahRecord>, n: int)
    requires target >= 0 && PairOrHidden(lines, surahs, n)
    ensures PairOrHidden(PlaceWord(lines, target, w).value, surahs, n)
  {
    var r := PlaceWord(lines, target, w).value;
    if HasHiddenWord(lines) {
      PlaceWordKeepsHidden(lines, target, w);
    } else {
      var k :| 0 <= k && k + 1 < |lines| && lines[k] == HeaderBucket(surahs, n) && lines[k + 1] == BasmalaBucket;
      if target == k || target == k + 1 {
        PlaceWordOnMarkerHides(lines, target, w);
      } else {
        PlaceWordEffect(lines, target, w);
        assert BucketAt(lines, k) == lines[k] && BucketAt(lines, k + 1) == lines[k + 1];
        if target < k && IsMarkerBucket(BucketAt(lines, target)) {
          assert r[k + 1] == lines[k] && r[k + 2] == lines[k + 1];
        } else {
          assert r[k] == lines[k] && r[k + 1] == lines[k + 1];
        }
      }
    }
  }

  lemma {:induction false} PlaceEntriesKeepsPair(lines: seq<Bucket>, offset: int, es: seq<Entry>, surahs: seq<SurahRecord>, n: int)
    requires PairOrHidden(lines, surahs, n) && PlaceEntries(lines, offset, es).Ok?
    ensures PairOrHidden(PlaceEntries(lines, offset, es).value, surahs, n)
    decreases |es|
  {
    if |es| > 0 {
      var t := es[0].line + offset;
      PlaceWordKeepsPair(lines, t, es[0].item, surahs, n);
      var next := PlaceWord(lines, t, es[0].item).value;
      assert PlaceEntries(lines, offset, es) == PlaceEntries(next, offset, es[1..]);
      PlaceEntriesKeepsPair(next, offset, es[1..], surahs, n);
    }
  }

  /** Buckets appended at the end leave a pair and a hidden word in place. */
  lemma AppendKeepsPair(lines: seq<Bucket>, more: seq<Bucket>, surahs: seq<SurahRecord>, n: int)
    requires PairOrHidden(lines, surahs, n)
    ensures PairOrHidden(lines + more, surahs, n)
  {
    var r := lines + more;
    if HasHiddenWord(lines) {
      var j :| 0 <= j < |lines| && IsMarkerBucket(lines[j]) && |lines[j]| > 1;
      assert r[j] == lines[j];
    } else {
      var k :| 0 <= k && k + 1 < |lines| && lines[k] == HeaderBucket(surahs, n) && lines[k + 1] == BasmalaBucket;
      assert r[k] == lines[k] && r[k + 1] == lines[k + 1];
    }
  }

  lemma {:induction false} PlaceVersesKeepsPair(st: State, verses: seq<Verse>, t: Tables, n: int)
    requires PairOrHidden(st.lines, t.surahs, n) && PlaceVerses(st, verses, t).Ok?
    ensures PairOrHidden(PlaceVerses(st, verses, t).value.lines, t.surahs, n)
    decreases |verses|
  {
    if |verses| > 0 {
      var v := verses[0];
      var (lines, offset) := EnterVerse(st, v, t.surahs);
      if SurahChanges(st, v) {
        AppendKeepsPair(st.lines, OpeningBuckets(t.surahs, v.surah), t.surahs, n);
      }
      PlaceEntriesKeepsPair(lines, offset, VerseEntries(v, t.qpcV1), t.surahs, n);
      PlaceVersesKeepsPair(PlaceVerse(st, v, t).value, verses[1..], t, n);
    }
  }

  /** Entering a surah other than 9 pushes its header and then a basmala. */
  lemma EnterVerseMakesPair(st: State, v: Verse, surahs: seq<SurahRecord>)
    requires SurahChanges(st, v) && v.surah != 9
    ensures HeaderThenBasmala(EnterVerse(st, v, surahs).0, surahs, v.surah)
  {
    var l := EnterVerse(st, v, surahs).0;
    var k := |st.lines|;
    assert l[k] == HeaderBucket(surahs, v.surah) && l[k + 1] == BasmalaBucket;
  }

  /** The verse loop: at a change of surah to one other than 9 (between
      verse `i - 1` and verse `i`, or before the first verse when the state
      already has a surah), the new header is followed by a basmala in the
      final buckets, unless some word ended up behind a marker. */
  lemma {:induction false} SurahChangeLeavesPair(st: State, verses: seq<Verse>, t: Tables, i: nat)
    requires PlaceVerses(st, verses, t).Ok? && i < |verses| && verses[i].surah != 9
    requires i == 0 ==> SurahChanges(st, verses[0])
    requires i > 0 ==> verses[i - 1].surah != verses[i].surah
    ensures PairOrHidden(PlaceVerses(st, verses, t).value.lines, t.surahs, verses[i].surah)
    decreases i
  {
    var v := verses[0];
    var next := PlaceVerse(st, v, t).value;
    if i == 0 {
      var (lines, offset) := EnterVerse(st, v, t.surahs);
      EnterVerseMakesPair(st, v, t.surahs);
      PlaceEntriesKeepsPair(lines, offset, VerseEntries(v, t.qpcV1), t.surahs, v.surah);
      PlaceVersesKeepsPair(next, verses[1..], t, v.surah);
    } else {
      assert verses[1..][i - 1] == verses[i];
      assert i - 1 > 0 ==> verses[1..][i - 2] == verses[i - 1];
      SurahChangeLeavesPair(next, verses[1..], t, i - 1);
    }
  }
}
