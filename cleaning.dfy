/** Review cleaning and chunking (src/cleaning.py): text clean-up, duplicate
    removal, the sliding-window splitter and the per-chunk metadata table.

    The character counts CHUNK_CHARS, OVERLAP_CHARS, MIN_CHUNK_CHARS and
    MIN_REVIEW_CHARS are read from the configuration module but not defined
    there; they are the parameters `chunkChars`, `overlapChars`,
    `minChunkChars` and `minReviewChars` here. */
module Cleaning {
  import opened Wrappers
  import opened Strings
  import opened Seqs

  /** A row of the sampled review table as read back from CSV, where an empty
      text cell reads back as null. */
  datatype ReviewRow = ReviewRow(
    businessId: string, reviewId: string, name: string, stars: int, date: string,
    text: Option<string>)

  /** A review whose text is present. */
  datatype Review = Review(
    businessId: string, reviewId: string, name: string, stars: int, date: string,
    text: string)

  function TextOf(r: Review): string { r.text }

  function ReviewIdOf(r: Review): string { r.reviewId }

  /* ---------------------------------------------------------------------
     clean_review_text
     --------------------------------------------------------------------- */

  /** One entry of the replacement dictionary. */
  datatype Replacement = Replacement(from: char, to: string)

  /** The replacement dictionary in iteration order. Its literal spells the
      no-break space twice, once with a \u escape and once with a \x escape;
      both denote the same key, so the dictionary holds five entries and the
      no-break space keeps the first position. */
  const REPLACEMENTS: seq<Replacement> := [
    Replacement('\U{A0}', " "),
    Replacement('+', ""),
    Replacement('\U{0B}', " "),
    Replacement('\U{201C}', "\""),
    Replacement('\U{2019}', "'")
  ]

  /** The text after the first |table| rounds of the replacement loop. */
  function ApplyReplacements(s: string, table: seq<Replacement>): string {
    if table == [] then s
    else ReplaceChar(ApplyReplacements(s, Init(table)), Last(table).from, Last(table).to)
  }

  /** What cleaning does to a text that has already been stripped and has
      passed the length test: the replacements, then whitespace runs become one
      space, then a final strip. */
  function CleanText(s: string): string {
    Strip(CollapseSpaces(ApplyReplacements(s, REPLACEMENTS)))
  }

  /** The shape every cleaned text has. */
  ghost predicate IsClean(s: string) {
    && (s == [] || (!IsSpace(s[0]) && !IsSpace(s[|s| - 1])))
    && NoAdjacentSpaces(s)
    && (forall i :: 0 <= i < |s| && IsSpace(s[i]) ==> s[i] == ' ')
    && '+' !in s && '\U{A0}' !in s && '\U{0B}' !in s && '\U{201C}' !in s && '\U{2019}' !in s
  }

  /** The characters the replacement dictionary rewrites. */
  predicate Replaced(c: char) {
    c == '\U{A0}' || c == '+' || c == '\U{0B}' || c == '\U{201C}' || c == '\U{2019}'
  }

  /** No replacement text contains a key of the table. */
  predicate KeysNotInValues(table: seq<Replacement>) {
    forall j, k :: 0 <= j < |table| && 0 <= k < |table| ==> table[j].from !in table[k].to
  }

  /** After the table has run, a character is either one of the original text
      that is not a key, or part of the replacement of a key the original text
      held. */
  lemma {:induction false} ApplyReplacementsChars(s: string, table: seq<Replacement>)
    requires KeysNotInValues(table)
    ensures forall c :: c in ApplyReplacements(s, table) ==>
      (c in s && forall j :: 0 <= j < |table| ==> c != table[j].from)
      || (exists k :: 0 <= k < |table| && table[k].from in s && c in table[k].to)
  {
    if table != [] {
      var init, last := Init(table), Last(table);
      assert table == init + [last];
      assert KeysNotInValues(init) by {
        forall j, k | 0 <= j < |init| && 0 <= k < |init| ensures init[j].from !in init[k].to {
          assert init[j] == table[j] && init[k] == table[k];
        }
      }
      ApplyReplacementsChars(s, init);
      var prev := ApplyReplacements(s, init);
      forall c | c in ApplyReplacements(s, table)
        ensures (c in s && forall j :: 0 <= j < |table| ==> c != table[j].from)
          || (exists k :: 0 <= k < |table| && table[k].from in s && c in table[k].to)
      {
        if c in last.to && last.from in prev {
          assert table[|table| - 1] == last;
        } else if c in last.to {
          assert ApplyReplacements(s, table) == prev;
          if c !in s || exists j :: 0 <= j < |init| && c == init[j].from {
            var k :| 0 <= k < |init| && init[k].from in s && c in init[k].to;
            assert table[k] == init[k];
          }
        } else {
          assert c in prev && c != last.from;
          if c !in s || exists j :: 0 <= j < |init| && c == init[j].from {
            var k :| 0 <= k < |init| && init[k].from in s && c in init[k].to;
            assert table[k] == init[k];
          }
        }
      }
    }
  }

  lemma ReplacementsTableKeys()
    ensures KeysNotInValues(REPLACEMENTS)
  {
  }

  lemma ReplacedAreKeys()
    ensures forall c :: Replaced(c) <==> exists j :: 0 <= j < |REPLACEMENTS| && c == REPLACEMENTS[j].from
  {
    assert REPLACEMENTS[0].from == '\U{A0}' && REPLACEMENTS[1].from == '+' && REPLACEMENTS[2].from == '\U{0B}'
      && REPLACEMENTS[3].from == '\U{201C}' && REPLACEMENTS[4].from == '\U{2019}';
  }

  /** After the dictionary has run, none of its keys is left. */
  lemma NoReplacedCharLeft(s: string)
    ensures forall c :: c in ApplyReplacements(s, REPLACEMENTS) ==> !Replaced(c)
  {
    ReplacementsTableKeys();
    ReplacedAreKeys();
    ApplyReplacementsChars(s, REPLACEMENTS);
    forall c | c in ApplyReplacements(s, REPLACEMENTS) ensures !Replaced(c) {
      if c in s && forall j :: 0 <= j < |REPLACEMENTS| ==> c != REPLACEMENTS[j].from {
      } else {
        var k :| 0 <= k < |REPLACEMENTS| && REPLACEMENTS[k].from in s && c in REPLACEMENTS[k].to;
        assert c in " " || c in "" || c in "\"" || c in "'";
      }
    }
  }

  /** A cleaned text holds none of the dictionary's keys. */
  lemma CleanTextNoKeys(s: string)
    ensures forall c :: c in CleanText(s) ==> !Replaced(c)
  {
    NoReplacedCharLeft(s);
    var t := ApplyReplacements(s, REPLACEMENTS);
    CollapseSpacesChars(t);
    StripChars(CollapseSpaces(t));
  }

  /** The only whitespace character of a cleaned text is the plain space. */
  lemma CleanTextSpaces(s: string)
    ensures forall i :: 0 <= i < |CleanText(s)| && IsSpace(CleanText(s)[i]) ==> CleanText(s)[i] == ' '
  {
    var u := CollapseSpaces(ApplyReplacements(s, REPLACEMENTS));
    CollapseSpacesShape(ApplyReplacements(s, REPLACEMENTS));
    StripChars(u);
    var r := CleanText(s);
    forall i | 0 <= i < |r| && IsSpace(r[i]) ensures r[i] == ' ' {
      assert r[i] in u;
      var k :| 0 <= k < |u| && u[k] == r[i];
    }
  }

  lemma CleanTextIsClean(s: string)
    ensures IsClean(CleanText(s))
  {
    var u := CollapseSpaces(ApplyReplacements(s, REPLACEMENTS));
    CollapseSpacesShape(ApplyReplacements(s, REPLACEMENTS));
    StripTrimsEnds(u);
    StripKeepsNoAdjacentSpaces(u);
    CleanTextSpaces(s);
    CleanTextNoKeys(s);
    var r := CleanText(s);
    assert Replaced('+') && Replaced('\U{A0}') && Replaced('\U{0B}') && Replaced('\U{201C}') && Replaced('\U{2019}');
  }

  /** A row passes lines 37-41 when its text is present and, once stripped,
      at least minReviewChars long. */
  predicate PassesLengthTest(r: ReviewRow, minReviewChars: int) {
    r.text.Some? && |Strip(r.text.value)| >= minReviewChars
  }

  function StripRow(r: ReviewRow): Review
    requires r.text.Some?
  {
    Review(r.businessId, r.reviewId, r.name, r.stars, r.date, Strip(r.text.value))
  }

  /** The rows left after stripping, dropping nulls and dropping short texts. */
  function StrippedRows(rows: seq<ReviewRow>, minReviewChars: int): (kept: seq<Review>)
    ensures |kept| <= |rows|
    ensures forall r :: r in rows && PassesLengthTest(r, minReviewChars) ==> StripRow(r) in kept
    ensures forall x :: x in kept ==> exists r :: r in rows && PassesLengthTest(r, minReviewChars) && x == StripRow(r)
  {
    if rows == [] then []
    else
      var init := StrippedRows(Init(rows), minReviewChars);
      var r := Last(rows);
      assert rows == Init(rows) + [r];
      init + (if PassesLengthTest(r, minReviewChars) then [StripRow(r)] else [])
  }

  function WithText(r: Review, text: string): Review {
    Review(r.businessId, r.reviewId, r.name, r.stars, r.date, text)
  }

  /** The table clean_review_text returns. */
  function CleanedRows(rows: seq<ReviewRow>, minReviewChars: int): seq<Review> {
    var kept := StrippedRows(rows, minReviewChars);
    seq(|kept|, k requires 0 <= k < |kept| => WithText(kept[k], CleanText(kept[k].text)))
  }

  /** clean_review_text: strip, drop nulls and short texts, run the
      replacement dictionary over the text column entry by entry, then collapse
      whitespace and strip again. */
  method CleanReviewText(rows: seq<ReviewRow>, minReviewChars: int) returns (cleaned: seq<Review>)
    ensures cleaned == CleanedRows(rows, minReviewChars)
  {
    var kept := StrippedRows(rows, minReviewChars);
    var column := kept;
    var i := 0;
    while i < |REPLACEMENTS|
      invariant 0 <= i <= |REPLACEMENTS|
      invariant |column| == |kept|
      invariant forall k :: 0 <= k < |kept| ==>
        column[k] == WithText(kept[k], ApplyReplacements(kept[k].text, REPLACEMENTS[..i]))
    {
      var rep := REPLACEMENTS[i];
      column := seq(|column|, k requires 0 <= k < |column| =>
        WithText(column[k], ReplaceChar(column[k].text, rep.from, rep.to)));
      assert Init(REPLACEMENTS[..i + 1]) == REPLACEMENTS[..i];
      i := i + 1;
    }
    assert REPLACEMENTS[..i] == REPLACEMENTS;
    cleaned := seq(|column|, k requires 0 <= k < |column| =>
      WithText(column[k], Strip(CollapseSpaces(column[k].text))));
  }

  /** What clean_review_text keeps: every output text is clean, there are
      never more rows than before, each output row is a present, long enough
      input row with only its text rewritten, and every such input row is kept. */
  lemma {:induction false} CleanedRowsSpec(rows: seq<ReviewRow>, minReviewChars: int)
    ensures var out := CleanedRows(rows, minReviewChars);
      && |out| <= |rows|
      && (forall x :: x in out ==> IsClean(x.text))
      && (forall x :: x in out ==>
            exists r :: r in rows && PassesLengthTest(r, minReviewChars) && x == WithText(StripRow(r), CleanText(Strip(r.text.value))))
      && (forall r :: r in rows && PassesLengthTest(r, minReviewChars) ==>
            WithText(StripRow(r), CleanText(Strip(r.text.value))) in out)
  {
    var kept := StrippedRows(rows, minReviewChars);
    var out := CleanedRows(rows, minReviewChars);
    forall x | x in out ensures IsClean(x.text) {
      var k :| 0 <= k < |out| && out[k] == x;
      CleanTextIsClean(kept[k].text);
    }
    forall x | x in out
      ensures exists r :: (r in rows && PassesLengthTest(r, minReviewChars)
        && x == WithText(StripRow(r), CleanText(Strip(r.text.value))))
    {
      var k :| 0 <= k < |out| && out[k] == x;
      assert kept[k] in kept;
    }
    forall r | r in rows && PassesLengthTest(r, minReviewChars)
      ensures WithText(StripRow(r), CleanText(Strip(r.text.value))) in out
    {
      var k :| 0 <= k < |kept| && kept[k] == StripRow(r);
      assert out[k] == WithText(StripRow(r), CleanText(Strip(r.text.value)));
    }
  }

  /** The length test is made before the replacements: a text made only of
      '+' characters, as long as the minimum, passes the test and is cleaned
      to the empty text. */
  lemma LengthTestPrecedesReplacement(r: ReviewRow, minReviewChars: int)
    requires r.text.Some? && |r.text.value| >= minReviewChars
    requires forall i :: 0 <= i < |r.text.value| ==> r.text.value[i] == '+'
    ensures PassesLengthTest(r, minReviewChars)
    ensures CleanedRows([r], minReviewChars) == [WithText(StripRow(r), "")]
  {
    var s := r.text.value;
    assert s != [] ==> !IsSpace(s[0]) && !IsSpace(s[|s| - 1]);
    StripSpec(s);
    assert Strip(s) == s;
    var kept := StrippedRows([r], minReviewChars);
    assert kept == [StripRow(r)] by {
      assert Init([r]) == [] && Last([r]) == r;
    }
    PlusOnlyCleansToEmpty(s);
    var out := CleanedRows([r], minReviewChars);
    assert |out| == 1 && out[0] == WithText(kept[0], CleanText(kept[0].text));
  }

  lemma HeadIsMember<T>(t: seq<T>)
    ensures t != [] ==> t[0] in t
  {
  }

  lemma PlusOnlyCleansToEmpty(s: string)
    requires forall i :: 0 <= i < |s| ==> s[i] == '+'
    ensures CleanText(s) == []
  {
    ReplacementsTableKeys();
    ApplyReplacementsChars(s, REPLACEMENTS);
    var t := ApplyReplacements(s, REPLACEMENTS);
    assert forall c :: c in s ==> c == REPLACEMENTS[1].from;
    assert forall k :: 0 <= k < |REPLACEMENTS| && REPLACEMENTS[k].from in s ==> REPLACEMENTS[k].to == [];
    HeadIsMember(t);
    assert t == [];
  }

  /* ---------------------------------------------------------------------
     normalize_unicode, deduplicate_reviews, clean_normalize_deduplicate
     --------------------------------------------------------------------- */

  /** drop_duplicates on the text column, keeping the first row of each text. */
  function DeduplicateReviews(rows: seq<Review>): seq<Review> {
    DistinctBy(rows, TextOf)
  }

  /** Deduplicated texts are pairwise distinct, the rows keep their relative
      order, no text disappears, and the row kept for a text is its first one. */
  lemma DeduplicateReviewsSpec(rows: seq<Review>)
    ensures KeysDistinct(DeduplicateReviews(rows), TextOf)
    ensures IsSubseq(DeduplicateReviews(rows), rows)
    ensures forall t :: HasKey(DeduplicateReviews(rows), TextOf, t) <==> HasKey(rows, TextOf, t)
    ensures forall j :: 0 <= j < |rows| && !HasKey(rows[..j], TextOf, rows[j].text) ==>
      rows[j] in DeduplicateReviews(rows)
  {
    DistinctByKeysDistinct(rows, TextOf);
    DistinctByIsSubseq(rows, TextOf);
    DistinctByKeepsKeys(rows, TextOf);
    DistinctByKeepsFirst(rows, TextOf);
  }

  /** The row a kept input row becomes: stripped, cleaned, then normalised. */
  function Prepared(r: ReviewRow, normalize: string -> string): Review
    requires r.text.Some?
  {
    WithText(StripRow(r), normalize(CleanText(Strip(r.text.value))))
  }

  /** clean_normalize_deduplicate, with NFKC normalisation given as `normalize`:
      no two output rows share a text, every output row is a present, long
      enough input row with its text stripped, cleaned and normalised, and every
      such input row's final text is present in the output. */
  method CleanNormalizeDeduplicate(rows: seq<ReviewRow>, minReviewChars: int, normalize: string -> string)
    returns (out: seq<Review>)
    ensures out == DeduplicateReviews(Normalized(CleanedRows(rows, minReviewChars), normalize))
    ensures KeysDistinct(out, TextOf)
    ensures forall x :: x in out ==>
      exists r :: r in rows && PassesLengthTest(r, minReviewChars) && x == Prepared(r, normalize)
    ensures forall r :: r in rows && PassesLengthTest(r, minReviewChars) ==>
      HasKey(out, TextOf, Prepared(r, normalize).text)
  {
    var cleaned := CleanReviewText(rows, minReviewChars);
    var normalized := Normalized(cleaned, normalize);
    out := DeduplicateReviews(normalized);
    CleanedRowsSpec(rows, minReviewChars);
    DeduplicateReviewsSpec(normalized);
    SubseqMembers(out, normalized);
    forall x | x in out
      ensures exists r :: r in rows && PassesLengthTest(r, minReviewChars) && x == Prepared(r, normalize)
    {
      var k :| 0 <= k < |normalized| && normalized[k] == x;
      assert cleaned[k] in cleaned;
      var r :| r in rows && PassesLengthTest(r, minReviewChars)
        && cleaned[k] == WithText(StripRow(r), CleanText(Strip(r.text.value)));
      assert x == Prepared(r, normalize);
    }
    forall r | r in rows && PassesLengthTest(r, minReviewChars)
      ensures HasKey(out, TextOf, Prepared(r, normalize).text)
    {
      var k :| 0 <= k < |cleaned| && cleaned[k] == WithText(StripRow(r), CleanText(Strip(r.text.value)));
      assert TextOf(normalized[k]) == Prepared(r, normalize).text;
      assert HasKey(normalized, TextOf, Prepared(r, normalize).text);
    }
  }

  /** normalize_unicode: each row keeps its position and every column but the
      text, which becomes `normalize` of the old text. */
  function Normalized(rows: seq<Review>, normalize: string -> string): (r: seq<Review>)
    ensures |r| == |rows|
    ensures forall k :: 0 <= k < |rows| ==>
      r[k].text == normalize(rows[k].text) && r[k] == rows[k].(text := r[k].text)
  {
    seq(|rows|, k requires 0 <= k < |rows| => WithText(rows[k], normalize(rows[k].text)))
  }

  /* ---------------------------------------------------------------------
     divide_reviews_into_chunks
     --------------------------------------------------------------------- */

  /** One entry of the chunk dictionary: chunk index and chunk text. */
  datatype Chunk = Chunk(index: nat, text: string)

  /** A Python slice bound: negative counts from the end, then clamped to [0, n]. */
  function ClampIndex(i: int, n: nat): (j: nat)
    ensures j <= n
    ensures 0 <= i <= n ==> j == i
  {
    if i < 0 then (if i + n < 0 then 0 else i + n) else if i > n then n else i
  }

  /** Python's `s[start:stop]`. */
  function PySlice(s: string, start: int, stop: int): (r: string)
    ensures 0 <= start <= stop <= |s| ==> r == s[start..stop]
    ensures 0 <= stop && start <= stop ==> |r| <= stop - start
  {
    var a, b := ClampIndex(start, |s|), ClampIndex(stop, |s|);
    if a < b then s[a..b] else []
  }

  /** The text a loop round stores for a text longer than chunkChars, with
      the window at `charIdx`: the prefix on the first round, later the window
      that starts overlapChars before charIdx, and nothing once the remaining
      span plus the overlap is not above minChunkChars. */
  function RoundText(text: string, charIdx: nat,
                     chunkChars: int, overlapChars: int, minChunkChars: int): Option<string>
  {
    if charIdx == 0 then
      Some(PySlice(text, 0, chunkChars))
    else if |text| - charIdx + overlapChars > minChunkChars then
      Some(PySlice(text, charIdx - overlapChars, charIdx + chunkChars - overlapChars))
    else
      None
  }

  /** The dictionary entry a round adds under key `chunkIdx`, if any. */
  function Stored(chunkIdx: nat, t: Option<string>): seq<Chunk> {
    if t.Some? then [Chunk(chunkIdx, t.value)] else []
  }

  /** The chunks stored by the rounds from `chunkIdx` on, the window advancing
      by chunkChars - overlapChars per round until it reaches the end. */
  function ChunksFrom(text: string, chunkIdx: nat, charIdx: nat,
                      chunkChars: int, overlapChars: int, minChunkChars: int): seq<Chunk>
    requires chunkChars > overlapChars
    decreases |text| - charIdx
  {
    if charIdx >= |text| then []
    else
      Stored(chunkIdx, RoundText(text, charIdx, chunkChars, overlapChars, minChunkChars))
      + ChunksFrom(text, chunkIdx + 1, charIdx + (chunkChars - overlapChars), chunkChars, overlapChars, minChunkChars)
  }

  /** The chunk table of the splitting loop run to the end of the text. */
  function Chunks(text: string, chunkChars: int, overlapChars: int, minChunkChars: int): seq<Chunk>
    requires chunkChars > overlapChars
  {
    if |text| == 0 then []
    else if |text| <= chunkChars then [Chunk(0, text)]
    else ChunksFrom(text, 0, 0, chunkChars, overlapChars, minChunkChars)
  }

  /** One round of the splitting loop on a text longer than chunkChars: the
      chunks stored so far, then what this round stores, then the later rounds,
      make up the chunks stored from here on. */
  lemma RoundThenRest(chunks: seq<Chunk>, text: string, chunkIdx: nat, charIdx: nat,
                      chunkChars: int, overlapChars: int, minChunkChars: int)
    requires chunkChars > overlapChars && charIdx < |text|
    ensures (chunks + Stored(chunkIdx, RoundText(text, charIdx, chunkChars, overlapChars, minChunkChars)))
            + ChunksFrom(text, chunkIdx + 1, charIdx + (chunkChars - overlapChars), chunkChars, overlapChars, minChunkChars)
         == chunks + ChunksFrom(text, chunkIdx, charIdx, chunkChars, overlapChars, minChunkChars)
  {
    var round := Stored(chunkIdx, RoundText(text, charIdx, chunkChars, overlapChars, minChunkChars));
    var rest := ChunksFrom(text, chunkIdx + 1, charIdx + (chunkChars - overlapChars), chunkChars, overlapChars, minChunkChars);
    assert ChunksFrom(text, chunkIdx, charIdx, chunkChars, overlapChars, minChunkChars) == round + rest;
    assert (chunks + round) + rest == chunks + (round + rest);
  }

  lemma ChunksFromEnd(text: string, chunkIdx: nat, charIdx: nat,
                      chunkChars: int, overlapChars: int, minChunkChars: int)
    requires chunkChars > overlapChars && charIdx >= |text|
    ensures ChunksFrom(text, chunkIdx, charIdx, chunkChars, overlapChars, minChunkChars) == []
  {
  }

  /** The splitting loop of divide_reviews_into_chunks run to the end of the
      text, which the source evidently intends: the window advances by
      chunkChars - overlapChars per round, so it terminates exactly when
      chunkChars > overlapChars. When the whole text fits in one chunk, every
      round rewrites key 0 of the dictionary, which then holds that entry alone. */
  method DivideReviewIntoChunks(text: string, chunkChars: int, overlapChars: int, minChunkChars: int)
    returns (chunks: seq<Chunk>)
    requires chunkChars > overlapChars
    ensures chunks == Chunks(text, chunkChars, overlapChars, minChunkChars)
  {
    chunks := [];
    var charIdx: nat := 0;
    var chunkIdx: nat := 0;
    while charIdx < |text|
      invariant |text| == 0 ==> chunks == []
      invariant |text| <= chunkChars ==> chunks == (if charIdx == 0 then [] else [Chunk(0, text)])
      invariant |text| > chunkChars ==>
        chunks + ChunksFrom(text, chunkIdx, charIdx, chunkChars, overlapChars, minChunkChars)
        == ChunksFrom(text, 0, 0, chunkChars, overlapChars, minChunkChars)
      decreases |text| - charIdx
    {
      var upcomingChunkLength := |text| - charIdx + overlapChars;
      if |text| <= chunkChars {
        chunks := [Chunk(0, text)];
      } else {
        ghost var before := chunks;
        if charIdx == 0 {
          chunks := chunks + [Chunk(chunkIdx, PySlice(text, 0, chunkChars))];
        } else if upcomingChunkLength > minChunkChars {
          chunks := chunks + [Chunk(chunkIdx, PySlice(text, charIdx - overlapChars, charIdx + chunkChars - overlapChars))];
        }
        assert chunks == before + Stored(chunkIdx, RoundText(text, charIdx, chunkChars, overlapChars, minChunkChars));
        RoundThenRest(before, text, chunkIdx, charIdx, chunkChars, overlapChars, minChunkChars);
      }
      chunkIdx := chunkIdx + 1;
      charIdx := charIdx + (chunkChars - overlapChars);
    }
    ChunksFromEnd(text, chunkIdx, charIdx, chunkChars, overlapChars, minChunkChars);
    if |text| == 0 {
      assert Chunks(text, chunkChars, overlapChars, minChunkChars) == [];
    } else if |text| <= chunkChars {
      assert charIdx > 0;
      assert Chunks(text, chunkChars, overlapChars, minChunkChars) == [Chunk(0, text)];
    } else {
      assert chunks + [] == chunks;
      assert Chunks(text, chunkChars, overlapChars, minChunkChars) == ChunksFrom(text, 0, 0, chunkChars, overlapChars, minChunkChars);
    }
  }

  /** The function as written: it returns from inside the loop after the first
      round, so a non-empty text gives only its first chunk, and an empty text,
      for which the loop never runs, gives None. */
  function AsWrittenChunks(text: string, chunkChars: int): Option<seq<Chunk>> {
    if |text| == 0 then None
    else if |text| <= chunkChars then Some([Chunk(0, text)])
    else Some([Chunk(0, PySlice(text, 0, chunkChars))])
  }

  /** A text that fits yields exactly one chunk: index 0, the whole text. A
      longer text starts with its first chunkChars characters, whatever
      minChunkChars is. */
  lemma {:induction false} FirstChunk(text: string, chunkChars: int, overlapChars: int, minChunkChars: int)
    requires chunkChars > overlapChars && chunkChars >= 0
    ensures 0 < |text| <= chunkChars ==> Chunks(text, chunkChars, overlapChars, minChunkChars) == [Chunk(0, text)]
    ensures |text| > chunkChars ==>
      var chunks := Chunks(text, chunkChars, overlapChars, minChunkChars);
      chunks != [] && chunks[0] == Chunk(0, text[..chunkChars])
  {
  }

  /** Where round k puts its window: k steps of `step` from the start of the text. */
  function Offset(k: nat, step: int): int {
    if k == 0 then 0 else Offset(k - 1, step) + step
  }

  lemma {:induction false} OffsetIsProduct(k: nat, step: int)
    ensures Offset(k, step) == k * step
  {
    if k > 0 {
      OffsetIsProduct(k - 1, step);
      assert k * step == (k - 1) * step + step;
    }
  }

  /** Chunk `c` lies where the loop puts chunk number c.index: past the first,
      the window [k*(C-O) - O, (k+1)*(C-O)) for k = c.index, with the window's
      position still inside the text, the remaining span plus the overlap
      above minChunkChars, and no more than C characters. */
  predicate InWindow(text: string, c: Chunk, chunkChars: int, overlapChars: int, minChunkChars: int) {
    var step := chunkChars - overlapChars;
    && Offset(c.index, step) < |text|
    && |c.text| <= chunkChars
    && (c.index >= 1 ==>
          && c.text == PySlice(text, Offset(c.index, step) - overlapChars, Offset(c.index + 1, step))
          && |text| - Offset(c.index, step) + overlapChars > minChunkChars)
  }

  /** What round k stores, with the window at its offset, lies in its window. */
  lemma RoundInWindow(text: string, chunkIdx: nat, charIdx: nat,
                      chunkChars: int, overlapChars: int, minChunkChars: int)
    requires chunkChars > overlapChars && chunkChars >= 0
    requires charIdx == Offset(chunkIdx, chunkChars - overlapChars) && charIdx < |text|
    ensures var round := RoundText(text, charIdx, chunkChars, overlapChars, minChunkChars);
      round.Some? ==> InWindow(text, Chunk(chunkIdx, round.value), chunkChars, overlapChars, minChunkChars)
  {
    var round := RoundText(text, charIdx, chunkChars, overlapChars, minChunkChars);
    if round.Some? {
      if chunkIdx == 0 {
        FirstRoundInWindow(text, chunkChars, overlapChars, minChunkChars);
      } else {
        OffsetGrows(0, chunkIdx, chunkChars - overlapChars);
        LaterRoundInWindow(text, chunkIdx, charIdx, chunkChars, overlapChars, minChunkChars);
      }
    }
  }

  lemma FirstRoundInWindow(text: string, chunkChars: int, overlapChars: int, minChunkChars: int)
    requires chunkChars > overlapChars && chunkChars >= 0 && 0 < |text|
    ensures InWindow(text, Chunk(0, PySlice(text, 0, chunkChars)), chunkChars, overlapChars, minChunkChars)
  {
  }

  lemma LaterRoundInWindow(text: string, chunkIdx: nat, charIdx: nat,
                           chunkChars: int, overlapChars: int, minChunkChars: int)
    requires chunkChars > overlapChars && chunkChars >= 0 && chunkIdx >= 1
    requires charIdx == Offset(chunkIdx, chunkChars - overlapChars) && 0 < charIdx < |text|
    requires |text| - charIdx + overlapChars > minChunkChars
    ensures InWindow(text, Chunk(chunkIdx, PySlice(text, charIdx - overlapChars, charIdx + chunkChars - overlapChars)),
                     chunkChars, overlapChars, minChunkChars)
  {
    var start, stop := charIdx - overlapChars, charIdx + chunkChars - overlapChars;
    assert Offset(chunkIdx + 1, chunkChars - overlapChars) == stop;
    assert 0 <= stop && start <= stop;
    assert |PySlice(text, start, stop)| <= chunkChars;
  }

  lemma {:induction false} OffsetNonNegative(k: nat, step: int)
    requires step > 0
    ensures Offset(k, step) >= 0
  {
    if k > 0 {
      OffsetNonNegative(k - 1, step);
    }
  }

  /** `c` is what round c.index stores, with that round's window inside the text. */
  predicate IsRound(text: string, c: Chunk, chunkChars: int, overlapChars: int, minChunkChars: int) {
    var at := Offset(c.index, chunkChars - overlapChars);
    0 <= at < |text| && RoundText(text, at, chunkChars, overlapChars, minChunkChars) == Some(c.text)
  }

  /** Every chunk stored from round `chunkIdx` on is what its own round stores. */
  lemma {:induction false} ChunksFromRounds(text: string, chunkIdx: nat, charIdx: nat,
                                            chunkChars: int, overlapChars: int, minChunkChars: int)
    requires chunkChars > overlapChars
    requires charIdx == Offset(chunkIdx, chunkChars - overlapChars)
    ensures forall c :: c in ChunksFrom(text, chunkIdx, charIdx, chunkChars, overlapChars, minChunkChars) ==>
      IsRound(text, c, chunkChars, overlapChars, minChunkChars)
    decreases |text| - charIdx
  {
    var step := chunkChars - overlapChars;
    if charIdx < |text| {
      var round := RoundText(text, charIdx, chunkChars, overlapChars, minChunkChars);
      var rest := ChunksFrom(text, chunkIdx + 1, charIdx + step, chunkChars, overlapChars, minChunkChars);
      assert ChunksFrom(text, chunkIdx, charIdx, chunkChars, overlapChars, minChunkChars) == Stored(chunkIdx, round) + rest;
      assert charIdx + step == Offset(chunkIdx + 1, step);
      ChunksFromRounds(text, chunkIdx + 1, charIdx + step, chunkChars, overlapChars, minChunkChars);
      if round.Some? {
        assert IsRound(text, Chunk(chunkIdx, round.value), chunkChars, overlapChars, minChunkChars);
      }
    }
  }

  /** Once a round stores nothing, no later round stores anything: the
      remaining span only shrinks. */
  lemma {:induction false} ChunksFromAfterStop(text: string, chunkIdx: nat, charIdx: nat,
                                               chunkChars: int, overlapChars: int, minChunkChars: int)
    requires chunkChars > overlapChars && charIdx > 0
    requires |text| - charIdx + overlapChars <= minChunkChars
    ensures ChunksFrom(text, chunkIdx, charIdx, chunkChars, overlapChars, minChunkChars) == []
    decreases |text| - charIdx
  {
    if charIdx < |text| {
      ChunksFromAfterStop(text, chunkIdx + 1, charIdx + (chunkChars - overlapChars), chunkChars, overlapChars, minChunkChars);
    }
  }

  /** The chunk indices of `cs` run k, k+1, ... in order. */
  predicate IndicesFrom(cs: seq<Chunk>, k: nat) {
    forall i :: 0 <= i < |cs| ==> cs[i].index == k + i
  }

  lemma {:induction false} ChunksFromIndices(text: string, chunkIdx: nat, charIdx: nat,
                                             chunkChars: int, overlapChars: int, minChunkChars: int)
    requires chunkChars > overlapChars
    ensures IndicesFrom(ChunksFrom(text, chunkIdx, charIdx, chunkChars, overlapChars, minChunkChars), chunkIdx)
    decreases |text| - charIdx
  {
    var step := chunkChars - overlapChars;
    if charIdx < |text| {
      var round := RoundText(text, charIdx, chunkChars, overlapChars, minChunkChars);
      var rest := ChunksFrom(text, chunkIdx + 1, charIdx + step, chunkChars, overlapChars, minChunkChars);
      assert ChunksFrom(text, chunkIdx, charIdx, chunkChars, overlapChars, minChunkChars) == Stored(chunkIdx, round) + rest;
      if round.None? {
        ChunksFromAfterStop(text, chunkIdx + 1, charIdx + step, chunkChars, overlapChars, minChunkChars);
        assert Stored(chunkIdx, round) + rest == [];
      } else {
        ChunksFromIndices(text, chunkIdx + 1, charIdx + step, chunkChars, overlapChars, minChunkChars);
        IndicesCons(Chunk(chunkIdx, round.value), rest, chunkIdx);
      }
    }
  }

  lemma IndicesCons(c: Chunk, rest: seq<Chunk>, k: nat)
    requires c.index == k && IndicesFrom(rest, k + 1)
    ensures IndicesFrom([c] + rest, k)
  {
    var cs := [c] + rest;
    forall i | 0 <= i < |cs| ensures cs[i].index == k + i {
      if i > 0 {
        assert cs[i] == rest[i - 1];
      }
    }
  }

  /** The chunk indices are exactly 0, 1, ..., n-1, in order. */
  lemma ChunkIndicesConsecutive(text: string, chunkChars: int, overlapChars: int, minChunkChars: int)
    requires chunkChars > overlapChars
    ensures IndicesFrom(Chunks(text, chunkChars, overlapChars, minChunkChars), 0)
  {
    if |text| > chunkChars {
      ChunksFromIndices(text, 0, 0, chunkChars, overlapChars, minChunkChars);
    }
  }

  /** Each chunk past the first is its window of the text, and no chunk is
      longer than chunkChars. */
  lemma ChunkWindows(text: string, chunkChars: int, overlapChars: int, minChunkChars: int)
    requires chunkChars > overlapChars && chunkChars >= 0
    ensures forall i :: 0 <= i < |Chunks(text, chunkChars, overlapChars, minChunkChars)| ==>
      InWindow(text, Chunks(text, chunkChars, overlapChars, minChunkChars)[i], chunkChars, overlapChars, minChunkChars)
  {
    var cs := Chunks(text, chunkChars, overlapChars, minChunkChars);
    if |text| > chunkChars {
      ChunksFromRounds(text, 0, 0, chunkChars, overlapChars, minChunkChars);
      forall i | 0 <= i < |cs| ensures InWindow(text, cs[i], chunkChars, overlapChars, minChunkChars) {
        var c := cs[i];
        assert c in cs;
        assert IsRound(text, c, chunkChars, overlapChars, minChunkChars);
        RoundInWindow(text, c.index, Offset(c.index, chunkChars - overlapChars), chunkChars, overlapChars, minChunkChars);
      }
    } else if |text| > 0 {
      assert cs == [Chunk(0, text)];
    }
  }

  /** Every chunk of `cs` but the last has exactly `size` characters. */
  predicate FullBeforeLast(cs: seq<Chunk>, size: int) {
    forall i :: 0 <= i < |cs| - 1 ==> |cs[i].text| == size
  }

  lemma {:induction false} ChunksFromFull(text: string, chunkIdx: nat, charIdx: nat,
                                          chunkChars: int, overlapChars: int, minChunkChars: int)
    requires 0 <= overlapChars < chunkChars < |text| && 2 * overlapChars <= chunkChars
    requires charIdx == 0 || charIdx >= chunkChars - overlapChars
    ensures FullBeforeLast(ChunksFrom(text, chunkIdx, charIdx, chunkChars, overlapChars, minChunkChars), chunkChars)
    decreases |text| - charIdx
  {
    var step := chunkChars - overlapChars;
    if charIdx < |text| {
      var next := charIdx + step;
      var round := RoundText(text, charIdx, chunkChars, overlapChars, minChunkChars);
      var rest := ChunksFrom(text, chunkIdx + 1, next, chunkChars, overlapChars, minChunkChars);
      ChunksFromFull(text, chunkIdx + 1, next, chunkChars, overlapChars, minChunkChars);
      if round.None? {
        ChunksFromAfterStop(text, chunkIdx + 1, next, chunkChars, overlapChars, minChunkChars);
      } else if rest != [] {
        assert next < |text|;
        assert |round.value| == chunkChars;
        var cs := [Chunk(chunkIdx, round.value)] + rest;
        assert ChunksFrom(text, chunkIdx, charIdx, chunkChars, overlapChars, minChunkChars) == cs;
        assert forall i :: 1 <= i < |cs| ==> cs[i] == rest[i - 1];
      }
    }
  }

  /** When the overlap is at most half a chunk, every chunk but the last is
      exactly chunkChars long. */
  lemma NonFinalChunksAreFull(text: string, chunkChars: int, overlapChars: int, minChunkChars: int)
    requires 0 <= overlapChars && 2 * overlapChars <= chunkChars && chunkChars > overlapChars
    ensures FullBeforeLast(Chunks(text, chunkChars, overlapChars, minChunkChars), chunkChars)
  {
    if |text| > chunkChars {
      ChunksFromFull(text, 0, 0, chunkChars, overlapChars, minChunkChars);
    }
  }

  /** Round k stores a chunk: its window starts inside the text and it is the
      first round or the remaining span plus the overlap is above
      minChunkChars. */
  predicate RoundStores(text: string, k: nat, chunkChars: int, overlapChars: int, minChunkChars: int) {
    var at := Offset(k, chunkChars - overlapChars);
    0 <= at < |text| && (k == 0 || |text| - at + overlapChars > minChunkChars)
  }

  /** Offsets grow by at least one character per round. */
  lemma {:induction false} OffsetGrows(k: nat, j: nat, step: int)
    requires step > 0
    ensures Offset(k + j, step) >= Offset(k, step) + j
  {
    if j > 0 {
      OffsetGrows(k, j - 1, step);
      assert Offset(k + j, step) == Offset(k + j - 1, step) + step;
    }
  }

  /** From round `chunkIdx` on, the stored chunks are one per storing round:
      there are j or more exactly when round chunkIdx + j stores. */
  lemma {:induction false} ChunksFromCount(text: string, chunkIdx: nat, charIdx: nat, j: nat,
                                           chunkChars: int, overlapChars: int, minChunkChars: int)
    requires chunkChars > overlapChars
    requires charIdx == Offset(chunkIdx, chunkChars - overlapChars)
    ensures j < |ChunksFrom(text, chunkIdx, charIdx, chunkChars, overlapChars, minChunkChars)|
        <==> RoundStores(text, chunkIdx + j, chunkChars, overlapChars, minChunkChars)
    decreases |text| - charIdx
  {
    var step := chunkChars - overlapChars;
    var at := Offset(chunkIdx + j, step);
    OffsetGrows(chunkIdx, j, step);
    OffsetGrows(0, chunkIdx + j, step);
    assert at >= 0 && (at == 0 <==> chunkIdx + j == 0);
    if charIdx >= |text| {
      assert !RoundStores(text, chunkIdx + j, chunkChars, overlapChars, minChunkChars);
    } else {
      var round := RoundText(text, charIdx, chunkChars, overlapChars, minChunkChars);
      var rest := ChunksFrom(text, chunkIdx + 1, charIdx + step, chunkChars, overlapChars, minChunkChars);
      assert ChunksFrom(text, chunkIdx, charIdx, chunkChars, overlapChars, minChunkChars) == Stored(chunkIdx, round) + rest;
      if round.None? {
        ChunksFromAfterStop(text, chunkIdx + 1, charIdx + step, chunkChars, overlapChars, minChunkChars);
        if j > 0 {
          assert at > charIdx > 0;
          assert RoundText(text, at, chunkChars, overlapChars, minChunkChars).None?;
        }
      } else if j > 0 {
        assert charIdx + step == Offset(chunkIdx + 1, step);
        ChunksFromCount(text, chunkIdx + 1, charIdx + step, j - 1, chunkChars, overlapChars, minChunkChars);
        assert chunkIdx + 1 + (j - 1) == chunkIdx + j;
      } else {
        OffsetNonNegative(chunkIdx, step);
      }
    }
  }

  /** Completeness of the chunker: for a text longer than one chunk, chunk k
      exists exactly when round k stores, and then it is round k's window of
      the text, numbered k. */
  lemma ChunksComplete(text: string, chunkChars: int, overlapChars: int, minChunkChars: int)
    requires chunkChars > overlapChars && |text| > chunkChars
    ensures forall k: nat ::
      (k < |Chunks(text, chunkChars, overlapChars, minChunkChars)| <==> RoundStores(text, k, chunkChars, overlapChars, minChunkChars))
    ensures forall k: nat :: k < |Chunks(text, chunkChars, overlapChars, minChunkChars)| ==>
      && Chunks(text, chunkChars, overlapChars, minChunkChars)[k].index == k
      && IsRound(text, Chunks(text, chunkChars, overlapChars, minChunkChars)[k], chunkChars, overlapChars, minChunkChars)
  {
    var cs := Chunks(text, chunkChars, overlapChars, minChunkChars);
    forall k: nat ensures k < |cs| <==> RoundStores(text, k, chunkChars, overlapChars, minChunkChars) {
      ChunksFromCount(text, 0, 0, k, chunkChars, overlapChars, minChunkChars);
    }
    ChunksFromIndices(text, 0, 0, chunkChars, overlapChars, minChunkChars);
    ChunksFromRounds(text, 0, 0, chunkChars, overlapChars, minChunkChars);
    forall k: nat | k < |cs|
      ensures cs[k].index == k
      ensures IsRound(text, cs[k], chunkChars, overlapChars, minChunkChars)
    {
      assert cs[k] in cs;
    }
  }

  /** As written, a non-empty text yields exactly the first entry of the full
      chunk table, and an empty text yields None where the full loop yields no
      chunk. */
  lemma AsWrittenIsFirstChunk(text: string, chunkChars: int, overlapChars: int, minChunkChars: int)
    requires chunkChars > overlapChars
    ensures |text| == 0 ==> AsWrittenChunks(text, chunkChars).None? && Chunks(text, chunkChars, overlapChars, minChunkChars) == []
    ensures |text| > 0 ==> AsWrittenChunks(text, chunkChars) == Some(Chunks(text, chunkChars, overlapChars, minChunkChars)[..1])
  {
    if 0 < |text| <= chunkChars {
      assert [Chunk(0, text)][..1] == [Chunk(0, text)];
    } else if |text| > chunkChars && |text| > 0 {
      var step := chunkChars - overlapChars;
      var rest := ChunksFrom(text, 1, step, chunkChars, overlapChars, minChunkChars);
      assert ChunksFrom(text, 0, 0, chunkChars, overlapChars, minChunkChars) == [Chunk(0, PySlice(text, 0, chunkChars))] + rest;
      assert ([Chunk(0, PySlice(text, 0, chunkChars))] + rest)[..1] == [Chunk(0, PySlice(text, 0, chunkChars))];
    }
  }

  /** The early return loses text: a text longer than one chunk whose second
      window is above minChunkChars has at least two chunks, of which the
      function as written returns one. */
  lemma {:induction false} AsWrittenDropsLaterChunks(text: string, chunkChars: int, overlapChars: int, minChunkChars: int)
    requires 0 <= overlapChars < chunkChars < |text|
    requires |text| - (chunkChars - overlapChars) + overlapChars > minChunkChars
    ensures |AsWrittenChunks(text, chunkChars).value| == 1
    ensures |Chunks(text, chunkChars, overlapChars, minChunkChars)| >= 2
  {
    var step := chunkChars - overlapChars;
    assert 0 < step < |text|;
    var rest := ChunksFrom(text, 2, step + step, chunkChars, overlapChars, minChunkChars);
    assert ChunksFrom(text, 1, step, chunkChars, overlapChars, minChunkChars)
      == [Chunk(1, PySlice(text, step - overlapChars, step + chunkChars - overlapChars))] + rest;
  }

  /* ---------------------------------------------------------------------
     generate_chunk_df
     --------------------------------------------------------------------- */

  /** One row of the chunk table, columns in the order the source adds them. */
  datatype ChunkRow = ChunkRow(
    chunkIndex: nat, chunk: string, businessId: string, reviewId: string,
    restaurantName: string, chunkId: string, nChars: nat, stars: int, date: string)

  /** f"{review_id}_{chunk_index}". */
  function ChunkId(reviewId: string, index: nat): string {
    reviewId + "_" + NatToString(index)
  }

  /** A chunk id determines both the review id and the chunk index: the digits
      after the last '_' are the index. */
  lemma {:induction false} ChunkIdInjective(r1: string, k1: nat, r2: string, k2: nat)
    requires ChunkId(r1, k1) == ChunkId(r2, k2)
    ensures r1 == r2 && k1 == k2
  {
    LastUnderscore(r1, k1);
    LastUnderscore(r2, k2);
    ChunkIdParts(r1, k1);
    ChunkIdParts(r2, k2);
    NatToStringInjective(k1, k2);
  }

  lemma {:induction false} LastUnderscore(r: string, k: nat)
    ensures RFind(ChunkId(r, k), '_') == |r|
  {
    var s := ChunkId(r, k);
    var d := NatToString(k);
    assert s[|r|] == '_';
    forall j | |r| < j < |s| ensures s[j] != '_' {
      assert s[j] == d[j - |r| - 1];
    }
  }

  /** A chunk id is the review id, '_', then the digits of the index. */
  lemma ChunkIdParts(r: string, k: nat)
    ensures ChunkId(r, k)[..|r|] == r
    ensures ChunkId(r, k)[|r| + 1..] == NatToString(k)
  {
  }

  /** The metadata row of one chunk of review `r`, under a given chunk id. */
  function RowFor(r: Review, c: Chunk, chunkId: string): ChunkRow {
    ChunkRow(c.index, c.text, r.businessId, r.reviewId, r.name, chunkId, |c.text|, r.stars, r.date)
  }

  /** The rows of one review, each chunk under its own id. */
  function ReviewChunkRows(r: Review, chunks: seq<Chunk>): (rows: seq<ChunkRow>)
    ensures |rows| == |chunks|
    ensures forall i :: 0 <= i < |rows| ==>
      && rows[i].chunkIndex == chunks[i].index && rows[i].chunk == chunks[i].text
      && rows[i].nChars == |chunks[i].text| && rows[i].chunkId == ChunkId(r.reviewId, chunks[i].index)
      && rows[i].businessId == r.businessId && rows[i].reviewId == r.reviewId
      && rows[i].restaurantName == r.name && rows[i].stars == r.stars && rows[i].date == r.date
  {
    seq(|chunks|, i requires 0 <= i < |chunks| => RowFor(r, chunks[i], ChunkId(r.reviewId, chunks[i].index)))
  }

  /** The rows of one review as written: every row's id uses the index of the
      review's first chunk, and an empty chunk table has no first index. */
  function ReviewChunkRowsAsWritten(r: Review, chunks: seq<Chunk>): Result<seq<ChunkRow>> {
    if chunks == [] then Failure(IndexError(0))
    else Success(seq(|chunks|, i requires 0 <= i < |chunks| => RowFor(r, chunks[i], ChunkId(r.reviewId, chunks[0].index))))
  }

  /** One review through the source as written: the splitter's None for an
      empty text fails the first column assignment. */
  function GenerateReviewRowsAsWritten(r: Review, chunkChars: int): Result<seq<ChunkRow>> {
    match AsWrittenChunks(r.text, chunkChars)
    case None => Failure(TypeError("'NoneType' object does not support item assignment"))
    case Some(chunks) => ReviewChunkRowsAsWritten(r, chunks)
  }

  /** Under the first-index rule, two chunks of one review share an id. */
  lemma FirstIndexIdsCollide(r: Review, chunks: seq<Chunk>)
    requires |chunks| >= 2
    ensures var rows := ReviewChunkRowsAsWritten(r, chunks);
      rows.Success? && |rows.value| >= 2 && rows.value[0].chunkId == rows.value[1].chunkId
  {
  }

  /** Together with the full splitter, the first-index rule gives a long review
      two rows with one id; with each chunk's own index the ids are distinct. */
  lemma {:induction false} ChunkIdsPerReview(r: Review, chunkChars: int, overlapChars: int, minChunkChars: int)
    requires chunkChars > overlapChars
    ensures ChunkIdsUnique(ReviewChunkRows(r, Chunks(r.text, chunkChars, overlapChars, minChunkChars)))
  {
    var cs := Chunks(r.text, chunkChars, overlapChars, minChunkChars);
    var rows := ReviewChunkRows(r, cs);
    ChunkIndicesConsecutive(r.text, chunkChars, overlapChars, minChunkChars);
    forall i, j | 0 <= i < j < |rows| ensures rows[i].chunkId != rows[j].chunkId {
      if rows[i].chunkId == rows[j].chunkId {
        ChunkIdInjective(r.reviewId, cs[i].index, r.reviewId, cs[j].index);
      }
    }
  }

  /** The chunk table for a list of reviews: each review's rows in turn. */
  function ChunkTable(reviews: seq<Review>, chunkChars: int, overlapChars: int, minChunkChars: int): seq<ChunkRow>
    requires chunkChars > overlapChars
  {
    if reviews == [] then []
    else
      ChunkTable(Init(reviews), chunkChars, overlapChars, minChunkChars)
      + ReviewChunkRows(Last(reviews), Chunks(Last(reviews).text, chunkChars, overlapChars, minChunkChars))
  }

  /** generate_chunk_df: split every review and append its rows to the table. */
  method GenerateChunkDf(reviews: seq<Review>, chunkChars: int, overlapChars: int, minChunkChars: int)
    returns (table: seq<ChunkRow>)
    requires chunkChars > overlapChars
    ensures table == ChunkTable(reviews, chunkChars, overlapChars, minChunkChars)
  {
    table := [];
    for i := 0 to |reviews|
      invariant table == ChunkTable(reviews[..i], chunkChars, overlapChars, minChunkChars)
    {
      var chunks := DivideReviewIntoChunks(reviews[i].text, chunkChars, overlapChars, minChunkChars);
      var newRows := ReviewChunkRows(reviews[i], chunks);
      assert Init(reviews[..i + 1]) == reviews[..i] && Last(reviews[..i + 1]) == reviews[i];
      table := table + newRows;
    }
    assert reviews[..|reviews|] == reviews;
  }

  /** `row` is the row of one of the chunks of review `r`, under the chunk's own id. */
  predicate IsRowOf(row: ChunkRow, r: Review, chunkChars: int, overlapChars: int, minChunkChars: int)
    requires chunkChars > overlapChars
  {
    && row.businessId == r.businessId && row.reviewId == r.reviewId && row.restaurantName == r.name
    && row.stars == r.stars && row.date == r.date
    && row.chunkId == ChunkId(r.reviewId, row.chunkIndex)
    && Chunk(row.chunkIndex, row.chunk) in Chunks(r.text, chunkChars, overlapChars, minChunkChars)
  }

  /** Every chunk row carries the business id, review id, name, stars and date
      of a review it was cut from, is one of that review's chunks, and counts
      its own characters. */
  lemma {:induction false} ChunkTableMetadata(reviews: seq<Review>, chunkChars: int, overlapChars: int, minChunkChars: int)
    requires chunkChars > overlapChars
    ensures forall row :: row in ChunkTable(reviews, chunkChars, overlapChars, minChunkChars) ==>
      row.nChars == |row.chunk| && exists r :: r in reviews && IsRowOf(row, r, chunkChars, overlapChars, minChunkChars)
  {
    if reviews != [] {
      var init, r := Init(reviews), Last(reviews);
      var head := ChunkTable(init, chunkChars, overlapChars, minChunkChars);
      ChunkTableMetadata(init, chunkChars, overlapChars, minChunkChars);
      var cs := Chunks(r.text, chunkChars, overlapChars, minChunkChars);
      var rows := ReviewChunkRows(r, cs);
      assert ChunkTable(reviews, chunkChars, overlapChars, minChunkChars) == head + rows;
      forall row: ChunkRow | row in head + rows
        ensures row.nChars == |row.chunk| && exists q :: q in reviews && IsRowOf(row, q, chunkChars, overlapChars, minChunkChars)
      {
        if row in head {
          var q :| q in init && IsRowOf(row, q, chunkChars, overlapChars, minChunkChars);
          assert q in reviews by { InitMember(reviews, q); }
        } else {
          var i :| 0 <= i < |rows| && rows[i] == row;
          assert Chunk(row.chunkIndex, row.chunk) == cs[i];
          assert r in reviews by { LastMember(reviews); }
          assert IsRowOf(row, r, chunkChars, overlapChars, minChunkChars);
        }
      }
    }
  }

  /** Conversely, every chunk of every review has its row in the table. */
  lemma {:induction false} ChunkTableComplete(reviews: seq<Review>, chunkChars: int, overlapChars: int, minChunkChars: int)
    requires chunkChars > overlapChars
    ensures forall r, c :: r in reviews && c in Chunks(r.text, chunkChars, overlapChars, minChunkChars) ==>
      RowFor(r, c, ChunkId(r.reviewId, c.index)) in ChunkTable(reviews, chunkChars, overlapChars, minChunkChars)
  {
    if reviews != [] {
      var init, r := Init(reviews), Last(reviews);
      var head := ChunkTable(init, chunkChars, overlapChars, minChunkChars);
      ChunkTableComplete(init, chunkChars, overlapChars, minChunkChars);
      var rows := ReviewChunkRows(r, Chunks(r.text, chunkChars, overlapChars, minChunkChars));
      assert ChunkTable(reviews, chunkChars, overlapChars, minChunkChars) == head + rows;
      forall q: Review, c: Chunk | q in reviews && c in Chunks(q.text, chunkChars, overlapChars, minChunkChars)
        ensures RowFor(q, c, ChunkId(q.reviewId, c.index)) in head + rows
      {
        var cs := Chunks(q.text, chunkChars, overlapChars, minChunkChars);
        if q in init {
          assert RowFor(q, c, ChunkId(q.reviewId, c.index)) in head;
        } else {
          assert q == r by { InitOrLast(reviews, q); }
          var i :| 0 <= i < |cs| && cs[i] == c;
          assert rows[i] == RowFor(q, c, ChunkId(q.reviewId, c.index));
        }
      }
    }
  }

  predicate ChunkIdsUnique(t: seq<ChunkRow>) {
    forall i, j :: 0 <= i < j < |t| ==> t[i].chunkId != t[j].chunkId
  }

  lemma ChunkIdsUniqueConcat(a: seq<ChunkRow>, b: seq<ChunkRow>)
    requires ChunkIdsUnique(a) && ChunkIdsUnique(b)
    requires forall x, y :: x in a && y in b ==> x.chunkId != y.chunkId
    ensures ChunkIdsUnique(a + b)
  {
    var t := a + b;
    forall i, j | 0 <= i < j < |t| ensures t[i].chunkId != t[j].chunkId {
      if j < |a| {
        assert t[i] == a[i] && t[j] == a[j];
      } else if i >= |a| {
        assert t[i] == b[i - |a|] && t[j] == b[j - |a|];
      } else {
        assert t[i] in a && t[j] in b;
      }
    }
  }

  /** Rows of reviews with other review ids never share an id with the rows of `r`. */
  lemma OtherReviewsIdsDiffer(init: seq<Review>, r: Review, chunkChars: int, overlapChars: int, minChunkChars: int)
    requires chunkChars > overlapChars
    requires forall q :: q in init ==> q.reviewId != r.reviewId
    ensures forall x, y ::
      x in ChunkTable(init, chunkChars, overlapChars, minChunkChars)
      && y in ReviewChunkRows(r, Chunks(r.text, chunkChars, overlapChars, minChunkChars))
      ==> x.chunkId != y.chunkId
  {
    var rows := ReviewChunkRows(r, Chunks(r.text, chunkChars, overlapChars, minChunkChars));
    ChunkTableMetadata(init, chunkChars, overlapChars, minChunkChars);
    forall x, y | x in ChunkTable(init, chunkChars, overlapChars, minChunkChars) && y in rows
      ensures x.chunkId != y.chunkId
    {
      var q :| q in init && IsRowOf(x, q, chunkChars, overlapChars, minChunkChars);
      var i :| 0 <= i < |rows| && rows[i] == y;
      if x.chunkId == y.chunkId {
        ChunkIdInjective(q.reviewId, x.chunkIndex, r.reviewId, y.chunkIndex);
      }
    }
  }

  /** Chunk ids are unique across the whole table when review ids are. */
  lemma {:induction false} ChunkTableIdsUnique(reviews: seq<Review>, chunkChars: int, overlapChars: int, minChunkChars: int)
    requires chunkChars > overlapChars
    requires KeysDistinct(reviews, ReviewIdOf)
    ensures ChunkIdsUnique(ChunkTable(reviews, chunkChars, overlapChars, minChunkChars))
  {
    if reviews != [] {
      var init, r := Init(reviews), Last(reviews);
      assert KeysDistinct(init, ReviewIdOf) by {
        forall i, j | 0 <= i < j < |init| ensures init[i].reviewId != init[j].reviewId {
          assert init[i] == reviews[i] && init[j] == reviews[j];
        }
      }
      forall q | q in init ensures q.reviewId != r.reviewId {
        var i :| 0 <= i < |init| && init[i] == q;
        assert reviews[i] == q && reviews[|reviews| - 1] == r;
      }
      ChunkTableIdsUnique(init, chunkChars, overlapChars, minChunkChars);
      ChunkIdsPerReview(r, chunkChars, overlapChars, minChunkChars);
      OtherReviewsIdsDiffer(init, r, chunkChars, overlapChars, minChunkChars);
      ChunkIdsUniqueConcat(ChunkTable(init, chunkChars, overlapChars, minChunkChars),
        ReviewChunkRows(r, Chunks(r.text, chunkChars, overlapChars, minChunkChars)));
    }
  }
}
