/** Sampling the Yelp dataset and choosing the restaurants of the demo
    (src/data_io.py). A JSON-lines file is a sequence of lines, each either a
    parsed record or text that does not parse (`None`). The number of lines
    to import, the review-count threshold and the number of restaurants are
    read from the configuration module but not defined there; they are the
    parameters `nImportRows`, `minReviews` and `n` here. The random draw of
    `sample(n, random_state = 5)` is the parameter `order`, the permutation of
    the eligible ids that the generator produces. */
module DataIo {
  import opened Wrappers
  import opened Strings
  import opened Seqs

  /* ---------------------------------------------------------------------
     import_sample_from_complete_dataset
     --------------------------------------------------------------------- */

  /** How many lines the loop reads from a file of `lines` lines: it stops at
      line `n` or at the end of the file, whichever comes first. */
  function SampleSize(n: int, lines: nat): (k: nat)
    ensures k <= lines
    ensures n <= 0 ==> k == 0
    ensures n > 0 ==> k <= n && (k < lines ==> k == n)
  {
    if n <= 0 then 0 else Min(n, lines)
  }

  /** The failure a line that is not JSON raises. `json.loads` words its
      message after the first fault it meets; this one message stands for
      all of them. */
  const NOT_JSON: string := "Expecting value"

  /** `json.loads` on each line in turn: the first line that does not parse
      raises (JSONDecodeError is a ValueError). */
  function ParseLines<T>(lines: seq<Option<T>>): Result<seq<T>> {
    if lines == [] then Success([])
    else match ParseLines(Init(lines))
      case Failure(e) => Failure(e)
      case Success(records) =>
        if Last(lines).None? then Failure(ValueError(NOT_JSON)) else Success(records + [Last(lines).value])
  }

  method ImportSampleFromCompleteDataset<T>(lines: seq<Option<T>>, nImportRows: int) returns (r: Result<seq<T>>)
    ensures r == ParseLines(lines[..SampleSize(nImportRows, |lines|)])
  {
    var sample := [];
    var i := 0;
    assert lines[..0] == [];
    while i < |lines|
      invariant 0 <= i <= SampleSize(nImportRows, |lines|)
      invariant ParseLines(lines[..i]) == Success(sample)
    {
      if i >= nImportRows {
        break;
      }
      if lines[i].None? {
        ParseLinesFailsAfter(lines, i, SampleSize(nImportRows, |lines|));
        return Failure(ValueError(NOT_JSON));
      }
      assert Init(lines[..i + 1]) == lines[..i] && Last(lines[..i + 1]) == lines[i];
      sample := sample + [lines[i].value];
      i := i + 1;
    }
    return Success(sample);
  }

  /** Once a line that does not parse has been read, every longer prefix fails. */
  lemma {:induction false} ParseLinesFailsAfter<T>(lines: seq<Option<T>>, i: nat, k: nat)
    requires i < k <= |lines| && lines[i].None?
    ensures ParseLines(lines[..k]) == Failure(ValueError(NOT_JSON))
    decreases k
  {
    assert Init(lines[..k]) == lines[..k - 1] && Last(lines[..k]) == lines[k - 1];
    if k - 1 > i {
      ParseLinesFailsAfter(lines, i, k - 1);
    } else {
      ParseLinesSpec(lines[..k - 1]);
    }
  }

  /** Parsing succeeds exactly when every line parses, and then yields the
      records of the lines in order; otherwise it raises ValueError. */
  lemma {:induction false} ParseLinesSpec<T>(lines: seq<Option<T>>)
    ensures ParseLines(lines).Success? <==> forall i :: 0 <= i < |lines| ==> lines[i].Some?
    ensures ParseLines(lines).Success? ==>
      |ParseLines(lines).value| == |lines| &&
      forall i :: 0 <= i < |lines| ==> lines[i] == Some(ParseLines(lines).value[i])
    ensures ParseLines(lines).Failure? ==> ParseLines(lines).error == ValueError(NOT_JSON)
  {
    if lines != [] {
      var init := Init(lines);
      ParseLinesSpec(init);
      assert forall i :: 0 <= i < |init| ==> init[i] == lines[i];
      if ParseLines(init).Success? && Last(lines).Some? {
        var records := ParseLines(init).value;
        var all := records + [Last(lines).value];
        forall i | 0 <= i < |lines| ensures lines[i] == Some(all[i]) {
          if i < |init| {
            assert all[i] == records[i];
          }
        }
      }
    }
  }

  /** The sample holds at most `nImportRows` records (none when that is not
      positive), fewer only when the file is shorter, and they are the
      records of the first lines of the file, in order. */
  lemma ImportSampleSpec<T>(lines: seq<Option<T>>, nImportRows: int)
    ensures var k := SampleSize(nImportRows, |lines|);
      var r := ParseLines(lines[..k]);
      && (r.Success? <==> forall i :: 0 <= i < k ==> lines[i].Some?)
      && (r.Success? ==>
            && |r.value| == k
            && (forall i :: 0 <= i < k ==> lines[i] == Some(r.value[i])))
      && (r.Failure? ==> r.error == ValueError(NOT_JSON))
  {
    var k := SampleSize(nImportRows, |lines|);
    ParseLinesSpec(lines[..k]);
    assert forall i :: 0 <= i < k ==> lines[..k][i] == lines[i];
  }

  /* ---------------------------------------------------------------------
     import_yelp_data_sample: inner join on business_id, then dropna
     --------------------------------------------------------------------- */

  /** The review fields the pipeline uses; the text may be null. */
  datatype ReviewRecord = ReviewRecord(
    reviewId: string, businessId: string, stars: int, text: Option<string>, date: string)

  /** The business fields the pipeline uses; categories, attributes and
      opening hours may be null. */
  datatype BusinessRecord = BusinessRecord(
    businessId: string, name: string, stars: int,
    categories: Option<string>, attributes: Option<string>, hours: Option<string>)

  function BusinessIdOf(b: BusinessRecord): string { b.businessId }

  /** A row of the merged table; the two `stars` columns get the suffixes
      `_reviews` and `_restaurant`. */
  datatype MergedRow = MergedRow(
    reviewId: string, businessId: string, starsReviews: int, text: Option<string>, date: string,
    name: string, starsRestaurant: int,
    categories: Option<string>, attributes: Option<string>, hours: Option<string>)

  /** A merged row without nulls. */
  datatype SampleRow = SampleRow(
    reviewId: string, businessId: string, starsReviews: int, text: string, date: string,
    name: string, starsRestaurant: int,
    categories: string, attributes: string, hours: string)

  function Joined(r: ReviewRecord, b: BusinessRecord): MergedRow {
    MergedRow(r.reviewId, r.businessId, r.stars, r.text, r.date, b.name, b.stars, b.categories, b.attributes, b.hours)
  }

  /** The rows one review contributes: one per business with its id, in the
      businesses' order. */
  function Matches(r: ReviewRecord, bs: seq<BusinessRecord>): seq<MergedRow> {
    if bs == [] then []
    else (if bs[0].businessId == r.businessId then [Joined(r, bs[0])] else []) + Matches(r, bs[1..])
  }

  /** `pd.merge(reviews, businesses, how="inner", on="business_id")`: the
      reviews' order, and for each review its matching businesses in order. */
  function MergeRows(rs: seq<ReviewRecord>, bs: seq<BusinessRecord>): seq<MergedRow> {
    if rs == [] then [] else Matches(rs[0], bs) + MergeRows(rs[1..], bs)
  }

  predicate Complete(m: MergedRow) {
    m.text.Some? && m.categories.Some? && m.attributes.Some? && m.hours.Some?
  }

  function Filled(m: MergedRow): SampleRow
    requires Complete(m)
  {
    SampleRow(m.reviewId, m.businessId, m.starsReviews, m.text.value, m.date, m.name, m.starsRestaurant,
              m.categories.value, m.attributes.value, m.hours.value)
  }

  /** `dropna()`: rows with any null are dropped. */
  function DropNA(ms: seq<MergedRow>): seq<SampleRow> {
    if ms == [] then []
    else (if Complete(ms[0]) then [Filled(ms[0])] else []) + DropNA(ms[1..])
  }

  /** import_yelp_data_sample up to the write of the CSV file. */
  function ImportYelpDataSample(reviewLines: seq<Option<ReviewRecord>>, businessLines: seq<Option<BusinessRecord>>,
                                nImportRows: int): Result<seq<SampleRow>>
  {
    var reviews :- ParseLines(reviewLines[..SampleSize(nImportRows, |reviewLines|)]);
    var businesses :- ParseLines(businessLines[..SampleSize(nImportRows, |businessLines|)]);
    Success(DropNA(MergeRows(reviews, businesses)))
  }

  lemma {:induction false} MatchesSpec(r: ReviewRecord, bs: seq<BusinessRecord>)
    ensures forall m :: m in Matches(r, bs) <==> exists b :: b in bs && b.businessId == r.businessId && m == Joined(r, b)
  {
    if bs != [] {
      MatchesSpec(r, bs[1..]);
      assert forall b :: b in bs <==> b == bs[0] || b in bs[1..];
    }
  }

  lemma {:induction false} MergeRowsSpec(rs: seq<ReviewRecord>, bs: seq<BusinessRecord>)
    ensures forall m :: m in MergeRows(rs, bs) <==>
      exists r, b :: r in rs && b in bs && r.businessId == b.businessId && m == Joined(r, b)
  {
    if rs != [] {
      MatchesSpec(rs[0], bs);
      MergeRowsSpec(rs[1..], bs);
      assert forall r :: r in rs <==> r == rs[0] || r in rs[1..];
    }
  }

  lemma {:induction false} DropNASpec(ms: seq<MergedRow>)
    ensures forall s :: s in DropNA(ms) <==> exists m :: m in ms && Complete(m) && s == Filled(m)
  {
    if ms != [] {
      DropNASpec(ms[1..]);
      assert forall m :: m in ms <==> m == ms[0] || m in ms[1..];
    }
  }

  /** Each row of the sample pairs a review with a business of the same id
      (inner join) and has no null field; every such pair gives a row. */
  lemma SampleRowsSpec(rs: seq<ReviewRecord>, bs: seq<BusinessRecord>)
    ensures forall s :: s in DropNA(MergeRows(rs, bs)) <==>
      exists r, b :: r in rs && b in bs && r.businessId == b.businessId && Complete(Joined(r, b)) && s == Filled(Joined(r, b))
  {
    MergeRowsSpec(rs, bs);
    DropNASpec(MergeRows(rs, bs));
  }

  /** A review matches no business of another id. */
  lemma {:induction false} NoMatches(r: ReviewRecord, bs: seq<BusinessRecord>)
    requires forall i :: 0 <= i < |bs| ==> bs[i].businessId != r.businessId
    ensures Matches(r, bs) == []
  {
    if bs != [] {
      NoMatches(r, bs[1..]);
    }
  }

  /** With unique business ids (as in the Yelp business file) the join yields
      at most one row per review. */
  lemma {:induction false} MergeRowsAtMostOnePerReview(rs: seq<ReviewRecord>, bs: seq<BusinessRecord>)
    requires KeysDistinct(bs, BusinessIdOf)
    ensures |MergeRows(rs, bs)| <= |rs|
  {
    if rs != [] {
      MatchesAtMostOne(rs[0], bs);
      MergeRowsAtMostOnePerReview(rs[1..], bs);
    }
  }

  lemma {:induction false} MatchesAtMostOne(r: ReviewRecord, bs: seq<BusinessRecord>)
    requires KeysDistinct(bs, BusinessIdOf)
    ensures |Matches(r, bs)| <= 1
  {
    if bs != [] {
      var rest := bs[1..];
      if bs[0].businessId == r.businessId {
        forall i | 0 <= i < |rest| ensures rest[i].businessId != r.businessId {
          assert BusinessIdOf(bs[0]) != BusinessIdOf(bs[i + 1]);
        }
        NoMatches(r, rest);
      } else {
        assert KeysDistinct(rest, BusinessIdOf) by {
          forall i, j | 0 <= i < j < |rest| ensures BusinessIdOf(rest[i]) != BusinessIdOf(rest[j]) {
            assert BusinessIdOf(bs[i + 1]) != BusinessIdOf(bs[j + 1]);
          }
        }
        MatchesAtMostOne(r, rest);
      }
    }
  }

  /* ---------------------------------------------------------------------
     select_restaurants_for_rag
     --------------------------------------------------------------------- */

  /** The category filter: the lower-cased category text contains
      "restaurant" and contains neither "hotel" nor "cinema". */
  predicate InScope(row: SampleRow) {
    var c := Lower(row.categories);
    Contains(c, "restaurant") && !Contains(c, "hotel") && !Contains(c, "cinema")
  }

  function ScopedRows(rows: seq<SampleRow>): seq<SampleRow> {
    Filter(rows, InScope)
  }

  /** `groupby(business_id)[review_id].nunique()` for one restaurant. */
  function DistinctReviews(rows: seq<SampleRow>, id: string): nat {
    |set x | x in rows && x.businessId == id :: x.reviewId|
  }

  /** The ids of the in-scope restaurants with more than `minReviews`
      distinct reviews, in the group-by order (ascending). */
  function EligibleIds(rows: seq<SampleRow>, minReviews: int): seq<string> {
    var scoped := ScopedRows(rows);
    SortedNames(set x | x in scoped && DistinctReviews(scoped, x.businessId) > minReviews :: x.businessId)
  }

  /** `order` lists every position of a population of `m` exactly once. */
  predicate IsShuffle(order: seq<nat>, m: nat) {
    && |order| == m
    && (forall i :: 0 <= i < m ==> order[i] < m)
    && (forall i, j :: 0 <= i < j < m ==> order[i] != order[j])
  }

  const NEGATIVE_SAMPLE: string := "A negative number of rows requested. Please provide `n` >= 0."
  const SAMPLE_TOO_LARGE: string := "Cannot take a larger sample than population when 'replace=False'"

  /** `sample(n)` without replacement: the first `n` of the shuffled
      population; a negative `n` or one above the population raises. */
  function SelectedIds(rows: seq<SampleRow>, minReviews: int, n: int, order: seq<nat>): Result<seq<string>>
    requires IsShuffle(order, |EligibleIds(rows, minReviews)|)
  {
    var pool := EligibleIds(rows, minReviews);
    if n < 0 then Failure(ValueError(NEGATIVE_SAMPLE))
    else if n > |pool| then Failure(ValueError(SAMPLE_TOO_LARGE))
    else Success(Draw(pool, order, n))
  }

  function Draw(pool: seq<string>, order: seq<nat>, n: nat): seq<string>
    requires n <= |pool| && IsShuffle(order, |pool|)
  {
    seq(n, i requires 0 <= i < n => pool[order[i]])
  }

  /** The rows of the drawn restaurants: `input_df[input_df[id].isin(ids)]`
      on the in-scope rows. */
  function DrawnRows(rows: seq<SampleRow>, ids: seq<string>): seq<SampleRow> {
    Filter(ScopedRows(rows), (x: SampleRow) => x.businessId in ids)
  }

  /** select_restaurants_for_rag up to the write of the CSV file. */
  function SelectRestaurantsForRag(rows: seq<SampleRow>, minReviews: int, n: int, order: seq<nat>): Result<seq<SampleRow>>
    requires IsShuffle(order, |EligibleIds(rows, minReviews)|)
  {
    var ids :- SelectedIds(rows, minReviews, n, order);
    Success(DrawnRows(rows, ids))
  }

  /** An id is eligible exactly when some in-scope row has it and its
      restaurant has more than `minReviews` distinct review ids among the
      in-scope rows; the eligible ids are pairwise distinct. */
  lemma EligibleIdsSpec(rows: seq<SampleRow>, minReviews: int)
    ensures var scoped := ScopedRows(rows);
      forall id :: id in EligibleIds(rows, minReviews) <==>
        (exists x :: x in scoped && x.businessId == id) && DistinctReviews(scoped, id) > minReviews
    ensures StrictlyAscending(EligibleIds(rows, minReviews))
  {
    var scoped := ScopedRows(rows);
    SortedNamesAscending(set x | x in scoped && DistinctReviews(scoped, x.businessId) > minReviews :: x.businessId);
  }

  /** The draw fails exactly for a negative count or one above the number of
      eligible restaurants; otherwise it yields `n` distinct eligible ids. */
  lemma SelectedIdsSpec(rows: seq<SampleRow>, minReviews: int, n: int, order: seq<nat>)
    requires IsShuffle(order, |EligibleIds(rows, minReviews)|)
    ensures var pool := EligibleIds(rows, minReviews);
      var r := SelectedIds(rows, minReviews, n, order);
      && (r.Failure? <==> n < 0 || n > |pool|)
      && (r.Failure? ==> r.error == ValueError(if n < 0 then NEGATIVE_SAMPLE else SAMPLE_TOO_LARGE))
      && (r.Success? ==>
            && |r.value| == n
            && (forall i, j :: 0 <= i < j < n ==> r.value[i] != r.value[j])
            && (forall id :: id in r.value ==> id in pool))
  {
    var pool := EligibleIds(rows, minReviews);
    EligibleIdsSpec(rows, minReviews);
    if 0 <= n <= |pool| {
      DrawSpec(pool, order, n);
    }
  }

  /** Drawing from a population without repeats yields distinct members. */
  lemma DrawSpec(pool: seq<string>, order: seq<nat>, n: nat)
    requires n <= |pool| && IsShuffle(order, |pool|) && StrictlyAscending(pool)
    ensures |Draw(pool, order, n)| == n
    ensures forall i, j :: 0 <= i < j < n ==> Draw(pool, order, n)[i] != Draw(pool, order, n)[j]
    ensures forall id :: id in Draw(pool, order, n) ==> id in pool
  {
    var ids := Draw(pool, order, n);
    forall i, j | 0 <= i < j < n ensures ids[i] != ids[j] {
      var a, b := order[i], order[j];
      if a < b {
        assert pool[a] != pool[b];
      } else {
        assert pool[b] != pool[a];
      }
    }
  }

  /** The output rows are exactly the in-scope rows whose restaurant was
      drawn, in input order. */
  lemma DrawnRowsSpec(rows: seq<SampleRow>, ids: seq<string>)
    ensures forall x :: x in DrawnRows(rows, ids) <==> x in rows && InScope(x) && x.businessId in ids
    ensures IsSubseq(DrawnRows(rows, ids), rows)
  {
    var drawn := (x: SampleRow) => x.businessId in ids;
    var both := (x: SampleRow) => InScope(x) && drawn(x);
    FilterFilter(rows, InScope, drawn, both);
    FilterIsSubseq(rows, both);
  }

  /** The category test reads the categories case-insensitively. */
  lemma InScopeIgnoresCase(row: SampleRow)
    ensures InScope(row) == InScope(row.(categories := Lower(row.categories)))
  {
    LowerIdempotent(row.categories);
  }
}
