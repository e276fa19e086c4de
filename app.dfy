/** The dashboard's data rules (app.py): the clean-up of the stored summary
    table after it is read, and the random state handed to the sampler. The
    parquet read, the cache and the Streamlit widgets are not part of this
    model; the table read from the file is the parameter of LoadSummaries. */
module App {
  import opened Wrappers
  import opened Strings
  import opened Seqs
  import opened Config
  import opened Summarization

  /** The column holding the restaurant names. */
  const NAME_COLUMN: string := "restaurant_name"

  /** The columns load_summaries demands. */
  const EXPECTED_COLUMNS: set<string> := {"restaurant_name", "food", "service", "ambiance"}

  /** The text of the ValueError raised for missing columns, up to the list
      of the missing names. */
  const MISSING_COLUMNS_MESSAGE: string := "Missing columns in summaries file: "

  /** `expected - set(df.columns)`. */
  function MissingColumns(t: Table): set<string> {
    set c | c in EXPECTED_COLUMNS && c !in t.columns
  }

  /** A row's name cell. */
  function NameKey(row: Row): Option<string> {
    Cell(row, NAME_COLUMN)
  }

  /** The name a row is sorted by. */
  function NameText(row: Row): string {
    var name := Cell(row, NAME_COLUMN);
    if name.Some? then name.value else ""
  }

  predicate HasName(row: Row) {
    Cell(row, NAME_COLUMN).Some?
  }

  /** `df["restaurant_name"].astype("string").str.strip()` on one row: a
      missing name stays missing. */
  function StripName(row: Row): Row {
    var name := Cell(row, NAME_COLUMN);
    row[NAME_COLUMN := if name.Some? then Some(Strip(name.value)) else None]
  }

  function StripNames(rows: seq<Row>): (r: seq<Row>)
    ensures |r| == |rows|
  {
    seq(|rows|, i requires 0 <= i < |rows| => StripName(rows[i]))
  }

  /** The rows after stripping the names and `dropna(subset=["restaurant_name"])`. */
  function NamedRows(rows: seq<Row>): seq<Row> {
    Filter(StripNames(rows), HasName)
  }

  /** load_summaries after the read: the column check, then the names
      stripped, rows without a name dropped, the first row of each name kept
      and the rows sorted by name. `reset_index(drop=True)` only renumbers
      the rows, which positions in a sequence already are. */
  function LoadSummaries(t: Table): Result<Table> {
    if MissingColumns(t) != {} then Failure(ValueError(MISSING_COLUMNS_MESSAGE))
    else Success(Table(t.columns, SortByText(DistinctBy(NamedRows(t.rows), NameKey), NameText)))
  }

  /** The table is refused exactly when one of the four expected columns is
      absent, with a ValueError; otherwise its columns are kept as they are. */
  lemma LoadSummariesChecksColumns(t: Table)
    ensures LoadSummaries(t).Failure? <==> exists c :: c in EXPECTED_COLUMNS && c !in t.columns
    ensures LoadSummaries(t).Failure? ==> LoadSummaries(t).error == ValueError(MISSING_COLUMNS_MESSAGE)
    ensures LoadSummaries(t).Success? ==> LoadSummaries(t).value.columns == t.columns
  {
    if exists c :: c in EXPECTED_COLUMNS && c !in t.columns {
      var c :| c in EXPECTED_COLUMNS && c !in t.columns;
      assert c in MissingColumns(t);
    }
  }

  /** No whitespace at either end. */
  predicate Trimmed(s: string) {
    s == [] || (!IsSpace(s[0]) && !IsSpace(s[|s| - 1]))
  }

  /** A named row keeps its name, stripped. */
  lemma StripNameSpec(row: Row)
    requires HasName(row)
    ensures HasName(StripName(row)) && NameText(StripName(row)) == Strip(NameText(row))
    ensures Trimmed(NameText(StripName(row)))
  {
    StripSpec(NameText(row));
  }

  /** Every row of the result has a name, with no whitespace at either end,
      and is a row of the input with its name stripped; there are never more
      rows than were read. */
  lemma LoadSummariesNames(t: Table)
    requires LoadSummaries(t).Success?
    ensures |LoadSummaries(t).value.rows| <= |t.rows|
    ensures forall row :: row in LoadSummaries(t).value.rows ==>
      HasName(row) && Trimmed(NameText(row)) && exists i :: 0 <= i < |t.rows| && row == StripName(t.rows[i])
  {
    var named := NamedRows(t.rows);
    var kept := DistinctBy(named, NameKey);
    var out := LoadSummaries(t).value.rows;
    assert |out| == |kept| by {
      assert |multiset(out)| == |multiset(kept)|;
    }
    forall row | row in out
      ensures HasName(row) && Trimmed(NameText(row)) && exists i :: 0 <= i < |t.rows| && row == StripName(t.rows[i])
    {
      assert row in multiset(out);
      assert row in kept;
      assert row in named;
      var stripped := StripNames(t.rows);
      var i :| 0 <= i < |stripped| && stripped[i] == row;
      assert row == StripName(t.rows[i]);
      if HasName(t.rows[i]) {
        StripNameSpec(t.rows[i]);
      }
    }
  }

  /** No two rows of the result share a name, and they are sorted by name,
      hence in strictly ascending order. */
  lemma LoadSummariesDistinctSorted(t: Table)
    requires LoadSummaries(t).Success?
    ensures forall i, j :: 0 <= i < j < |LoadSummaries(t).value.rows| ==>
      var rows := LoadSummaries(t).value.rows;
      NameKey(rows[i]) != NameKey(rows[j]) && LexLe(NameText(rows[i]), NameText(rows[j]))
  {
    var kept := DistinctBy(NamedRows(t.rows), NameKey);
    DistinctByKeysDistinct(NamedRows(t.rows), NameKey);
    SortByTextKeysDistinct(kept, NameText, NameKey);
  }

  /** Of the rows sharing a name, the first is the one kept, and every name
      of a named row survives. */
  lemma LoadSummariesKeepsFirst(t: Table)
    requires LoadSummaries(t).Success?
    ensures var named := NamedRows(t.rows);
      forall row :: row in LoadSummaries(t).value.rows ==> exists i :: FirstOfKey(named, NameKey, i) && named[i] == row
    ensures var named := NamedRows(t.rows);
      forall i :: 0 <= i < |named| ==> exists row :: row in LoadSummaries(t).value.rows && NameKey(row) == NameKey(named[i])
  {
    var named := NamedRows(t.rows);
    var kept := DistinctBy(named, NameKey);
    var out := LoadSummaries(t).value.rows;
    DistinctByOnlyFirst(named, NameKey);
    DistinctByKeepsKeys(named, NameKey);
    forall row | row in out ensures row in kept {
      assert row in multiset(out);
    }
    forall i | 0 <= i < |named| ensures exists row :: row in out && NameKey(row) == NameKey(named[i]) {
      assert HasKey(named, NameKey, NameKey(named[i]));
      var j :| 0 <= j < |kept| && NameKey(kept[j]) == NameKey(named[i]);
      assert kept[j] in multiset(kept);
      assert kept[j] in out;
    }
  }

  /** The table as written is always refused: its name column is called
      "index", so "restaurant_name" is missing. */
  lemma AsWrittenSummaryTableRefused(summaries: Summaries)
    ensures LoadSummaries(SummaryTableAsWritten(summaries, TopicNames(TOPICS))) == Failure(ValueError(MISSING_COLUMNS_MESSAGE))
  {
    ConfiguredTopicsAndCaps();
    var t := SummaryTableAsWritten(summaries, TopicNames(TOPICS));
    assert NAME_COLUMN !in t.columns;
    assert NAME_COLUMN in MissingColumns(t);
  }

  /** With the names in "restaurant_name", a table of at least one
      restaurant passes the column check, and every restaurant's stripped
      name is among the rows served. */
  lemma SummaryTableLoads(summaries: Summaries)
    requires summaries != []
    ensures LoadSummaries(SummaryTable(summaries, TopicNames(TOPICS))).Success?
    ensures forall i :: 0 <= i < |summaries| ==>
      exists row :: row in LoadSummaries(SummaryTable(summaries, TopicNames(TOPICS))).value.rows && NameKey(row) == Some(Strip(summaries[i].0))
  {
    ConfiguredTopicsAndCaps();
    var t := SummaryTable(summaries, TopicNames(TOPICS));
    SummaryTableSpec(summaries, TopicNames(TOPICS), NAME_COLUMN);
    assert t.columns == [NAME_COLUMN, "food", "service", "ambiance"];
    assert MissingColumns(t) == {};
    var named := NamedRows(t.rows);
    LoadSummariesKeepsFirst(t);
    forall i | 0 <= i < |summaries|
      ensures exists row :: row in LoadSummaries(t).value.rows && NameKey(row) == Some(Strip(summaries[i].0))
    {
      var row := StripNames(t.rows)[i];
      assert HasName(t.rows[i]) && NameText(t.rows[i]) == summaries[i].0;
      StripNameSpec(t.rows[i]);
      assert row in named;
      var k :| 0 <= k < |named| && named[k] == row;
    }
  }

  /** `None if st.session_state.randomize else st.session_state.seed`: no
      fixed state exactly when Randomize is checked, the seed otherwise. */
  function EffectiveRandomState(randomize: bool, seed: int): (r: Option<int>)
    ensures r.None? <==> randomize
    ensures !randomize ==> r == Some(seed)
  {
    if randomize then None else Some(seed)
  }
}
