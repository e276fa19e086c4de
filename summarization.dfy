/** Prompt assembly and summary collection (src/summarization.py). The
    language model behind the Ollama endpoint is the parameter `llm`, which
    maps a prompt, a model name and a temperature to the response text; the
    endpoint's HTTP exchange is not part of this model. The parquet engine is
    not defined by the configuration module, and the directory of processed
    data is defined there as a path under the checkout's location; both are
    constructor parameters here. */
module Summarization {
  import opened Wrappers
  import opened Strings
  import opened Seqs
  import opened Config
  import opened Retrieval

  /* ---------------------------------------------------------------------
     __init__: each setting is its override unless that is None
     --------------------------------------------------------------------- */

  /** The attributes `__init__` sets, one per key of its defaults dictionary. */
  datatype Attribute =
    | ProcessedDataPath | ColRestaurantId | Topics | OllamaModel | Temperature | OllamaBaseUrl | ParquetEngine

  /** A setting's value: a path, column or model name, a number or the topic table. */
  datatype Setting = Text(text: string) | Number(number: real) | TopicTable(topics: seq<Topic>)

  /** The defaults dictionary, in its order. */
  function Defaults(dataDirProc: string, parquetEngine: string): seq<(Attribute, Setting)> {
    [ (ProcessedDataPath, Text(dataDirProc)),
      (ColRestaurantId, Text(COL_RESTAURANT_ID)),
      (Topics, TopicTable(TOPICS)),
      (OllamaModel, Text(OLLAMA_MODEL)),
      (Temperature, Number(TEMPERATURE)),
      (OllamaBaseUrl, Text(OLLAMA_BASE_URL)),
      (ParquetEngine, Text(parquetEngine)) ]
  }

  /** Python's `value if value is not None else default`. */
  function OrDefault<T>(value: Option<T>, default: T): T {
    if value.Some? then value.value else default
  }

  function AsText(o: Option<string>): Option<Setting> {
    if o.Some? then Some(Text(o.value)) else None
  }

  function AsNumber(o: Option<real>): Option<Setting> {
    if o.Some? then Some(Number(o.value)) else None
  }

  function AsTopicTable(o: Option<seq<Topic>>): Option<Setting> {
    if o.Some? then Some(TopicTable(o.value)) else None
  }

  lemma OrDefaultAs(p: Option<string>, d: string, x: Option<real>, e: real, t: Option<seq<Topic>>, f: seq<Topic>)
    ensures OrDefault(AsText(p), Text(d)) == Text(OrDefault(p, d))
    ensures OrDefault(AsNumber(x), Number(e)) == Number(OrDefault(x, e))
    ensures OrDefault(AsTopicTable(t), TopicTable(f)) == TopicTable(OrDefault(t, f))
  {
  }

  /** The loop of `__init__`: for each default in order, the attribute takes
      the override when that is not None and the default otherwise. */
  method SetAttributes(defaults: seq<(Attribute, Setting)>, overrides: map<Attribute, Option<Setting>>) returns (s: map<Attribute, Setting>)
    requires forall j :: 0 <= j < |defaults| ==> defaults[j].0 in overrides
    requires forall i, j :: 0 <= i < j < |defaults| ==> defaults[i].0 != defaults[j].0
    ensures forall j :: 0 <= j < |defaults| ==> defaults[j].0 in s && s[defaults[j].0] == OrDefault(overrides[defaults[j].0], defaults[j].1)
  {
    s := map[];
    for i := 0 to |defaults|
      invariant forall j :: 0 <= j < i ==> defaults[j].0 in s && s[defaults[j].0] == OrDefault(overrides[defaults[j].0], defaults[j].1)
    {
      var (name, default) := defaults[i];
      var value := if overrides[name].Some? then overrides[name].value else default;
      s := s[name := value];
    }
  }

  /** The summarizer's settings, set attribute by attribute. */
  class Summarizer {
    var settings: map<Attribute, Setting>

    /** Every setting takes its override when that is not None, whatever its
        value (an empty name or a zero temperature included), and its default
        otherwise. */
    constructor (processedDataPath: Option<string>, colRestaurantId: Option<string>, topics: Option<seq<Topic>>,
                 ollamaModel: Option<string>, temperature: Option<real>, ollamaBaseUrl: Option<string>,
                 parquetEngine: Option<string>, dataDirProc: string, defaultParquetEngine: string)
      ensures forall a: Attribute :: a in settings
      ensures settings[ProcessedDataPath] == Text(OrDefault(processedDataPath, dataDirProc))
      ensures settings[ColRestaurantId] == Text(OrDefault(colRestaurantId, COL_RESTAURANT_ID))
      ensures settings[Topics] == TopicTable(OrDefault(topics, TOPICS))
      ensures settings[OllamaModel] == Text(OrDefault(ollamaModel, OLLAMA_MODEL))
      ensures settings[Temperature] == Number(OrDefault(temperature, TEMPERATURE))
      ensures settings[OllamaBaseUrl] == Text(OrDefault(ollamaBaseUrl, OLLAMA_BASE_URL))
      ensures settings[ParquetEngine] == Text(OrDefault(parquetEngine, defaultParquetEngine))
      ensures Configured()
    {
      var defaults := Defaults(dataDirProc, defaultParquetEngine);
      var overrides := map[
        ProcessedDataPath := AsText(processedDataPath),
        ColRestaurantId := AsText(colRestaurantId),
        Topics := AsTopicTable(topics),
        OllamaModel := AsText(ollamaModel),
        Temperature := AsNumber(temperature),
        OllamaBaseUrl := AsText(ollamaBaseUrl),
        ParquetEngine := AsText(parquetEngine)];
      var s := SetAttributes(defaults, overrides);
      OrDefaultAs(processedDataPath, dataDirProc, temperature, TEMPERATURE, topics, TOPICS);
      OrDefaultAs(colRestaurantId, COL_RESTAURANT_ID, temperature, TEMPERATURE, topics, TOPICS);
      OrDefaultAs(ollamaModel, OLLAMA_MODEL, temperature, TEMPERATURE, topics, TOPICS);
      OrDefaultAs(ollamaBaseUrl, OLLAMA_BASE_URL, temperature, TEMPERATURE, topics, TOPICS);
      OrDefaultAs(parquetEngine, defaultParquetEngine, temperature, TEMPERATURE, topics, TOPICS);
      assert defaults[0].0 == ProcessedDataPath && defaults[1].0 == ColRestaurantId && defaults[2].0 == Topics;
      assert defaults[3].0 == OllamaModel && defaults[4].0 == Temperature && defaults[5].0 == OllamaBaseUrl;
      assert defaults[6].0 == ParquetEngine;
      forall a: Attribute ensures a in s {
        match a
        case ProcessedDataPath => case ColRestaurantId => case Topics => case OllamaModel =>
        case Temperature => case OllamaBaseUrl => case ParquetEngine =>
      }
      settings := s;
    }

    /** The settings the summary loop reads have the right kinds. */
    predicate Configured()
      reads this
    {
      && Topics in settings && settings[Topics].TopicTable?
      && OllamaModel in settings && settings[OllamaModel].Text?
      && Temperature in settings && settings[Temperature].Number?
    }

    function TopicList(): seq<Topic>
      reads this
      requires Configured()
    {
      settings[Topics].topics
    }

    function ModelName(): string
      reads this
      requires Configured()
    {
      settings[OllamaModel].text
    }

    function TemperatureValue(): real
      reads this
      requires Configured()
    {
      settings[Temperature].number
    }

    /** What each call to the model uses: the prompt instructions, the
        configured model name and temperature, and the model itself. */
    function RequestWith(llm: Llm): Request
      reads this
      requires Configured()
    {
      Request(Header, ModelName(), TemperatureValue(), llm)
    }

    /** retrieve_relevant_text_summaries_from_ollama: the table of the
        summaries of every listed restaurant, one row per restaurant name
        with the name in the column "restaurant_name" (see SummaryTable), or
        the IndexError raised for the first id without rows. */
    method RetrieveRelevantTextSummaries(rows: seq<TopicRow>, ids: seq<string>, llm: Llm) returns (r: Result<Table>)
      requires Configured()
      ensures var summaries := SummariesFor(rows, ids, TopicList(), RequestWith(llm));
        && (r.Success? <==> summaries.Success?)
        && (r.Failure? ==> r.error == summaries.error)
        && (r.Success? ==> r.value == SummaryTable(summaries.value, TopicNames(TopicList())))
    {
      var summaries := SummarizeRestaurants(rows, ids, TopicList(), RequestWith(llm));
      if summaries.Failure? {
        return Failure(summaries.error);
      }
      r := Success(SummaryTable(summaries.value, TopicNames(TopicList())));
    }
  }

  /** The loop over the restaurant ids, each summary dictionary stored under
      the restaurant's name. */
  method SummarizeRestaurants(rows: seq<TopicRow>, ids: seq<string>, topics: seq<Topic>, q: Request) returns (r: Result<Summaries>)
    ensures r == SummariesFor(rows, ids, topics, q)
  {
    var summary: Summaries := [];
    assert ids[..0] == [];
    for k := 0 to |ids|
      invariant SummariesFor(rows, ids[..k], topics, q) == Success(summary)
    {
      assert Init(ids[..k + 1]) == ids[..k] && Last(ids[..k + 1]) == ids[k];
      var restaurant := RestaurantRows(rows, ids[k]);
      if restaurant == [] {
        SummariesForFailsAfter(rows, ids, k + 1, |ids|, topics, q);
        assert ids[..|ids|] == ids;
        return Failure(IndexError(0));
      }
      var name := restaurant[0].row.restaurantName;
      var perTopic := SummarizeRestaurant(restaurant, name, topics, q);
      summary := DictUpdate(summary, name, perTopic);
    }
    assert ids[..|ids|] == ids;
    return Success(summary);
  }

  /** The loop over the topics for one restaurant. */
  method SummarizeRestaurant(restaurant: seq<TopicRow>, name: string, topics: seq<Topic>, q: Request) returns (perTopic: Dict<string>)
    ensures perTopic == TopicSummaries(restaurant, name, topics, q)
  {
    perTopic := [];
    assert topics[..0] == [];
    for t := 0 to |topics|
      invariant perTopic == TopicSummaries(restaurant, name, topics[..t], q)
    {
      TopicSummariesSnoc(restaurant, name, topics, t, q);
      var topic := topics[t].name;
      var context := AppendExcerpts(q.instructions(name, topic), TopicRows(restaurant, topic));
      var summaryText := Unwrapped(CallOllama(q.llm, context, q.model, q.temperature));
      perTopic := DictUpdate(perTopic, topic, summaryText);
    }
    assert topics[..|topics|] == topics;
  }

  /** `context += verbatim` for every row, the counter numbering the rows
      from 0. */
  method AppendExcerpts(header: string, rows: seq<TopicRow>) returns (context: string)
    ensures context == header + Excerpts(rows, 0)
  {
    context := header;
    var i := 0;
    assert rows[..0] == [];
    for j := 0 to |rows|
      invariant i == j
      invariant context == header + Excerpts(rows[..j], 0)
    {
      var verbatim := RowExcerpt(i, rows[j]);
      NumberedPrefix(rows, j, 0, RowExcerpt);
      AppendAssoc(header, Excerpts(rows[..j], 0), verbatim);
      context := context + verbatim;
      i := i + 1;
    }
    assert rows[..|rows|] == rows;
  }


  /* ---------------------------------------------------------------------
     get_stored_relevant_review_text: the restaurant ids
     --------------------------------------------------------------------- */

  function RowIds(rows: seq<TopicRow>): (ids: seq<string>)
    ensures |ids| == |rows|
  {
    seq(|rows|, i requires 0 <= i < |rows| => rows[i].row.businessId)
  }

  /** `unique().tolist()` on the id column. */
  function RestaurantIds(rows: seq<TopicRow>): seq<string> {
    DistinctBy(RowIds(rows), Identity)
  }

  /** Each id of the table is listed once, at its first appearance, and
      nothing else is listed. */
  lemma RestaurantIdsSpec(rows: seq<TopicRow>)
    ensures var ids := RestaurantIds(rows);
      && (forall i, j :: 0 <= i < j < |ids| ==> ids[i] != ids[j])
      && (forall id :: id in ids <==> exists i :: 0 <= i < |rows| && rows[i].row.businessId == id)
      && IsSubseq(ids, RowIds(rows))
      && (forall id :: id in ids ==> exists i :: FirstOfKey(RowIds(rows), Identity, i) && RowIds(rows)[i] == id)
  {
    var all := RowIds(rows);
    DistinctByKeysDistinct(all, Identity);
    DistinctByKeepsKeys(all, Identity);
    DistinctByIsSubseq(all, Identity);
    DistinctByOnlyFirst(all, Identity);
    var ids := RestaurantIds(rows);
    forall id ensures id in ids <==> exists i :: 0 <= i < |rows| && rows[i].row.businessId == id {
      if id in ids {
        var k :| 0 <= k < |ids| && ids[k] == id;
        assert Identity(ids[k]) == id;
        assert HasKey(all, Identity, id);
        var i :| 0 <= i < |all| && Identity(all[i]) == id;
        assert rows[i].row.businessId == id;
      }
      if exists i :: 0 <= i < |rows| && rows[i].row.businessId == id {
        var i :| 0 <= i < |rows| && rows[i].row.businessId == id;
        assert Identity(all[i]) == id;
        assert HasKey(ids, Identity, id);
        var k :| 0 <= k < |ids| && Identity(ids[k]) == id;
        assert ids[k] in ids;
      }
    }
  }

  /* ---------------------------------------------------------------------
     retrieve_relevant_text_summaries_from_ollama
     --------------------------------------------------------------------- */

  /** The model behind the endpoint: prompt, model name and temperature to
      the response text. */
  type Llm = (string, string, real) -> string

  /** Restaurant name to topic to summary, each dictionary in insertion order. */
  type Summaries = Dict<Dict<string>>

  /** `relevant_chunk_df[relevant_chunk_df["business_id"] == id]`. */
  function RestaurantRows(rows: seq<TopicRow>, id: string): seq<TopicRow> {
    Filter(rows, (x: TopicRow) => x.row.businessId == id)
  }

  /** `restaurant_df[restaurant_df["topic"] == topic]`. */
  function TopicRows(rows: seq<TopicRow>, topic: string): seq<TopicRow> {
    Filter(rows, (x: TopicRow) => x.topic == topic)
  }

  /** The name on the restaurant's first row. */
  function NameOf(rows: seq<TopicRow>, id: string): string {
    var restaurant := RestaurantRows(rows, id);
    if restaurant == [] then "" else restaurant[0].row.restaurantName
  }

  /** The fixed part of the prompt for one restaurant and topic: the
      instructions, naming the restaurant and the topic (once upper-cased). */
  function Header(name: string, topic: string): string {
    "\n"
    + "                You are analyzing and synthesizing customer reviews for a restaurant called " + name + ", where the main topic is:\n"
    + "                \n"
    + "                Topic: " + Upper(topic) + "\n"
    + "\n"
    + "                Using only the reviews included here, provide a concise (2-3 sentence) summary of " + name + "'s performance in the area of " + topic + ".\n"
    + "\n"
    + "                Guidelines:\n"
    + "                - Capture common themes, impressions, and disagreements\n"
    + "                - Be factual and grounded in the evidence; do not invent details not supported by the excerpts\n"
    + "                - Begin by characterizing the group of reviews as \"positive\", \"negative\", or \"mixed\" \n"
    + "\n"
    + "                Output to avoid:\n"
    + "                - Content unrelated to the topic (for example: \"noise levels\" are ambiance, not food)\n"
    + "                - Review indicies (for example, \"review 3\"); those are not user-fsacing\n"
    + "                - Announcing the summary (\"here is a concise summary...\"); just start with summary content\n"
    + "                - Use of generic filler adjectives (e.g., cozy, delicious, amazing) unless the excerpts explicitly support them\n"
    + "\n"
    + "                Important: if the excerpts don\U{2019}t describe a topic clearly, say \U{2018}<topic> details are limited in the provided reviews.\U{2019}\U{201D}\n"
    + "\n"
    + "                "
  }

  /** Excerpt number `i`: the row's star rating and its chunk text. */
  function Excerpt(i: nat, r: Ranked): string {
    "\n                    [" + NatToString(i) + "] Review (" + IntToString(r.stars) + " stars):\n"
    + "                    " + r.chunk + "\n"
    + "                    "
  }

  /** The excerpt of a row of the combined table. */
  function RowExcerpt(i: nat, x: TopicRow): string {
    Excerpt(i, x.row)
  }

  /** The excerpts of `rows`, numbered from `start`. */
  function Excerpts(rows: seq<TopicRow>, start: nat): string {
    Numbered(rows, start, RowExcerpt)
  }

  /** Everything a call to the model takes besides the rows: the
      instruction text for a restaurant name and a topic, the model name, the
      temperature and the model. */
  datatype Request = Request(instructions: (string, string) -> string, model: string, temperature: real, llm: Llm)

  /** The prompt for one restaurant and topic: the instructions, then one
      excerpt per row. */
  function Prompt(q: Request, name: string, topic: string, rows: seq<TopicRow>): string {
    q.instructions(name, topic) + Excerpts(rows, 0)
  }

  /** call_ollama: the response text, stripped. */
  function CallOllama(llm: Llm, prompt: string, model: string, temperature: real): string {
    Strip(llm(prompt, model, temperature))
  }

  /** `.replace("\n", " ")`. */
  function Unwrapped(s: string): string {
    ReplaceChar(s, '\n', " ")
  }

  /** The summary stored for one topic of one restaurant. */
  function TopicSummary(restaurant: seq<TopicRow>, name: string, topic: string, q: Request): string {
    Unwrapped(CallOllama(q.llm, Prompt(q, name, topic, TopicRows(restaurant, topic)), q.model, q.temperature))
  }

  /** The summaries of the topics, in topic order. */
  function TopicSummaryList(restaurant: seq<TopicRow>, name: string, topics: seq<Topic>, q: Request): (r: seq<string>)
    ensures |r| == |topics|
  {
    if topics == [] then []
    else TopicSummaryList(restaurant, name, Init(topics), q) + [TopicSummary(restaurant, name, Last(topics).name, q)]
  }

  /** The inner loop over the topics. */
  function TopicSummaries(restaurant: seq<TopicRow>, name: string, topics: seq<Topic>, q: Request): Dict<string> {
    DictOf(TopicNames(topics), TopicSummaryList(restaurant, name, topics, q))
  }

  /** The outer loop over the restaurant ids: an id with no row raises
      IndexError at `iloc[0]`. */
  function SummariesFor(rows: seq<TopicRow>, ids: seq<string>, topics: seq<Topic>, q: Request): Result<Summaries> {
    if ids == [] then Success([])
    else match SummariesFor(rows, Init(ids), topics, q)
      case Failure(e) => Failure(e)
      case Success(acc) =>
        var restaurant := RestaurantRows(rows, Last(ids));
        if restaurant == [] then Failure(IndexError(0))
        else
          var name := NameOf(rows, Last(ids));
          Success(DictUpdate(acc, name, TopicSummaries(restaurant, name, topics, q)))
  }

  /** One more topic adds its summary under its name. */
  lemma TopicSummariesSnoc(restaurant: seq<TopicRow>, name: string, topics: seq<Topic>, t: nat, q: Request)
    requires t < |topics|
    ensures TopicSummaries(restaurant, name, topics[..t + 1], q)
         == DictUpdate(TopicSummaries(restaurant, name, topics[..t], q), topics[t].name, TopicSummary(restaurant, name, topics[t].name, q))
  {
    var names := TopicNames(topics[..t + 1]);
    assert Init(names) == TopicNames(topics[..t]) && Last(names) == topics[t].name;
    assert Init(topics[..t + 1]) == topics[..t] && Last(topics[..t + 1]) == topics[t];
  }

  /** Once an id has failed, later ids leave the failure as it is. */
  lemma {:induction false} SummariesForFailsAfter(rows: seq<TopicRow>, ids: seq<string>, k: nat, m: nat, topics: seq<Topic>, q: Request)
    requires k <= m <= |ids|
    requires SummariesFor(rows, ids[..k], topics, q).Failure?
    ensures SummariesFor(rows, ids[..m], topics, q) == SummariesFor(rows, ids[..k], topics, q)
    decreases m
  {
    if m > k {
      SummariesForFailsAfter(rows, ids, k, m - 1, topics, q);
      assert Init(ids[..m]) == ids[..m - 1];
    }
  }

  /** Row `i` of a prompt's rows is excerpt number `i`, between the
      excerpts of the rows before it and those after it. */
  lemma ExcerptOfRow(rows: seq<TopicRow>, i: nat)
    requires i < |rows|
    ensures Excerpts(rows, 0) == Excerpts(rows[..i], 0) + Excerpt(i, rows[i].row) + Excerpts(rows[i + 1..], i + 1)
  {
    NumberedAt(rows, i, 0, RowExcerpt);
  }

  /** The rows of a prompt are the rows of that restaurant and that topic,
      in table order. */
  lemma TopicRowsSpec(rows: seq<TopicRow>, id: string, topic: string)
    ensures forall x :: x in TopicRows(RestaurantRows(rows, id), topic) <==> x in rows && x.row.businessId == id && x.topic == topic
    ensures IsSubseq(TopicRows(RestaurantRows(rows, id), topic), rows)
  {
    var ofId := (x: TopicRow) => x.row.businessId == id;
    var ofTopic := (x: TopicRow) => x.topic == topic;
    var both := (x: TopicRow) => ofId(x) && ofTopic(x);
    FilterFilter(rows, ofId, ofTopic, both);
    FilterIsSubseq(rows, both);
  }

  /** A stored summary never holds a line break. */
  lemma UnwrappedHasNoNewline(s: string)
    ensures '\n' !in Unwrapped(s)
    ensures |s| == |Unwrapped(s)| && forall i :: 0 <= i < |s| ==> Unwrapped(s)[i] == if s[i] == '\n' then ' ' else s[i]
  {
    UnwrappedPointwise(s);
  }

  lemma {:induction false} UnwrappedPointwise(s: string)
    ensures |s| == |Unwrapped(s)| && forall i :: 0 <= i < |s| ==> Unwrapped(s)[i] == if s[i] == '\n' then ' ' else s[i]
  {
    if s != [] {
      UnwrappedPointwise(s[1..]);
      var head := if s[0] == '\n' then " " else [s[0]];
      assert Unwrapped(s) == head + Unwrapped(s[1..]);
    }
  }

  /** Entry `i` of the list is the summary of topic `i`. */
  lemma {:induction false} TopicSummaryListAt(restaurant: seq<TopicRow>, name: string, topics: seq<Topic>, q: Request, i: nat)
    requires i < |topics|
    ensures TopicSummaryList(restaurant, name, topics, q)[i] == TopicSummary(restaurant, name, topics[i].name, q)
    decreases |topics|
  {
    if i < |topics| - 1 {
      TopicSummaryListAt(restaurant, name, Init(topics), q, i);
    }
  }

  /** With distinct topic names, the inner dictionary has one entry per
      topic, in topic order, holding the summary made from that topic's
      prompt, even when no row has the topic. */
  lemma TopicSummariesSpec(restaurant: seq<TopicRow>, name: string, topics: seq<Topic>, q: Request)
    requires forall i, j :: 0 <= i < j < |topics| ==> topics[i].name != topics[j].name
    ensures DictKeys(TopicSummaries(restaurant, name, topics, q)) == TopicNames(topics)
    ensures forall i :: 0 <= i < |topics| ==>
      Lookup(TopicSummaries(restaurant, name, topics, q), topics[i].name) == Some(TopicSummary(restaurant, name, topics[i].name, q))
  {
    var names, values := TopicNames(topics), TopicSummaryList(restaurant, name, topics, q);
    DictOfSpec(names, values);
    forall i | 0 <= i < |topics|
      ensures Lookup(DictOf(names, values), topics[i].name) == Some(TopicSummary(restaurant, name, topics[i].name, q))
    {
      TopicSummaryListAt(restaurant, name, topics, q, i);
    }
  }

  /** Every summary of a restaurant's topic dictionary is free of line breaks. */
  lemma TopicSummariesHaveNoNewline(restaurant: seq<TopicRow>, name: string, topics: seq<Topic>, q: Request, topic: string)
    ensures Lookup(TopicSummaries(restaurant, name, topics, q), topic).Some? ==>
      '\n' !in Lookup(TopicSummaries(restaurant, name, topics, q), topic).value
  {
    var values := TopicSummaryList(restaurant, name, topics, q);
    DictOfValues(TopicNames(topics), values, topic);
    var found := Lookup(TopicSummaries(restaurant, name, topics, q), topic);
    if found.Some? {
      var i :| 0 <= i < |values| && values[i] == found.value;
      TopicSummaryListAt(restaurant, name, topics, q, i);
      UnwrappedHasNoNewline(CallOllama(q.llm, Prompt(q, name, topics[i].name, TopicRows(restaurant, topics[i].name)), q.model, q.temperature));
    }
  }

  /** The loop completes exactly when every listed id has rows; otherwise it
      ends with the IndexError of `iloc[0]` on an empty selection. */
  lemma {:induction false} SummariesForSucceeds(rows: seq<TopicRow>, ids: seq<string>, topics: seq<Topic>, q: Request)
    ensures SummariesFor(rows, ids, topics, q).Success? <==> forall k :: 0 <= k < |ids| ==> RestaurantRows(rows, ids[k]) != []
    ensures SummariesFor(rows, ids, topics, q).Failure? ==> SummariesFor(rows, ids, topics, q).error == IndexError(0)
    decreases |ids|
  {
    if ids != [] {
      var init := Init(ids);
      SummariesForSucceeds(rows, init, topics, q);
      var r := SummariesFor(rows, ids, topics, q);
      assert r.Success? <==> SummariesFor(rows, init, topics, q).Success? && RestaurantRows(rows, Last(ids)) != [];
      if r.Success? {
        forall k | 0 <= k < |ids| ensures RestaurantRows(rows, ids[k]) != [] {
          if k < |init| {
            assert init[k] == ids[k];
          } else {
            assert ids[k] == Last(ids);
          }
        }
      } else if SummariesFor(rows, init, topics, q).Success? {
        assert RestaurantRows(rows, ids[|ids| - 1]) == [];
      } else {
        var k :| 0 <= k < |init| && RestaurantRows(rows, init[k]) == [];
        assert init[k] == ids[k];
      }
    }
  }

  /** The name each listed id is stored under, in id order. */
  function RestaurantNames(rows: seq<TopicRow>, ids: seq<string>): (r: seq<string>)
    ensures |r| == |ids|
  {
    if ids == [] then [] else RestaurantNames(rows, Init(ids)) + [NameOf(rows, Last(ids))]
  }

  /** The topic dictionary made for each listed id, in id order. */
  function RestaurantSummaryList(rows: seq<TopicRow>, ids: seq<string>, topics: seq<Topic>, q: Request): (r: seq<Dict<string>>)
    ensures |r| == |ids|
  {
    if ids == [] then []
    else
      var id := Last(ids);
      RestaurantSummaryList(rows, Init(ids), topics, q) + [TopicSummaries(RestaurantRows(rows, id), NameOf(rows, id), topics, q)]
  }

  lemma {:induction false} RestaurantNamesAt(rows: seq<TopicRow>, ids: seq<string>, k: nat)
    requires k < |ids|
    ensures RestaurantNames(rows, ids)[k] == NameOf(rows, ids[k])
    decreases |ids|
  {
    if k < |ids| - 1 {
      RestaurantNamesAt(rows, Init(ids), k);
    }
  }

  lemma {:induction false} RestaurantSummaryListAt(rows: seq<TopicRow>, ids: seq<string>, topics: seq<Topic>, q: Request, k: nat)
    requires k < |ids|
    ensures RestaurantSummaryList(rows, ids, topics, q)[k] == TopicSummaries(RestaurantRows(rows, ids[k]), NameOf(rows, ids[k]), topics, q)
    decreases |ids|
  {
    var list := RestaurantSummaryList(rows, ids, topics, q);
    assert list == RestaurantSummaryList(rows, Init(ids), topics, q)
      + [TopicSummaries(RestaurantRows(rows, Last(ids)), NameOf(rows, Last(ids)), topics, q)];
    if k < |ids| - 1 {
      RestaurantSummaryListAt(rows, Init(ids), topics, q, k);
      assert Init(ids)[k] == ids[k];
    } else {
      assert Last(ids) == ids[k];
    }
  }

  /** A completed loop leaves the dictionary filled id by id with each
      restaurant's name and topic dictionary. */
  lemma {:induction false} SummariesForIsDictOf(rows: seq<TopicRow>, ids: seq<string>, topics: seq<Topic>, q: Request)
    requires SummariesFor(rows, ids, topics, q).Success?
    ensures SummariesFor(rows, ids, topics, q).value == DictOf(RestaurantNames(rows, ids), RestaurantSummaryList(rows, ids, topics, q))
    decreases |ids|
  {
    if ids != [] {
      SummariesForIsDictOf(rows, Init(ids), topics, q);
      var names := RestaurantNames(rows, ids);
      var values := RestaurantSummaryList(rows, ids, topics, q);
      assert Init(names) == RestaurantNames(rows, Init(ids)) && Last(names) == NameOf(rows, Last(ids));
      assert Init(values) == RestaurantSummaryList(rows, Init(ids), topics, q);
    }
  }

  /** On success the summaries are keyed by restaurant name: a name is
      present exactly when one of the ids carries it, and it holds the topic
      summaries of the last id carrying it, an earlier id of the same name
      being overwritten. */
  lemma SummariesKeyedByName(rows: seq<TopicRow>, ids: seq<string>, topics: seq<Topic>, q: Request, name: string)
    requires SummariesFor(rows, ids, topics, q).Success?
    ensures Lookup(SummariesFor(rows, ids, topics, q).value, name).Some? <==> exists k :: 0 <= k < |ids| && NameOf(rows, ids[k]) == name
    ensures forall k :: 0 <= k < |ids| && NameOf(rows, ids[k]) == name && (forall l :: k < l < |ids| ==> NameOf(rows, ids[l]) != name) ==>
      Lookup(SummariesFor(rows, ids, topics, q).value, name) == Some(TopicSummaries(RestaurantRows(rows, ids[k]), name, topics, q))
  {
    var names := RestaurantNames(rows, ids);
    var values := RestaurantSummaryList(rows, ids, topics, q);
    SummariesForIsDictOf(rows, ids, topics, q);
    DictOfLastWins(names, values, name);
    if exists k :: 0 <= k < |ids| && NameOf(rows, ids[k]) == name {
      var k :| 0 <= k < |ids| && NameOf(rows, ids[k]) == name;
      RestaurantNamesAt(rows, ids, k);
      assert names[k] in names;
    }
    if name in names {
      var k :| 0 <= k < |ids| && names[k] == name;
      RestaurantNamesAt(rows, ids, k);
    }
    forall k | 0 <= k < |ids| && NameOf(rows, ids[k]) == name && (forall l :: k < l < |ids| ==> NameOf(rows, ids[l]) != name)
      ensures Lookup(SummariesFor(rows, ids, topics, q).value, name) == Some(TopicSummaries(RestaurantRows(rows, ids[k]), name, topics, q))
    {
      RestaurantNamesAt(rows, ids, k);
      RestaurantSummaryListAt(rows, ids, topics, q, k);
      forall l | k < l < |ids| ensures names[l] != name {
        RestaurantNamesAt(rows, ids, l);
      }
      assert names[k] == name;
      assert Lookup(DictOf(names, values), name) == Some(values[k]);
    }
  }

  /** No stored summary holds a line break. */
  lemma {:induction false} SummariesHaveNoNewline(rows: seq<TopicRow>, ids: seq<string>, topics: seq<Topic>, q: Request, name: string, topic: string)
    requires SummariesFor(rows, ids, topics, q).Success?
    requires Lookup(SummariesFor(rows, ids, topics, q).value, name).Some?
    requires Lookup(Lookup(SummariesFor(rows, ids, topics, q).value, name).value, topic).Some?
    ensures '\n' !in Lookup(Lookup(SummariesFor(rows, ids, topics, q).value, name).value, topic).value
    decreases |ids|
  {
    var init, id := Init(ids), Last(ids);
    var acc := SummariesFor(rows, init, topics, q).value;
    var last := NameOf(rows, id);
    var ts := TopicSummaries(RestaurantRows(rows, id), last, topics, q);
    DictUpdateSpec(acc, last, ts);
    if name == last {
      TopicSummariesHaveNoNewline(RestaurantRows(rows, id), last, topics, q, topic);
    } else {
      SummariesHaveNoNewline(rows, init, topics, q, name, topic);
    }
  }

  /* ---------------------------------------------------------------------
     The summary table
     --------------------------------------------------------------------- */

  /** A row of a stored table: column name to cell, None for a missing value. */
  type Row = map<string, Option<string>>

  /** A stored table: its column names, in order, and its rows. */
  datatype Table = Table(columns: seq<string>, rows: seq<Row>)

  /** The cell of a row in a column, None when the row has no such cell. */
  function Cell(row: Row, column: string): Option<string> {
    if column in row then row[column] else None
  }

  /** One restaurant's row: its name in the name column and, under each
      topic, that topic's summary, missing when the restaurant has none. */
  function SummaryRow(nameColumn: string, name: string, perTopic: Dict<string>, topicNames: seq<string>): Row {
    (map t | t in topicNames :: Lookup(perTopic, t))[nameColumn := Some(name)]
  }

  /** The dictionary of dictionaries transposed into one row per restaurant
      name, in insertion order, with the names moved into a column; with no
      restaurant there is no topic column either. */
  function SummaryTableWith(summaries: Summaries, topicNames: seq<string>, nameColumn: string): Table {
    Table(
      if summaries == [] then [nameColumn] else [nameColumn] + topicNames,
      seq(|summaries|, i requires 0 <= i < |summaries| => SummaryRow(nameColumn, summaries[i].0, summaries[i].1, topicNames)))
  }

  /** `pd.DataFrame(summary_dict).transpose().reset_index()`: the index of
      restaurant names has no name, so `reset_index` puts the names in a
      column called "index". */
  function SummaryTableAsWritten(summaries: Summaries, topicNames: seq<string>): Table {
    SummaryTableWith(summaries, topicNames, "index")
  }

  /** The table with the names in the column "restaurant_name", the column
      the app reads them from. */
  function SummaryTable(summaries: Summaries, topicNames: seq<string>): Table {
    SummaryTableWith(summaries, topicNames, "restaurant_name")
  }

  /** Row `i` of the table holds restaurant `i`'s name and, under each other
      topic column, its summary of that topic; the columns are the name
      column followed by the topics. */
  lemma SummaryTableSpec(summaries: Summaries, topicNames: seq<string>, nameColumn: string)
    ensures var t := SummaryTableWith(summaries, topicNames, nameColumn);
      && |t.rows| == |summaries|
      && (summaries != [] ==> t.columns == [nameColumn] + topicNames)
      && (forall i :: 0 <= i < |summaries| ==> Cell(t.rows[i], nameColumn) == Some(summaries[i].0))
      && (forall i, topic :: 0 <= i < |summaries| && topic in topicNames && topic != nameColumn ==>
            Cell(t.rows[i], topic) == Lookup(summaries[i].1, topic))
  {
  }
}
