/** Index building (src/embeddings.py): the chunk table is embedded once, then
    split by restaurant id; each restaurant gets a flat vector index and a
    metadata table holding the same rows in the same order.

    The embedding model is the parameter `encode`, one vector per text; the
    index directory is a map from file name to the stored content. */
module Embeddings {
  import opened Wrappers
  import opened Strings
  import opened Seqs
  import opened Config
  import opened Cleaning

  /** An embedding; its coordinates are never inspected here. */
  type Vector = seq<real>

  /** The two flat index kinds the builder can create. */
  datatype MetricKind = InnerProduct | L2

  const METRIC_ERROR: string := "metric must be 'cosine' or 'l2'"

  /** The metric rule of build_faiss_index. */
  function SelectMetric(metric: string): (r: Result<MetricKind>)
    ensures r == Success(InnerProduct) <==> metric == "cosine"
    ensures r == Success(L2) <==> metric == "l2"
    ensures r.Failure? <==> metric != "cosine" && metric != "l2"
    ensures r.Failure? ==> r.error == ValueError(METRIC_ERROR)
  {
    if metric == "cosine" then Success(InnerProduct)
    else if metric == "l2" then Success(L2)
    else Failure(ValueError(METRIC_ERROR))
  }

  /** The configured metric is one the builder accepts, and it selects the
      inner-product index. */
  lemma ConfiguredMetricAccepted()
    ensures SelectMetric(INDEX_METRIC) == Success(InnerProduct)
  {
  }

  /** A flat index: its metric and the vectors added to it, in order. */
  class FlatIndex {
    const metric: MetricKind
    var vectors: seq<Vector>

    constructor (metric: MetricKind)
      ensures this.metric == metric && vectors == []
    {
      this.metric := metric;
      vectors := [];
    }

    /** `ntotal`, the number of stored vectors. */
    function Count(): nat
      reads this
    {
      |vectors|
    }

    /** `add(X)`: the rows of X are stored after the ones already there. */
    method Add(xs: seq<Vector>)
      modifies this
      ensures vectors == old(vectors) + xs
      ensures Count() == old(Count()) + |xs|
    {
      vectors := vectors + xs;
    }
  }

  /** build_faiss_index: a fresh index of the chosen kind holding exactly the
      rows of X, in order; an unknown metric raises ValueError. */
  method BuildFaissIndex(xs: seq<Vector>, metric: string) returns (r: Result<FlatIndex>)
    ensures r.Success? <==> SelectMetric(metric).Success?
    ensures r.Failure? ==> r.error == ValueError(METRIC_ERROR)
    ensures r.Success? ==>
      && fresh(r.value)
      && r.value.metric == SelectMetric(metric).value
      && r.value.vectors == xs
  {
    var kind := SelectMetric(metric);
    if kind.Failure? {
      return Failure(kind.error);
    }
    var index := new FlatIndex(kind.value);
    index.Add(xs);
    return Success(index);
  }

  /* ---------------------------------------------------------------------
     Embedding and grouping
     --------------------------------------------------------------------- */

  /** embed_texts over the chunk column, with the model given as `encode`. */
  function EmbedTexts(texts: seq<string>, encode: string -> Vector): (vs: seq<Vector>)
    ensures |vs| == |texts|
  {
    seq(|texts|, i requires 0 <= i < |texts| => encode(texts[i]))
  }

  function ChunkTexts(rows: seq<ChunkRow>): (texts: seq<string>)
    ensures |texts| == |rows|
  {
    seq(|rows|, i requires 0 <= i < |rows| => rows[i].chunk)
  }

  function BusinessIds(rows: seq<ChunkRow>): (ids: seq<string>)
    ensures |ids| == |rows|
  {
    seq(|rows|, i requires 0 <= i < |rows| => rows[i].businessId)
  }

  /** The keys of `groupby(restaurant id).groups`: each id once, ascending. */
  function GroupKeys(rows: seq<ChunkRow>): seq<string> {
    DistinctBy(SortByText(BusinessIds(rows), Identity), Identity)
  }

  /** There is one group per restaurant id occurring in the table, no id
      twice, in ascending order. */
  lemma GroupKeysSpec(rows: seq<ChunkRow>)
    ensures forall id :: id in GroupKeys(rows) <==> exists i :: 0 <= i < |rows| && rows[i].businessId == id
    ensures KeysDistinct(GroupKeys(rows), Identity)
    ensures TextAscending(GroupKeys(rows), Identity)
  {
    var ids := BusinessIds(rows);
    var sorted := SortByText(ids, Identity);
    var keys := GroupKeys(rows);
    DistinctByKeysDistinct(sorted, Identity);
    DistinctByKeepsKeys(sorted, Identity);
    DistinctByTextAscending(sorted, Identity, Identity);
    forall id ensures id in keys <==> exists i :: 0 <= i < |rows| && rows[i].businessId == id {
      if id in keys {
        var k :| 0 <= k < |keys| && keys[k] == id;
        assert HasKey(keys, Identity, id);
        var m :| 0 <= m < |sorted| && Identity(sorted[m]) == id;
        assert sorted[m] in multiset(ids);
        var i :| 0 <= i < |ids| && ids[i] == id;
        assert rows[i].businessId == id;
      }
      if exists i :: 0 <= i < |rows| && rows[i].businessId == id {
        var i :| 0 <= i < |rows| && rows[i].businessId == id;
        assert ids[i] == id && ids[i] in multiset(sorted);
        var m :| 0 <= m < |sorted| && sorted[m] == id;
        assert HasKey(sorted, Identity, id);
        var k :| 0 <= k < |keys| && Identity(keys[k]) == id;
      }
    }
  }

  /** `groups[id]`: the labels of the rows with that id, ascending. The table
      is read back with labels 0..n-1, so labels are positions. */
  function GroupLabels(rows: seq<ChunkRow>, id: string): (labels: seq<nat>)
    ensures forall j :: 0 <= j < |labels| ==> labels[j] < |rows| && rows[labels[j]].businessId == id
    ensures forall i :: 0 <= i < |rows| && rows[i].businessId == id ==> i in labels
    ensures forall j, k :: 0 <= j < k < |labels| ==> labels[j] < labels[k]
  {
    if rows == [] then []
    else
      var init := GroupLabels(Init(rows), id);
      assert forall i :: 0 <= i < |rows| - 1 ==> Init(rows)[i] == rows[i];
      init + (if Last(rows).businessId == id then [|rows| - 1] else [])
  }

  /** `xs[labels]`: the entries at the given positions, in label order. */
  function Select<T>(xs: seq<T>, labels: seq<nat>): (r: seq<T>)
    requires forall j :: 0 <= j < |labels| ==> labels[j] < |xs|
    ensures |r| == |labels|
  {
    seq(|labels|, j requires 0 <= j < |labels| => xs[labels[j]])
  }

  /** Every row lies in exactly one group, the one of its own id. */
  lemma GroupsPartitionRows(rows: seq<ChunkRow>)
    ensures forall i :: 0 <= i < |rows| ==>
      rows[i].businessId in GroupKeys(rows) && i in GroupLabels(rows, rows[i].businessId)
    ensures forall i, id :: 0 <= i < |rows| && i in GroupLabels(rows, id) ==> id == rows[i].businessId
  {
    GroupKeysSpec(rows);
  }

  /** The vectors of a group, picked by position from the corpus embeddings. */
  function GroupVectors(rows: seq<ChunkRow>, embeddings: seq<Vector>, id: string): seq<Vector>
    requires |embeddings| == |rows|
  {
    Select(embeddings, GroupLabels(rows, id))
  }

  /** The metadata rows of a group, picked by label. */
  function GroupRows(rows: seq<ChunkRow>, id: string): seq<ChunkRow> {
    Select(rows, GroupLabels(rows, id))
  }

  /** Within a group, vector j is the embedding of metadata row j's chunk: the
      two tables have the same length and are aligned row by row. The rows are
      exactly the table's rows with that id, in table order. */
  lemma {:induction false} GroupAlignment(rows: seq<ChunkRow>, encode: string -> Vector, id: string)
    ensures var vs := GroupVectors(rows, EmbedTexts(ChunkTexts(rows), encode), id);
      var ms := GroupRows(rows, id);
      && |vs| == |ms|
      && (forall j :: 0 <= j < |ms| ==> vs[j] == encode(ms[j].chunk) && ms[j].businessId == id)
      && (forall r :: r in rows ==> (r in ms <==> r.businessId == id))
  {
    var ms := GroupRows(rows, id);
    var labels := GroupLabels(rows, id);
    forall r | r in rows ensures r in ms <==> r.businessId == id {
      var i :| 0 <= i < |rows| && rows[i] == r;
      if r.businessId == id {
        var j :| 0 <= j < |labels| && labels[j] == i;
        assert ms[j] == r;
      }
    }
  }

  /* ---------------------------------------------------------------------
     The index directory
     --------------------------------------------------------------------- */

  /** What a file of the index directory holds. */
  datatype StoredFile =
    | IndexFile(metric: MetricKind, vectors: seq<Vector>)
    | MetadataFile(rows: seq<ChunkRow>)
    | OtherFile

  /** The index directory, by file name. */
  type Directory = map<string, StoredFile>

  /** The two writes of one loop round for restaurant `id`. */
  function StoreGroup(dir: Directory, rows: seq<ChunkRow>, embeddings: seq<Vector>, id: string): Directory
    requires |embeddings| == |rows|
  {
    dir[IndexFileName(id) := IndexFile(InnerProduct, GroupVectors(rows, embeddings, id))]
       [MetaFileName(id) := MetadataFile(GroupRows(rows, id))]
  }

  /** The directory after the rounds for `ids`, in order. */
  function StoreGroups(dir: Directory, rows: seq<ChunkRow>, embeddings: seq<Vector>, ids: seq<string>): Directory
    requires |embeddings| == |rows|
  {
    if ids == [] then dir
    else StoreGroup(StoreGroups(dir, rows, embeddings, Init(ids)), rows, embeddings, Last(ids))
  }

  /** create_faiss_for_yelp_reviews: embed the whole chunk column once, then for
      each restaurant id write its index and its metadata table. */
  method CreateFaissForReviews(rows: seq<ChunkRow>, encode: string -> Vector, dir: Directory)
    returns (out: Directory)
    ensures out == StoreGroups(dir, rows, EmbedTexts(ChunkTexts(rows), encode), GroupKeys(rows))
  {
    var embeddings := EmbedTexts(ChunkTexts(rows), encode);
    var keys := GroupKeys(rows);
    ConfiguredMetricAccepted();
    out := dir;
    for g := 0 to |keys|
      invariant out == StoreGroups(dir, rows, embeddings, keys[..g])
    {
      var id := keys[g];
      var labels := GroupLabels(rows, id);
      var xr := Select(embeddings, labels);
      var metaR := Select(rows, labels);
      var built := BuildFaissIndex(xr, INDEX_METRIC);
      var index := built.value;
      out := out[IndexFileName(id) := IndexFile(index.metric, index.vectors)];
      out := out[MetaFileName(id) := MetadataFile(metaR)];
      assert Init(keys[..g + 1]) == keys[..g] && Last(keys[..g + 1]) == id;
    }
    assert keys[..|keys|] == keys;
  }

  /** An index file name never equals a metadata file name, and each names
      one id. */
  lemma FileNamesDistinct(a: string, b: string)
    ensures IndexFileName(a) != MetaFileName(b)
    ensures IndexFileName(a) == IndexFileName(b) ==> a == b
    ensures MetaFileName(a) == MetaFileName(b) ==> a == b
  {
    var i, m := IndexFileName(a), MetaFileName(b);
    assert i[|i| - 1] == 's' && m[|m| - 1] == 't';
    assert IndexFileName(a) == IndexFileName(b) ==> a == IndexFileName(a)[..|a|];
    assert MetaFileName(a) == MetaFileName(b) ==> a == MetaFileName(a)[..|a|];
  }

  /** A name is written by the rounds for `ids` exactly when it is the index or
      metadata name of one of them. */
  predicate WrittenBy(name: string, ids: seq<string>) {
    exists k :: 0 <= k < |ids| && (name == IndexFileName(ids[k]) || name == MetaFileName(ids[k]))
  }

  /** The file `name` is in `out` exactly when it is in `dir`, with the same content. */
  predicate SameFile(out: Directory, dir: Directory, name: string) {
    (name in out <==> name in dir) && (name in dir ==> out[name] == dir[name])
  }

  /** Files the rounds for `ids` do not name are left as they were. */
  lemma {:induction false} StoreGroupsKeepsOthers(dir: Directory, rows: seq<ChunkRow>, embeddings: seq<Vector>, ids: seq<string>)
    requires |embeddings| == |rows|
    ensures forall name :: !WrittenBy(name, ids) ==> SameFile(StoreGroups(dir, rows, embeddings, ids), dir, name)
  {
    if ids != [] {
      var init, last := Init(ids), Last(ids);
      StoreGroupsKeepsOthers(dir, rows, embeddings, init);
      forall name | !WrittenBy(name, ids)
        ensures !WrittenBy(name, init) && name != IndexFileName(last) && name != MetaFileName(last)
      {
        assert forall k :: 0 <= k < |init| ==> init[k] == ids[k];
        assert ids[|ids| - 1] == last;
      }
    }
  }

  /** The content the round for `id` writes is in place. */
  predicate HoldsGroup(out: Directory, rows: seq<ChunkRow>, embeddings: seq<Vector>, id: string)
    requires |embeddings| == |rows|
  {
    && IndexFileName(id) in out && out[IndexFileName(id)] == IndexFile(InnerProduct, GroupVectors(rows, embeddings, id))
    && MetaFileName(id) in out && out[MetaFileName(id)] == MetadataFile(GroupRows(rows, id))
  }

  /** After the rounds for distinct ids, each id's index file holds its group's
      vectors under the inner-product metric and its metadata file the group's
      rows: no later round overwrites an earlier one. */
  lemma {:induction false} StoreGroupsWritesEach(dir: Directory, rows: seq<ChunkRow>, embeddings: seq<Vector>, ids: seq<string>)
    requires |embeddings| == |rows|
    requires KeysDistinct(ids, Identity)
    ensures forall id :: id in ids ==> HoldsGroup(StoreGroups(dir, rows, embeddings, ids), rows, embeddings, id)
  {
    if ids != [] {
      var init, last := Init(ids), Last(ids);
      assert ids == init + [last];
      assert KeysDistinct(init, Identity) by {
        forall i, j | 0 <= i < j < |init| ensures init[i] != init[j] {
          assert init[i] == ids[i] && init[j] == ids[j];
        }
      }
      StoreGroupsWritesEach(dir, rows, embeddings, init);
      var before := StoreGroups(dir, rows, embeddings, init);
      var out := StoreGroups(dir, rows, embeddings, ids);
      assert out == StoreGroup(before, rows, embeddings, last);
      forall id | id in ids ensures HoldsGroup(out, rows, embeddings, id) {
        if id != last {
          var k :| 0 <= k < |ids| && ids[k] == id;
          assert k < |init| && init[k] == id;
          FileNamesDistinct(id, last);
          FileNamesDistinct(last, id);
          assert HoldsGroup(before, rows, embeddings, id);
        }
      }
    }
  }

  /** The end-to-end guarantee of the index build: for every restaurant id of
      the chunk table, its index file and metadata file exist, the metric is
      inner product, and vector j of the index is the embedding of row j of the
      metadata table, whose rows are exactly that restaurant's chunk rows. */
  lemma CreatedFilesAligned(rows: seq<ChunkRow>, encode: string -> Vector, dir: Directory, id: string)
    requires exists i :: 0 <= i < |rows| && rows[i].businessId == id
    ensures var out := StoreGroups(dir, rows, EmbedTexts(ChunkTexts(rows), encode), GroupKeys(rows));
      && IndexFileName(id) in out && MetaFileName(id) in out
      && out[IndexFileName(id)].IndexFile? && out[IndexFileName(id)].metric == InnerProduct
      && out[MetaFileName(id)].MetadataFile?
      && |out[IndexFileName(id)].vectors| == |out[MetaFileName(id)].rows|
      && (forall j :: 0 <= j < |out[MetaFileName(id)].rows| ==>
            out[IndexFileName(id)].vectors[j] == encode(out[MetaFileName(id)].rows[j].chunk))
      && (forall r :: r in rows ==> (r in out[MetaFileName(id)].rows <==> r.businessId == id))
  {
    var embeddings := EmbedTexts(ChunkTexts(rows), encode);
    var out := StoreGroups(dir, rows, embeddings, GroupKeys(rows));
    GroupKeysSpec(rows);
    assert id in GroupKeys(rows);
    StoreGroupsWritesEach(dir, rows, embeddings, GroupKeys(rows));
    assert HoldsGroup(out, rows, embeddings, id);
    GroupAlignment(rows, encode, id);
  }
}
