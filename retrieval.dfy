/** Topic-aware retrieval: list the index directory's `.faiss` files, pair each
    with its metadata table, search every restaurant's index once per topic,
    turn the raw hits into a ranked table with one chunk per review, and
    collect the first rows of every (restaurant, topic) block in one table.
    File names are relative to the index directory; the vector search and the
    query encoder are parameters. */
module Retrieval {
  import opened Wrappers
  import opened Strings
  import opened Seqs
  import opened Config
  import opened Cleaning
  import opened Embeddings

  /* ---------------------------------------------------------------------
     get_index_file_list
     --------------------------------------------------------------------- */

  /** A directory entry the pattern `*.faiss` matches. */
  predicate IsIndexFileName(name: string) {
    EndsWith(name, ".faiss") && '/' !in name
  }

  /** The matching entries, sorted. All of them share the index directory, so
      sorting their paths sorts their names. */
  function IndexFileList(dir: Directory): seq<string> {
    SortedNames(set n | n in dir && IsIndexFileName(n))
  }

  /** The list holds exactly the matching entries. */
  lemma IndexFileListMembers(dir: Directory)
    ensures forall n :: n in IndexFileList(dir) <==> n in dir && IsIndexFileName(n)
  {
  }

  /** The list is in strictly ascending order, so no file is listed twice. */
  lemma IndexFileListAscending(dir: Directory)
    ensures StrictlyAscending(IndexFileList(dir))
  {
    SortedNamesAscending(set n | n in dir && IsIndexFileName(n));
  }

  /* ---------------------------------------------------------------------
     get_index_files_with_metadata
     --------------------------------------------------------------------- */

  /** One restaurant's files: its id (the index file's stem), its index file
      and the metadata file derived from that id. */
  datatype IndexPair = IndexPair(businessId: string, indexFile: string, metadataFile: string)

  const MISSING_METADATA: string := "Missing metadata for restaurant id "

  function PairFor(name: string): IndexPair {
    IndexPair(Stem(name), name, MetaFileName(Stem(name)))
  }

  predicate HasMetadata(dir: Directory, name: string) {
    MetaFileName(Stem(name)) in dir
  }

  /** The pairing loop from `acc` over the names still to visit: the first name
      without a metadata file ends the whole call with a KeyError. */
  function PairsFrom(dir: Directory, acc: seq<IndexPair>, names: seq<string>): Result<seq<IndexPair>>
    decreases |names|
  {
    if names == [] then Success(acc)
    else if !HasMetadata(dir, names[0]) then Failure(KeyError(MISSING_METADATA + Stem(names[0])))
    else PairsFrom(dir, acc + [PairFor(names[0])], names[1..])
  }

  function IndexPairs(dir: Directory): Result<seq<IndexPair>> {
    PairsFrom(dir, [], IndexFileList(dir))
  }

  method GetIndexFilesWithMetadata(dir: Directory) returns (r: Result<seq<IndexPair>>)
    ensures r == IndexPairs(dir)
  {
    var names := IndexFileList(dir);
    var pairs := [];
    assert names[0..] == names;
    for i := 0 to |names|
      invariant PairsFrom(dir, pairs, names[i..]) == PairsFrom(dir, [], names)
    {
      PairsFromStep(dir, pairs, names, i);
      var businessId := Stem(names[i]);
      var metaPath := MetaFileName(businessId);
      if metaPath !in dir {
        return Failure(KeyError(MISSING_METADATA + businessId));
      }
      pairs := pairs + [IndexPair(businessId, names[i], metaPath)];
    }
    assert names[|names|..] == [];
    return Success(pairs);
  }

  /** One step of the pairing loop at position `i` of the listed names. */
  lemma PairsFromStep(dir: Directory, acc: seq<IndexPair>, names: seq<string>, i: int)
    requires 0 <= i < |names|
    ensures PairsFrom(dir, acc, names[i..]) ==
      if !HasMetadata(dir, names[i]) then Failure(KeyError(MISSING_METADATA + Stem(names[i])))
      else PairsFrom(dir, acc + [PairFor(names[i])], names[i + 1..])
  {
    assert names[i..][0] == names[i] && names[i..][1..] == names[i + 1..];
  }

  /** `i` is the first name without a metadata file. */
  predicate FirstMissing(dir: Directory, names: seq<string>, i: int) {
    0 <= i < |names| && !HasMetadata(dir, names[i]) && forall j :: 0 <= j < i ==> HasMetadata(dir, names[j])
  }

  /** One pair per name, in order. */
  function PairsForAll(names: seq<string>): seq<IndexPair> {
    if names == [] then [] else [PairFor(names[0])] + PairsForAll(names[1..])
  }

  lemma {:induction false} PairsForAllIndex(names: seq<string>)
    ensures |PairsForAll(names)| == |names|
    ensures forall i :: 0 <= i < |names| ==> PairsForAll(names)[i] == PairFor(names[i])
  {
    if names != [] {
      var rest := names[1..];
      PairsForAllIndex(rest);
      var ps := PairsForAll(names);
      assert ps == [PairFor(names[0])] + PairsForAll(rest);
      forall i | 0 < i < |names| ensures ps[i] == PairFor(names[i]) {
        assert ps[i] == PairsForAll(rest)[i - 1] && rest[i - 1] == names[i];
      }
    }
  }

  lemma {:induction false} PairsFromSucceeds(dir: Directory, acc: seq<IndexPair>, names: seq<string>)
    ensures PairsFrom(dir, acc, names).Success? <==> forall i :: 0 <= i < |names| ==> HasMetadata(dir, names[i])
    decreases |names|
  {
    if names != [] {
      var rest := names[1..];
      PairsFromSucceeds(dir, acc + [PairFor(names[0])], rest);
      assert forall i :: 1 <= i < |names| ==> names[i] == rest[i - 1];
    }
  }

  lemma {:induction false} PairsFromValues(dir: Directory, acc: seq<IndexPair>, names: seq<string>)
    ensures PairsFrom(dir, acc, names).Success? ==> PairsFrom(dir, acc, names).value == acc + PairsForAll(names)
    decreases |names|
  {
    if names != [] && HasMetadata(dir, names[0]) {
      var x := PairFor(names[0]);
      PairsFromValues(dir, acc + [x], names[1..]);
      assert (acc + [x]) + PairsForAll(names[1..]) == acc + ([x] + PairsForAll(names[1..]));
    }
  }

  lemma {:induction false} PairsFromFailure(dir: Directory, acc: seq<IndexPair>, names: seq<string>)
    ensures PairsFrom(dir, acc, names).Failure? ==>
      exists i :: FirstMissing(dir, names, i) &&
        PairsFrom(dir, acc, names).error == KeyError(MISSING_METADATA + Stem(names[i]))
    decreases |names|
  {
    if names != [] {
      if HasMetadata(dir, names[0]) {
        var rest := names[1..];
        var r := PairsFrom(dir, acc + [PairFor(names[0])], rest);
        PairsFromFailure(dir, acc + [PairFor(names[0])], rest);
        if r.Failure? {
          var k :| FirstMissing(dir, rest, k) && r.error == KeyError(MISSING_METADATA + Stem(rest[k]));
          assert forall j :: 1 <= j < |names| ==> names[j] == rest[j - 1];
          assert FirstMissing(dir, names, k + 1);
        }
      } else {
        assert FirstMissing(dir, names, 0);
      }
    }
  }

  /** Pairing succeeds exactly when every listed index file has its metadata
      file; then pair i belongs to listed file i and carries its stem as the
      restaurant id, and otherwise the KeyError names the first listed file
      whose metadata is missing. */
  lemma IndexPairsSpec(dir: Directory)
    ensures var names := IndexFileList(dir);
      && (IndexPairs(dir).Success? <==> forall i :: 0 <= i < |names| ==> MetaFileName(Stem(names[i])) in dir)
      && (IndexPairs(dir).Success? ==>
            |IndexPairs(dir).value| == |names| &&
            forall i :: 0 <= i < |names| ==> IndexPairs(dir).value[i] == IndexPair(Stem(names[i]), names[i], MetaFileName(Stem(names[i]))))
      && (IndexPairs(dir).Failure? ==>
            exists i :: FirstMissing(dir, names, i) && IndexPairs(dir).error == KeyError(MISSING_METADATA + Stem(names[i])))
  {
    var names := IndexFileList(dir);
    PairsFromSucceeds(dir, [], names);
    PairsFromValues(dir, [], names);
    PairsFromFailure(dir, [], names);
    PairsForAllIndex(names);
    assert [] + PairsForAll(names) == PairsForAll(names);
  }

  /** A metadata file name never matches `*.faiss`. */
  lemma MetaNameNotIndexName(id: string)
    ensures !EndsWith(MetaFileName(id), ".faiss")
  {
    var m := MetaFileName(id);
    assert m[|m| - 1] == 't';
  }

  /** The directory after the index build over `rows`. */
  function Built(rows: seq<ChunkRow>, encode: string -> Vector, dir: Directory): Directory {
    StoreGroups(dir, rows, EmbedTexts(ChunkTexts(rows), encode), GroupKeys(rows))
  }

  /** Every `.faiss` name of the built directory is the index file of a
      restaurant of the chunk table. */
  lemma ListedAreBuilt(rows: seq<ChunkRow>, encode: string -> Vector, dir: Directory, n: string)
    requires forall m :: m in dir ==> !EndsWith(m, ".faiss")
    requires n in IndexFileList(Built(rows, encode, dir))
    ensures exists k :: k in GroupKeys(rows) && n == IndexFileName(k)
  {
    var embeddings := EmbedTexts(ChunkTexts(rows), encode);
    var keys := GroupKeys(rows);
    var out := StoreGroups(dir, rows, embeddings, keys);
    IndexFileListMembers(out);
    StoreGroupsKeepsOthers(dir, rows, embeddings, keys);
    assert n in out && EndsWith(n, ".faiss");
    assert WrittenBy(n, keys) by {
      assert !WrittenBy(n, keys) ==> SameFile(out, dir, n);
    }
    var k :| 0 <= k < |keys| && (n == IndexFileName(keys[k]) || n == MetaFileName(keys[k]));
    MetaNameNotIndexName(keys[k]);
    assert keys[k] in keys;
  }

  /** The index file of every restaurant of the chunk table is listed, and its
      metadata file is present. */
  lemma BuiltAreListed(rows: seq<ChunkRow>, encode: string -> Vector, dir: Directory, id: string)
    requires id in GroupKeys(rows) && '/' !in id
    ensures IndexFileName(id) in IndexFileList(Built(rows, encode, dir))
    ensures MetaFileName(id) in Built(rows, encode, dir)
  {
    var embeddings := EmbedTexts(ChunkTexts(rows), encode);
    var keys := GroupKeys(rows);
    var out := StoreGroups(dir, rows, embeddings, keys);
    IndexFileListMembers(out);
    GroupKeysSpec(rows);
    StoreGroupsWritesEach(dir, rows, embeddings, keys);
    assert HoldsGroup(out, rows, embeddings, id);
    var n := IndexFileName(id);
    assert '/' !in n by {
      assert forall j :: |id| <= j < |n| ==> n[j] == ".faiss"[j - |id|];
      assert forall j :: 0 <= j < |id| ==> n[j] == id[j];
    }
    assert IsIndexFileName(n);
  }

  /** After the index build into a directory that held no `.faiss` file, for
      restaurant ids that are non-empty and contain no '/', pairing succeeds
      and yields exactly one pair per restaurant of the chunk table. */
  lemma BuiltIndexesPair(rows: seq<ChunkRow>, encode: string -> Vector, dir: Directory)
    requires forall n :: n in dir ==> !EndsWith(n, ".faiss")
    requires forall i :: 0 <= i < |rows| ==> rows[i].businessId != [] && '/' !in rows[i].businessId
    ensures var out := Built(rows, encode, dir);
      && IndexPairs(out).Success?
      && (forall p :: p in IndexPairs(out).value ==> p.businessId in GroupKeys(rows))
      && (forall id :: id in GroupKeys(rows) ==> exists p :: p in IndexPairs(out).value && p.businessId == id)
  {
    var keys := GroupKeys(rows);
    var out := Built(rows, encode, dir);
    var names := IndexFileList(out);
    forall i | 0 <= i < |names| ensures Stem(names[i]) in keys && HasMetadata(out, names[i]) {
      ListedHasMetadata(rows, encode, dir, names[i]);
    }
    forall k | k in keys ensures exists i :: 0 <= i < |names| && Stem(names[i]) == k {
      KeyIsListed(rows, encode, dir, k);
    }
    PairsCoverKeys(out, names, keys);
  }

  /** A listed index file of the built directory names a restaurant of the
      chunk table and has its metadata file. */
  lemma ListedHasMetadata(rows: seq<ChunkRow>, encode: string -> Vector, dir: Directory, n: string)
    requires forall m :: m in dir ==> !EndsWith(m, ".faiss")
    requires forall i :: 0 <= i < |rows| ==> rows[i].businessId != [] && '/' !in rows[i].businessId
    requires n in IndexFileList(Built(rows, encode, dir))
    ensures Stem(n) in GroupKeys(rows) && HasMetadata(Built(rows, encode, dir), n)
  {
    var keys := GroupKeys(rows);
    GroupKeysSpec(rows);
    ListedAreBuilt(rows, encode, dir, n);
    var k :| k in keys && n == IndexFileName(k);
    assert k != [] && '/' !in k;
    StemOfIndexFileName(k);
    BuiltAreListed(rows, encode, dir, k);
  }

  /** Every restaurant of the chunk table is the stem of a listed name. */
  lemma KeyIsListed(rows: seq<ChunkRow>, encode: string -> Vector, dir: Directory, k: string)
    requires forall i :: 0 <= i < |rows| ==> rows[i].businessId != [] && '/' !in rows[i].businessId
    requires k in GroupKeys(rows)
    ensures var names := IndexFileList(Built(rows, encode, dir));
      exists i :: 0 <= i < |names| && Stem(names[i]) == k
  {
    GroupKeysSpec(rows);
    assert k != [] && '/' !in k;
    BuiltAreListed(rows, encode, dir, k);
    var names := IndexFileList(Built(rows, encode, dir));
    var i :| 0 <= i < |names| && names[i] == IndexFileName(k);
    StemOfIndexFileName(k);
  }

  /** When every listed name has its metadata and its stem among `keys`, and
      every key is the stem of a listed name, pairing succeeds with one pair
      per key. */
  lemma PairsCoverKeys(dir: Directory, names: seq<string>, keys: seq<string>)
    requires forall i :: 0 <= i < |names| ==> Stem(names[i]) in keys && HasMetadata(dir, names[i])
    requires forall k :: k in keys ==> exists i :: 0 <= i < |names| && Stem(names[i]) == k
    ensures var r := PairsFrom(dir, [], names);
      && r.Success?
      && (forall p :: p in r.value ==> p.businessId in keys)
      && (forall id :: id in keys ==> exists p :: p in r.value && p.businessId == id)
  {
    PairsFromSucceeds(dir, [], names);
    PairsFromValues(dir, [], names);
    PairsForAllIndex(names);
    var ps := PairsFrom(dir, [], names).value;
    assert ps == PairsForAll(names) by {
      assert [] + PairsForAll(names) == PairsForAll(names);
    }
    forall p | p in ps ensures p.businessId in keys {
      var i :| 0 <= i < |ps| && ps[i] == p;
    }
    forall id | id in keys ensures exists p :: p in ps && p.businessId == id {
      var i :| 0 <= i < |names| && Stem(names[i]) == id;
      assert ps[i] in ps;
    }
  }

  /* ---------------------------------------------------------------------
     convert_similarity_arrays_to_df
     --------------------------------------------------------------------- */

  /** One search result: a similarity score and a row position in the
      restaurant's metadata table (FAISS pads short results with -1). */
  datatype Hit = Hit(score: int, position: int)

  /** One row of the ranked table: the hit, then the six metadata columns. */
  datatype Ranked = Ranked(
    score: int, position: int, chunkId: string, businessId: string,
    restaurantName: string, stars: int, reviewId: string, chunk: string)

  function ScoreOf(r: Ranked): int { r.score }

  function ReviewOf(r: Ranked): string { r.reviewId }

  /** `iloc` accepts a position counted from the end when it is negative. */
  predicate InRange(h: Hit, n: nat) {
    -(n as int) <= h.position < n
  }

  function Resolve(h: Hit, n: nat): (k: nat)
    requires InRange(h, n)
    ensures k < n
  {
    if h.position < 0 then h.position + n else h.position
  }

  function JoinRow(h: Hit, m: ChunkRow): Ranked {
    Ranked(h.score, h.position, m.chunkId, m.businessId, m.restaurantName, m.stars, m.reviewId, m.chunk)
  }

  /** The hits with their metadata rows attached; a position outside the table
      raises IndexError. */
  function JoinHits(hits: seq<Hit>, meta: seq<ChunkRow>): Result<seq<Ranked>>
    decreases |hits|
  {
    if hits == [] then Success([])
    else if !InRange(hits[0], |meta|) then Failure(IndexError(hits[0].position))
    else match JoinHits(hits[1..], meta)
      case Failure(e) => Failure(e)
      case Success(rest) => Success([JoinRow(hits[0], meta[Resolve(hits[0], |meta|)])] + rest)
  }

  /** Sort by score, highest first, then keep MAX_CHUNKS_PER_REVIEW rows per review. */
  function ConvertSimilarity(hits: seq<Hit>, meta: seq<ChunkRow>): Result<seq<Ranked>> {
    match JoinHits(hits, meta)
    case Failure(e) => Failure(e)
    case Success(joined) => Success(HeadPerKey(SortByScoreDesc(joined, ScoreOf), ReviewOf, MAX_CHUNKS_PER_REVIEW))
  }

  /** The join succeeds exactly when every position is inside the table; row i
      is then hit i with the metadata row it points at, and otherwise the
      error names the first position outside. */
  lemma {:induction false} JoinHitsSpec(hits: seq<Hit>, meta: seq<ChunkRow>)
    ensures JoinHits(hits, meta).Success? <==> forall i :: 0 <= i < |hits| ==> InRange(hits[i], |meta|)
    ensures JoinHits(hits, meta).Success? ==>
      |JoinHits(hits, meta).value| == |hits| &&
      forall i :: 0 <= i < |hits| ==> JoinHits(hits, meta).value[i] == JoinRow(hits[i], meta[Resolve(hits[i], |meta|)])
    ensures JoinHits(hits, meta).Failure? ==>
      exists i :: 0 <= i < |hits| && !InRange(hits[i], |meta|) && (forall j :: 0 <= j < i ==> InRange(hits[j], |meta|)) &&
        JoinHits(hits, meta).error == IndexError(hits[i].position)
    decreases |hits|
  {
    if hits != [] {
      var rest := hits[1..];
      JoinHitsSpec(rest, meta);
      assert forall i :: 0 <= i < |rest| ==> rest[i] == hits[i + 1];
      if InRange(hits[0], |meta|) && JoinHits(rest, meta).Failure? {
        var k :| 0 <= k < |rest| && !InRange(rest[k], |meta|) && (forall j :: 0 <= j < k ==> InRange(rest[j], |meta|)) &&
          JoinHits(rest, meta).error == IndexError(rest[k].position);
        assert forall j :: 0 <= j < k + 1 ==> InRange(hits[j], |meta|) by {
          assert forall j :: 1 <= j < k + 1 ==> hits[j] == rest[j - 1];
        }
      }
    }
  }

  /** Every row of `r` carries the highest score among the rows of `joined`
      with the same review id. */
  predicate BestPerReview(r: seq<Ranked>, joined: seq<Ranked>) {
    forall x, y :: x in r && y in joined && y.reviewId == x.reviewId ==> x.score >= y.score
  }

  /** The ranked table is in descending score order, holds one row per review
      id, keeps every review id of the joined hits, keeps only joined rows,
      and the row it keeps for a review is that review's best-scoring hit. */
  lemma ConvertSimilaritySpec(hits: seq<Hit>, meta: seq<ChunkRow>)
    ensures ConvertSimilarity(hits, meta).Success? <==> JoinHits(hits, meta).Success?
    ensures ConvertSimilarity(hits, meta).Failure? ==> ConvertSimilarity(hits, meta) == JoinHits(hits, meta)
    ensures ConvertSimilarity(hits, meta).Success? ==>
      var joined := JoinHits(hits, meta).value;
      var r := ConvertSimilarity(hits, meta).value;
      && ScoresNonIncreasing(r, ScoreOf)
      && KeysDistinct(r, ReviewOf)
      && (forall x :: x in r ==> x in joined)
      && (forall k :: HasKey(r, ReviewOf, k) <==> HasKey(joined, ReviewOf, k))
      && BestPerReview(r, joined)
  {
    if JoinHits(hits, meta).Success? {
      var joined := JoinHits(hits, meta).value;
      var sorted := SortByScoreDesc(joined, ScoreOf);
      var r := ConvertSimilarity(hits, meta).value;
      HeadOneIsDistinctBy(sorted, ReviewOf);
      assert r == DistinctBy(sorted, ReviewOf);
      DistinctByIsSubseq(sorted, ReviewOf);
      SubseqScoresNonIncreasing(r, sorted, ScoreOf);
      DistinctByKeysDistinct(sorted, ReviewOf);
      DistinctByKeepsKeys(sorted, ReviewOf);
      SortedKeepsKeys(joined, sorted);
      DistinctByKeepsBest(sorted, ReviewOf, ScoreOf);
      forall x | x in r ensures x in joined {
        assert x in multiset(sorted);
      }
      forall x, y | x in r && y in joined && y.reviewId == x.reviewId ensures x.score >= y.score {
        assert y in multiset(joined);
        assert y in sorted;
      }
    }
  }

  lemma SortedKeepsKeys(joined: seq<Ranked>, sorted: seq<Ranked>)
    requires multiset(sorted) == multiset(joined)
    ensures forall k :: HasKey(sorted, ReviewOf, k) <==> HasKey(joined, ReviewOf, k)
  {
    forall k ensures HasKey(sorted, ReviewOf, k) <==> HasKey(joined, ReviewOf, k) {
      if HasKey(sorted, ReviewOf, k) {
        var i :| 0 <= i < |sorted| && ReviewOf(sorted[i]) == k;
        assert sorted[i] in multiset(joined);
        var j :| 0 <= j < |joined| && joined[j] == sorted[i];
      }
      if HasKey(joined, ReviewOf, k) {
        var i :| 0 <= i < |joined| && ReviewOf(joined[i]) == k;
        assert joined[i] in multiset(sorted);
        var j :| 0 <= j < |sorted| && sorted[j] == joined[i];
      }
    }
  }

  /** FAISS pads a result shorter than k with position -1, which `iloc` reads
      as the last metadata row. Such a padded row never reaches the ranked
      table as long as a real hit on the last row outscores every padding hit. */
  lemma PaddingNeverKept(hits: seq<Hit>, meta: seq<ChunkRow>, j: nat)
    requires meta != [] && j < |hits| && hits[j].position == |meta| - 1
    requires forall i :: 0 <= i < |hits| && hits[i].position == -1 ==> hits[i].score < hits[j].score
    ensures ConvertSimilarity(hits, meta).Success? ==>
      forall x :: x in ConvertSimilarity(hits, meta).value ==> x.position != -1
  {
    ConvertSimilaritySpec(hits, meta);
    if ConvertSimilarity(hits, meta).Success? {
      var joined := JoinHits(hits, meta).value;
      var r := ConvertSimilarity(hits, meta).value;
      JoinHitsSpec(hits, meta);
      assert joined[j] in joined;
      forall x | x in r ensures x.position != -1 {
        assert x in joined;
        var i :| 0 <= i < |joined| && joined[i] == x;
        PaddedRowLoses(hits, meta, joined, i, j);
      }
    }
  }

  lemma PaddedRowLoses(hits: seq<Hit>, meta: seq<ChunkRow>, joined: seq<Ranked>, i: nat, j: nat)
    requires meta != [] && i < |hits| && j < |hits| && hits[j].position == |meta| - 1
    requires forall i :: 0 <= i < |hits| && hits[i].position == -1 ==> hits[i].score < hits[j].score
    requires |joined| == |hits|
    requires forall i :: 0 <= i < |hits| ==> InRange(hits[i], |meta|)
    requires forall i :: 0 <= i < |hits| ==> joined[i] == JoinRow(hits[i], meta[Resolve(hits[i], |meta|)])
    ensures joined[i].position == -1 ==> joined[i].reviewId == joined[j].reviewId && joined[i].score < joined[j].score
  {
  }

  /* ---------------------------------------------------------------------
     retrieve_topic_relevant_text
     --------------------------------------------------------------------- */

  /** A row of the combined table: the topic inserted in front of a ranked row. */
  datatype TopicRow = TopicRow(topic: string, row: Ranked)

  /** The `empties` dictionary: restaurant id to topic name. */
  type Empties = Dict<string>

  /** What the loop has collected so far. */
  datatype Retrieved = Retrieved(rows: seq<TopicRow>, empties: Empties)

  /** The vector search: metric, stored vectors, query vector and k give the hits. */
  type Search = (MetricKind, seq<Vector>, Vector, nat) -> seq<Hit>

  /** `df.insert(0, "topic", topic)`. */
  function Tag(topic: string, df: seq<Ranked>): (t: seq<TopicRow>)
    ensures |t| == |df|
  {
    seq(|df|, i requires 0 <= i < |df| => TopicRow(topic, df[i]))
  }

  /** `iloc[:n]`. */
  function Take<T>(s: seq<T>, n: nat): seq<T> {
    if |s| <= n then s else s[..n]
  }

  /** The block one (restaurant, topic) search contributes. */
  function Block(topic: string, df: seq<Ranked>): seq<TopicRow> {
    Take(Tag(topic, df), MAX_CHUNKS_PER_TOPIC)
  }

  /** One round of the inner loop for restaurant `id`. */
  function TopicStep(acc: Retrieved, id: string, index: StoredFile, meta: seq<ChunkRow>, t: Topic,
                     encode: string -> Vector, search: Search): Result<Retrieved>
    requires index.IndexFile?
  {
    match ConvertSimilarity(search(index.metric, index.vectors, encode(t.keywords), TOP_K_PER_TOPIC), meta)
    case Failure(e) => Failure(e)
    case Success(df) =>
      Success(Retrieved(acc.rows + Block(t.name, df),
                        if df == [] then DictUpdate(acc.empties, id, t.name) else acc.empties))
  }

  /** The inner loop from `acc` over the topics still to visit. */
  function TopicsFrom(acc: Retrieved, id: string, index: StoredFile, meta: seq<ChunkRow>, topics: seq<Topic>,
                      encode: string -> Vector, search: Search): Result<Retrieved>
    requires index.IndexFile?
    decreases |topics|
  {
    if topics == [] then Success(acc)
    else match TopicStep(acc, id, index, meta, topics[0], encode, search)
      case Failure(e) => Failure(e)
      case Success(next) => TopicsFrom(next, id, index, meta, topics[1..], encode, search)
  }

  /** `faiss.read_index`: the file must exist and hold an index. */
  function ReadIndex(dir: Directory, name: string): (r: Result<StoredFile>)
    ensures r.Success? <==> name in dir && dir[name].IndexFile?
    ensures r.Success? ==> r.value == dir[name]
    ensures r.Failure? ==> r.error == ReadError(name)
  {
    if name in dir && dir[name].IndexFile? then Success(dir[name]) else Failure(ReadError(name))
  }

  /** `pd.read_parquet`: the file must exist and hold a table. */
  function ReadMetadata(dir: Directory, name: string): (r: Result<seq<ChunkRow>>)
    ensures r.Success? <==> name in dir && dir[name].MetadataFile?
    ensures r.Success? ==> r.value == dir[name].rows
    ensures r.Failure? ==> r.error == ReadError(name)
  {
    if name in dir && dir[name].MetadataFile? then Success(dir[name].rows) else Failure(ReadError(name))
  }

  /** The outer loop from `acc` over the pairs still to visit. */
  function PairsRetrieved(acc: Retrieved, dir: Directory, pairs: seq<IndexPair>,
                          encode: string -> Vector, search: Search): Result<Retrieved>
    decreases |pairs|
  {
    if pairs == [] then Success(acc)
    else match ReadIndex(dir, pairs[0].indexFile)
      case Failure(e) => Failure(e)
      case Success(index) =>
        match ReadMetadata(dir, pairs[0].metadataFile)
        case Failure(e) => Failure(e)
        case Success(meta) =>
          match TopicsFrom(acc, pairs[0].businessId, index, meta, TOPICS, encode, search)
          case Failure(e) => Failure(e)
          case Success(next) => PairsRetrieved(next, dir, pairs[1..], encode, search)
  }

  function RetrieveAll(dir: Directory, encode: string -> Vector, search: Search): Result<Retrieved> {
    match IndexPairs(dir)
    case Failure(e) => Failure(e)
    case Success(pairs) => PairsRetrieved(Retrieved([], []), dir, pairs, encode, search)
  }

  /** retrieve_topic_relevant_text up to the report and the write of the table. */
  method RetrieveTopicRelevantText(dir: Directory, encode: string -> Vector, search: Search)
    returns (r: Result<Retrieved>)
    ensures r == RetrieveAll(dir, encode, search)
  {
    var paired := GetIndexFilesWithMetadata(dir);
    if paired.Failure? {
      return Failure(paired.error);
    }
    var pairs := paired.value;
    var acc := Retrieved([], []);
    for p := 0 to |pairs|
      invariant PairsRetrieved(acc, dir, pairs[p..], encode, search) == RetrieveAll(dir, encode, search)
    {
      PairsRetrievedStep(acc, dir, pairs, p, encode, search);
      var file := pairs[p];
      var index := ReadIndex(dir, file.indexFile);
      if index.Failure? {
        return Failure(index.error);
      }
      var meta := ReadMetadata(dir, file.metadataFile);
      if meta.Failure? {
        return Failure(meta.error);
      }
      ghost var start := acc;
      for t := 0 to |TOPICS|
        invariant TopicsFrom(acc, file.businessId, index.value, meta.value, TOPICS[t..], encode, search)
               == TopicsFrom(start, file.businessId, index.value, meta.value, TOPICS, encode, search)
      {
        TopicsFromStep(acc, file.businessId, index.value, meta.value, TOPICS, t, encode, search);
        var topic := TOPICS[t];
        var hits := search(index.value.metric, index.value.vectors, encode(topic.keywords), TOP_K_PER_TOPIC);
        var df := ConvertSimilarity(hits, meta.value);
        if df.Failure? {
          return Failure(df.error);
        }
        var empties := acc.empties;
        if df.value == [] {
          empties := DictUpdate(empties, file.businessId, topic.name);
        }
        acc := Retrieved(acc.rows + Block(topic.name, df.value), empties);
      }
    }
    return Success(acc);
  }

  /** One step of the outer loop at position `p` of the pairs. */
  lemma PairsRetrievedStep(acc: Retrieved, dir: Directory, pairs: seq<IndexPair>, p: int,
                           encode: string -> Vector, search: Search)
    requires 0 <= p < |pairs|
    ensures var pair := pairs[p];
      var index := ReadIndex(dir, pair.indexFile);
      var meta := ReadMetadata(dir, pair.metadataFile);
      PairsRetrieved(acc, dir, pairs[p..], encode, search) ==
        if index.Failure? then Failure(index.error)
        else if meta.Failure? then Failure(meta.error)
        else
          var next := TopicsFrom(acc, pair.businessId, index.value, meta.value, TOPICS, encode, search);
          if next.Failure? then Failure(next.error) else PairsRetrieved(next.value, dir, pairs[p + 1..], encode, search)
  {
    assert pairs[p..][0] == pairs[p] && pairs[p..][1..] == pairs[p + 1..];
  }

  /** One step of the inner loop at position `t` of the topics. */
  lemma TopicsFromStep(acc: Retrieved, id: string, index: StoredFile, meta: seq<ChunkRow>, topics: seq<Topic>, t: int,
                       encode: string -> Vector, search: Search)
    requires index.IndexFile? && 0 <= t < |topics|
    ensures var step := TopicStep(acc, id, index, meta, topics[t], encode, search);
      TopicsFrom(acc, id, index, meta, topics[t..], encode, search) ==
        if step.Failure? then Failure(step.error) else TopicsFrom(step.value, id, index, meta, topics[t + 1..], encode, search)
  {
    assert topics[t..][0] == topics[t] && topics[t..][1..] == topics[t + 1..];
  }

  /** One inner round appends at most MAX_CHUNKS_PER_TOPIC rows, all tagged
      with the round's topic and in ranked order, and records the restaurant
      under that topic exactly when its ranked table is empty; every other
      entry of `empties` is left as it was. */
  lemma TopicStepSpec(acc: Retrieved, id: string, index: StoredFile, meta: seq<ChunkRow>, t: Topic,
                      encode: string -> Vector, search: Search)
    requires index.IndexFile?
    ensures var r := TopicStep(acc, id, index, meta, t, encode, search);
      r.Success? ==>
        var df := ConvertSimilarity(search(index.metric, index.vectors, encode(t.keywords), TOP_K_PER_TOPIC), meta).value;
        var added := r.value.rows[|acc.rows|..];
        && |acc.rows| <= |r.value.rows| && r.value.rows[..|acc.rows|] == acc.rows
        && |added| == Min(|df|, MAX_CHUNKS_PER_TOPIC)
        && (forall i :: 0 <= i < |added| ==> added[i] == TopicRow(t.name, df[i]))
        && (df == [] ==> Lookup(r.value.empties, id) == Some(t.name))
        && (forall k :: k != id ==> Lookup(r.value.empties, k) == Lookup(acc.empties, k))
        && (df != [] ==> r.value.empties == acc.empties)
  {
    DictUpdateSpec(acc.empties, id, t.name);
  }

  /** Every row of a block carries the block's topic. */
  lemma BlockTags(topic: string, df: seq<Ranked>)
    ensures forall x :: x in Block(topic, df) ==> x.topic == topic
  {
    var tagged := Tag(topic, df);
    forall x | x in Block(topic, df) ensures x.topic == topic {
      assert x in tagged;
    }
  }

  /** A run of the inner loop only appends: the rows collected before it are
      a prefix of the rows after it, and each topic adds at most
      MAX_CHUNKS_PER_TOPIC rows. */
  lemma {:induction false} TopicsFromGrows(acc: Retrieved, id: string, index: StoredFile, meta: seq<ChunkRow>, topics: seq<Topic>,
                                           encode: string -> Vector, search: Search)
    requires index.IndexFile?
    ensures var r := TopicsFrom(acc, id, index, meta, topics, encode, search);
      r.Success? ==>
        && |acc.rows| <= |r.value.rows| <= |acc.rows| + |topics| * MAX_CHUNKS_PER_TOPIC
        && r.value.rows[..|acc.rows|] == acc.rows
    decreases |topics|
  {
    if topics != [] {
      TopicStepSpec(acc, id, index, meta, topics[0], encode, search);
      var step := TopicStep(acc, id, index, meta, topics[0], encode, search);
      if step.Success? {
        var next := step.value;
        TopicsFromGrows(next, id, index, meta, topics[1..], encode, search);
        var r := TopicsFrom(next, id, index, meta, topics[1..], encode, search);
        if r.Success? {
          assert r.value.rows[..|acc.rows|] == r.value.rows[..|next.rows|][..|acc.rows|];
        }
      }
    }
  }

  /** Every row the inner loop adds is tagged with one of its topics. */
  lemma {:induction false} TopicsFromTags(acc: Retrieved, id: string, index: StoredFile, meta: seq<ChunkRow>, topics: seq<Topic>,
                                          encode: string -> Vector, search: Search)
    requires index.IndexFile?
    ensures var r := TopicsFrom(acc, id, index, meta, topics, encode, search);
      r.Success? ==> forall x :: x in r.value.rows ==> x in acc.rows || exists t :: t in topics && x.topic == t.name
    decreases |topics|
  {
    if topics != [] {
      var t := topics[0];
      var step := TopicStep(acc, id, index, meta, t, encode, search);
      if step.Success? {
        var df := ConvertSimilarity(search(index.metric, index.vectors, encode(t.keywords), TOP_K_PER_TOPIC), meta).value;
        var next := step.value;
        assert next.rows == acc.rows + Block(t.name, df);
        BlockTags(t.name, df);
        TopicsFromTags(next, id, index, meta, topics[1..], encode, search);
        assert t in topics;
        assert forall u :: u in topics[1..] ==> u in topics;
      }
    }
  }

  /** The inner loop for `id` leaves every other restaurant's entry alone. */
  lemma {:induction false} TopicsFromOthers(acc: Retrieved, id: string, index: StoredFile, meta: seq<ChunkRow>, topics: seq<Topic>,
                                            encode: string -> Vector, search: Search)
    requires index.IndexFile?
    ensures var r := TopicsFrom(acc, id, index, meta, topics, encode, search);
      r.Success? ==> forall k :: k != id ==> Lookup(r.value.empties, k) == Lookup(acc.empties, k)
    decreases |topics|
  {
    if topics != [] {
      TopicStepSpec(acc, id, index, meta, topics[0], encode, search);
      var step := TopicStep(acc, id, index, meta, topics[0], encode, search);
      if step.Success? {
        TopicsFromOthers(step.value, id, index, meta, topics[1..], encode, search);
      }
    }
  }

  /** A run of the outer loop only appends too, and a restaurant contributes
      at most |TOPICS| * MAX_CHUNKS_PER_TOPIC rows. */
  lemma {:induction false} PairsRetrievedGrows(acc: Retrieved, dir: Directory, pairs: seq<IndexPair>,
                                               encode: string -> Vector, search: Search)
    ensures var r := PairsRetrieved(acc, dir, pairs, encode, search);
      r.Success? ==>
        && |acc.rows| <= |r.value.rows| <= |acc.rows| + |pairs| * (|TOPICS| * MAX_CHUNKS_PER_TOPIC)
        && r.value.rows[..|acc.rows|] == acc.rows
    decreases |pairs|
  {
    var r := PairsRetrieved(acc, dir, pairs, encode, search);
    if pairs != [] && r.Success? {
      var index := ReadIndex(dir, pairs[0].indexFile).value;
      var meta := ReadMetadata(dir, pairs[0].metadataFile).value;
      var next := TopicsFrom(acc, pairs[0].businessId, index, meta, TOPICS, encode, search).value;
      TopicsFromGrows(acc, pairs[0].businessId, index, meta, TOPICS, encode, search);
      PairsRetrievedGrows(next, dir, pairs[1..], encode, search);
      assert r.value.rows[..|acc.rows|] == r.value.rows[..|next.rows|][..|acc.rows|];
      assert |pairs| * (|TOPICS| * MAX_CHUNKS_PER_TOPIC) == |TOPICS| * MAX_CHUNKS_PER_TOPIC + (|pairs| - 1) * (|TOPICS| * MAX_CHUNKS_PER_TOPIC);
    }
  }

  /** Every row the outer loop adds is tagged with a configured topic. */
  lemma {:induction false} PairsRetrievedTags(acc: Retrieved, dir: Directory, pairs: seq<IndexPair>,
                                              encode: string -> Vector, search: Search)
    ensures var r := PairsRetrieved(acc, dir, pairs, encode, search);
      r.Success? ==> forall x :: x in r.value.rows ==> x in acc.rows || x.topic in TOPIC_ORDER
    decreases |pairs|
  {
    var r := PairsRetrieved(acc, dir, pairs, encode, search);
    if pairs != [] && r.Success? {
      var index := ReadIndex(dir, pairs[0].indexFile).value;
      var meta := ReadMetadata(dir, pairs[0].metadataFile).value;
      var next := TopicsFrom(acc, pairs[0].businessId, index, meta, TOPICS, encode, search).value;
      ConfiguredTopicsAndCaps();
      TopicsFromTags(acc, pairs[0].businessId, index, meta, TOPICS, encode, search);
      PairsRetrievedTags(next, dir, pairs[1..], encode, search);
    }
  }

  /** Every `empties` entry the outer loop records names a configured topic. */
  lemma {:induction false} PairsRetrievedEmpties(acc: Retrieved, dir: Directory, pairs: seq<IndexPair>,
                                                 encode: string -> Vector, search: Search)
    requires forall k :: Lookup(acc.empties, k).Some? ==> Lookup(acc.empties, k).value in TOPIC_ORDER
    ensures var r := PairsRetrieved(acc, dir, pairs, encode, search);
      r.Success? ==> forall k :: Lookup(r.value.empties, k).Some? ==> Lookup(r.value.empties, k).value in TOPIC_ORDER
    decreases |pairs|
  {
    var r := PairsRetrieved(acc, dir, pairs, encode, search);
    if pairs != [] && r.Success? {
      var index := ReadIndex(dir, pairs[0].indexFile).value;
      var meta := ReadMetadata(dir, pairs[0].metadataFile).value;
      var next := TopicsFrom(acc, pairs[0].businessId, index, meta, TOPICS, encode, search).value;
      ConfiguredTopicsAndCaps();
      TopicsFromEmpties(acc, pairs[0].businessId, index, meta, TOPICS, encode, search);
      PairsRetrievedEmpties(next, dir, pairs[1..], encode, search);
    }
  }

  /** The inner loop only records topic names of its own topics. */
  lemma {:induction false} TopicsFromEmpties(acc: Retrieved, id: string, index: StoredFile, meta: seq<ChunkRow>, topics: seq<Topic>,
                                             encode: string -> Vector, search: Search)
    requires index.IndexFile?
    ensures var r := TopicsFrom(acc, id, index, meta, topics, encode, search);
      r.Success? ==> forall k :: Lookup(r.value.empties, k).Some? ==>
        Lookup(r.value.empties, k) == Lookup(acc.empties, k) || exists t :: t in topics && Lookup(r.value.empties, k).value == t.name
    decreases |topics|
  {
    if topics != [] {
      TopicStepSpec(acc, id, index, meta, topics[0], encode, search);
      var step := TopicStep(acc, id, index, meta, topics[0], encode, search);
      if step.Success? {
        TopicsFromEmpties(step.value, id, index, meta, topics[1..], encode, search);
        assert topics[0] in topics;
        assert forall t :: t in topics[1..] ==> t in topics;
      }
    }
  }

  /** The whole retrieval: every row of the combined table is tagged with a
      configured topic, there are at most |TOPICS| * MAX_CHUNKS_PER_TOPIC rows
      per listed restaurant, and every `empties` entry names a configured topic. */
  lemma RetrieveAllSpec(dir: Directory, encode: string -> Vector, search: Search)
    ensures var r := RetrieveAll(dir, encode, search);
      r.Success? ==>
        && IndexPairs(dir).Success?
        && |r.value.rows| <= |IndexPairs(dir).value| * (|TOPICS| * MAX_CHUNKS_PER_TOPIC)
        && (forall x :: x in r.value.rows ==> x.topic in TOPIC_ORDER)
        && (forall k :: Lookup(r.value.empties, k).Some? ==> Lookup(r.value.empties, k).value in TOPIC_ORDER)
  {
    if IndexPairs(dir).Success? {
      var start := Retrieved([], []);
      PairsRetrievedGrows(start, dir, IndexPairs(dir).value, encode, search);
      PairsRetrievedTags(start, dir, IndexPairs(dir).value, encode, search);
      PairsRetrievedEmpties(start, dir, IndexPairs(dir).value, encode, search);
    }
  }

  /* ---------------------------------------------------------------------
     The report of empty results
     --------------------------------------------------------------------- */

  const TOO_MANY_VALUES: string := "too many values to unpack (expected 2)"

  function UnpackError(n: nat): string {
    if n > 2 then TOO_MANY_VALUES
    else "not enough values to unpack (expected 2, got " + NatToString(n) + ")"
  }

  /** The report loop as written: iterating a dictionary yields its keys, and
      `k, v` unpacks each key string into its characters, which only succeeds
      for a two-character key. */
  function ReportAsWritten(empties: Empties): Result<seq<string>>
    decreases |empties|
  {
    if empties == [] then Success([])
    else
      var k := empties[0].0;
      if |k| != 2 then Failure(ValueError(UnpackError(|k|)))
      else match ReportAsWritten(empties[1..])
        case Failure(e) => Failure(e)
        case Success(lines) => Success([ReportLine([k[0]], [k[1]])] + lines)
  }

  function ReportLine(id: string, topic: string): string {
    "business id = " + id + ", topic = " + topic
  }

  /** The report as intended: one line per entry, naming its id and topic. */
  function Report(empties: Empties): seq<string> {
    seq(|empties|, i requires 0 <= i < |empties| => ReportLine(empties[i].0, empties[i].1))
  }

  /** The table that reaches `to_parquet` after the report as written: the
      exception leaves the loop before the write. */
  function PublishedAsWritten(r: Retrieved): Result<seq<TopicRow>> {
    match ReportAsWritten(r.empties)
    case Failure(e) => Failure(e)
    case Success(_) => Success(r.rows)
  }

  /** The report as written succeeds exactly when every key has two characters,
      so any empty result for a real restaurant id stops the run before its
      table is written. */
  lemma {:induction false} ReportAsWrittenFails(empties: Empties)
    ensures ReportAsWritten(empties).Success? <==> forall i :: 0 <= i < |empties| ==> |empties[i].0| == 2
    decreases |empties|
  {
    if empties != [] {
      ReportAsWrittenFails(empties[1..]);
      assert forall i :: 1 <= i < |empties| ==> empties[i] == empties[1..][i - 1];
    }
  }

  /** An empty result for a restaurant whose id is longer than two characters
      makes the report raise before the table is written, while the intended
      report prints the entry. */
  lemma EmptyResultStopsPublication(id: string, topic: string, rows: seq<TopicRow>)
    requires |id| > 2
    ensures PublishedAsWritten(Retrieved(rows, [(id, topic)])) == Failure(ValueError(TOO_MANY_VALUES))
    ensures Report([(id, topic)]) == [ReportLine(id, topic)]
  {
  }

  /** Yelp business ids have 22 characters, e.g. XQfwVwDr-v0ZS3_CbbE5Xw. */
  lemma YelpIdStopsPublication()
    ensures PublishedAsWritten(Retrieved([], [("XQfwVwDr-v0ZS3_CbbE5Xw", "food")])).Failure?
  {
    EmptyResultStopsPublication("XQfwVwDr-v0ZS3_CbbE5Xw", "food", []);
  }

  /** The intended report never fails and prints every entry in insertion order,
      so the table reaches the write whatever `empties` holds. */
  lemma ReportNamesEveryEntry(empties: Empties)
    ensures |Report(empties)| == |empties|
    ensures forall i :: 0 <= i < |empties| ==>
      StartsWith(Report(empties)[i], "business id = " + empties[i].0) &&
      EndsWith(Report(empties)[i], ", topic = " + empties[i].1)
  {
    forall i | 0 <= i < |empties|
      ensures StartsWith(Report(empties)[i], "business id = " + empties[i].0)
      ensures EndsWith(Report(empties)[i], ", topic = " + empties[i].1)
    {
      var line := Report(empties)[i];
      var head := "business id = " + empties[i].0;
      var tail := ", topic = " + empties[i].1;
      assert line == head + tail;
      assert line[..|head|] == head;
      assert line[|line| - |tail|..] == tail;
    }
  }
}
