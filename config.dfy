/** The pipeline's configuration: the literal settings, the topic table and
    the naming convention that ties an entity's index file to its metadata
    file. Directory locations depend on where the project is checked out, so
    they are parameters here; paths are '/'-joined strings. */
module Config {
  import opened Strings

  /** The column-name settings are empty strings in the configuration module;
      the model names the columns by field instead. This one is also the
      summarizer's default id column. */
  const COL_RESTAURANT_ID: string := ""

  // Embedding and index settings.
  const EMBED_BATCH_SIZE: nat := 64
  const NORMALIZE_EMBEDDINGS: bool := true
  const INDEX_METRIC: string := "cosine"
  const TOP_K_PER_TOPIC: nat := 25
  const MAX_CHUNKS_PER_TOPIC: nat := 12
  const MAX_CHUNKS_PER_REVIEW: nat := 1

  // Local language-model settings.
  const OLLAMA_MODEL: string := "llama3.1:8b"
  const OLLAMA_BASE_URL: string := "http://localhost:11434"
  const TEMPERATURE: real := 0.2
  const MAX_OUTPUT_TOKENS: nat := 600

  /** One entry of the topic dictionary: a topic name and the keyword text embedded as its query. */
  datatype Topic = Topic(name: string, keywords: string)

  /** The topic dictionary, in its key order. */
  const TOPICS: seq<Topic> := [
    Topic("food", "food taste flavor menu dishes portion fresh spicy presentation"),
    Topic("service", "service staff wait time hostess server rude friendly attentive"),
    Topic("ambiance", "ambiance atmosphere decor music lighting seating noise vibe")
  ]

  /** A set literal: it carries the same names as TOPICS but no order. */
  const TOPIC_ORDER: set<string> := {"food", "service", "ambiance"}

  function TopicNames(topics: seq<Topic>): (names: seq<string>)
    ensures |names| == |topics|
    ensures forall i :: 0 <= i < |topics| ==> names[i] == topics[i].name
  {
    if topics == [] then [] else [topics[0].name] + TopicNames(topics[1..])
  }

  /** The retrieval caps are consistent with the search depth, the topic
      dictionary has exactly the three names of TOPIC_ORDER, in the order
      food, service, ambiance, and no name twice. */
  lemma ConfiguredTopicsAndCaps()
    ensures MAX_CHUNKS_PER_TOPIC <= TOP_K_PER_TOPIC && MAX_CHUNKS_PER_REVIEW == 1
    ensures TopicNames(TOPICS) == ["food", "service", "ambiance"]
    ensures (set t | t in TOPICS :: t.name) == TOPIC_ORDER
    ensures forall i, j :: 0 <= i < j < |TOPICS| ==> TOPICS[i].name != TOPICS[j].name
  {
    assert TOPICS[1..][1..][1..] == [];
    assert TOPICS[0].name == "food" && TOPICS[1].name == "service" && TOPICS[2].name == "ambiance";
  }

  /* ---------------------------------------------------------------------
     File naming: `<id>.faiss` and `<id>_meta.parquet` in the index directory
     --------------------------------------------------------------------- */

  function IndexFileName(id: string): string { id + ".faiss" }

  function MetaFileName(id: string): string { id + "_meta.parquet" }

  /** `Path(dir) / name` for a relative name; an absolute name replaces the directory. */
  function JoinPath(dir: string, name: string): string {
    if StartsWith(name, "/") then name else dir + "/" + name
  }

  /** `index_path(id)`. */
  function IndexPath(indexDir: string, id: string): string {
    JoinPath(indexDir, IndexFileName(id))
  }

  /** `meta_path(id)`. */
  function MetaPath(indexDir: string, id: string): string {
    JoinPath(indexDir, MetaFileName(id))
  }

  /** `PurePath(p).name`: the text after the last '/'. */
  function PathName(p: string): (name: string)
    ensures '/' !in name
    ensures |name| <= |p| && name == p[|p| - |name|..]
  {
    var i := RFind(p, '/');
    assert forall j :: i + 1 <= j < |p| ==> p[j] != '/';
    p[i + 1..]
  }

  /** `PurePath(name).stem`: the name without its last suffix, which starts at
      the last dot. A name without a dot past its first character, or whose
      last character is a dot, has no suffix. */
  function Stem(name: string): (stem: string)
    ensures stem == name || (StartsWith(name, stem) && 0 < |stem| < |name| - 1 && name[|stem|] == '.')
    ensures stem != name ==> forall j :: |stem| < j < |name| ==> name[j] != '.'
    ensures stem == name ==>
      (|name| > 0 && name[|name| - 1] == '.') || forall j :: 0 < j < |name| ==> name[j] != '.'
  {
    var i := RFind(name, '.');
    if 0 < i < |name| - 1 then name[..i] else name
  }

  /** Reading an index path back: its file name's stem is the entity id, and the
      metadata path that retrieval derives from that stem is `meta_path(id)`. */
  lemma {:induction false} IndexPathRoundTrip(indexDir: string, id: string)
    requires id != [] && '/' !in id
    ensures PathName(IndexPath(indexDir, id)) == IndexFileName(id)
    ensures Stem(IndexFileName(id)) == id
    ensures JoinPath(indexDir, MetaFileName(Stem(PathName(IndexPath(indexDir, id))))) == MetaPath(indexDir, id)
  {
    var name := IndexFileName(id);
    assert !StartsWith(name, "/") by {
      assert name[0] == id[0];
      assert id[0] in id;
    }
    var p := IndexPath(indexDir, id);
    assert p == indexDir + "/" + name;
    var slash := RFind(p, '/');
    assert p[|indexDir|] == '/';
    forall j | |indexDir| < j < |p| ensures p[j] != '/' {
      assert p[j] == name[j - |indexDir| - 1];
      if j - |indexDir| - 1 < |id| {
        assert name[j - |indexDir| - 1] == id[j - |indexDir| - 1];
      }
    }
    assert slash == |indexDir|;
    assert p[slash + 1..] == name;
    StemOfIndexFileName(id);
    assert !StartsWith(MetaFileName(id), "/") by {
      assert MetaFileName(id)[0] == id[0];
      assert id[0] in id;
    }
  }

  lemma {:induction false} StemOfIndexFileName(id: string)
    requires id != []
    ensures Stem(IndexFileName(id)) == id
  {
    var name := IndexFileName(id);
    assert name[|id|] == '.';
    forall j | |id| < j < |name| ensures name[j] != '.' {
      assert name[j] == ".faiss"[j - |id|];
    }
    assert RFind(name, '.') == |id|;
    assert name[..|id|] == id;
  }

  /** An empty entity id breaks the convention: `.faiss` has no suffix, so its
      stem is the whole name and the derived metadata name is not `_meta.parquet`. */
  lemma EmptyIdStem()
    ensures Stem(IndexFileName("")) == ".faiss"
    ensures MetaFileName(Stem(IndexFileName(""))) != MetaFileName("")
  {
    var name := IndexFileName("");
    assert name == ".faiss" && name[0] == '.';
    forall j | 0 < j < |name| ensures name[j] != '.' {
      assert name[j] in "faiss";
    }
    assert RFind(name, '.') == 0;
  }
}
