# Yelp review RAG pipeline — a Dafny model

This project models the data path of a retrieval-augmented summariser of Yelp restaurant reviews. It covers these stages:

- **Sampling.** The first lines of the review and business JSON-lines files are read, inner-joined on `business_id`, and rows with nulls are dropped. In-scope restaurants with enough distinct reviews are kept, and a fixed-seed draw chooses among them.
- **Cleaning and chunking.** Review texts are stripped, short ones are dropped, a fixed table of characters is replaced and whitespace is collapsed. Texts are then NFKC-normalised and deduplicated. Each review is split into overlapping character windows, and one row is made per chunk, carrying the review's metadata and a chunk id.
- **Indexing.** The chunk column is embedded once. Per restaurant, a flat FAISS index (inner product for `cosine`, L2 for `l2`) and a metadata table are written as `<id>.faiss` and `<id>_meta.parquet`.
- **Retrieval.** The `.faiss` files are listed and paired with their metadata. Each restaurant's index is searched once per topic. The hits are joined with their metadata rows, ranked by score, and cut to one chunk per review and twelve rows per topic. Empty results are recorded.
- **Summarisation.** The summariser's settings default attribute by attribute. One prompt is made per restaurant and topic from the retrieved excerpts. The model's answer is stored on one line, under the restaurant's name and the topic, and the summaries are turned into a table.
- **Dashboard.** The summary table is loaded: its columns are checked, names are stripped, nameless and duplicate rows are dropped, and the rows are sorted. The random state for the sampler is also chosen here.

Each Python module is one Dafny module: `Config`, `DataIo`, `Cleaning`, `Embeddings`, `Retrieval`, `Summarization` and `App`. `Wrappers`, `Strings` and `Seqs` hold the shared helpers:

- `Wrappers`: `Option`, `Result` and the Python exception kinds.
- `Strings`: whitespace, strip, case, lexicographic order and decimal digits.
- `Seqs`: order-preserving filters, first-of-key deduplication, stable sorts and insertion-ordered dictionaries.

The loops of the source are methods proved against a specification function. The objects whose attributes change are classes: the FAISS flat index and the summariser. Everything else is functions and lemmas.

Several names are used in the source but not defined in `src/config.py`: `CHUNK_CHARS`, `OVERLAP_CHARS`, `MIN_CHUNK_CHARS`, `MIN_REVIEW_CHARS`, `N_IMPORT_ROWS`, `MIN_REVIEWS`, `N_RESTAURANTS`, `PARQUET_ENGINE`, `METADATA_COLS` and `COL_BUSINESS_CATEGORY`. The model makes the sizes, counts and the parquet engine parameters. The metadata columns are the six metadata fields of a chunk row, and the category column is the business record's category field. `DATA_DIR_PROC` is defined, but as a path under the checkout's location, so the model takes it as a parameter too. The column-name settings are empty strings in the configuration, so the model names columns by record field.

## Model

| member | source | states |
|---|---|---|
| Config.TopicNames | src/config.py:45-49 | The topic names, one per topic dictionary entry, in key order. |
| Config.ConfiguredTopicsAndCaps | src/config.py:34-36 | The per-topic cap (12) is at most the search depth (25), and one chunk is kept per review. The three topics are food, service and ambiance, in that order. Their name set equals TOPIC_ORDER, and no name repeats. |
| Config.PathName | src/config.py:38-42 | The file name of a path has no '/' and is a suffix of the path. |
| Config.Stem | src/retrieval.py:35 | The stem is the whole name, or the proper prefix before the name's last '.'. It is the whole name only when the name ends in '.' or has no '.' past its first character. |
| Config.IndexPathRoundTrip | src/config.py:38-42 | For a non-empty id without '/': the file name of `index_path(id)` is `<id>.faiss`, and its stem is the id. The metadata path derived from that stem is `meta_path(id)`. |
| Config.StemOfIndexFileName | src/retrieval.py:35-36 | The stem of `<id>.faiss` is the id, for any non-empty id. |
| Config.EmptyIdStem | src/retrieval.py:35-36 | For an empty id, `.faiss` has no suffix. Its stem is `.faiss`, so the derived metadata name is not the one the builder wrote. |
| DataIo.SampleSize | src/data_io.py:26-28 | The loop reads at most N lines and never more than the file has. It reads none when N ≤ 0, and stops short of N only at the end of the file. |
| DataIo.ImportSampleFromCompleteDataset | src/data_io.py:20-30 | The loop returns `json.loads` of the first SampleSize lines. |
| DataIo.ParseLinesSpec | src/data_io.py:29 | Parsing succeeds exactly when every line parses, and then yields each line's record in order. Otherwise it raises the JSON error. |
| DataIo.ParseLinesFailsAfter | src/data_io.py:29 | Once a line that does not parse is read, every longer prefix fails the same way. |
| DataIo.ImportSampleSpec | src/data_io.py:20-30 | The sample holds exactly min(N, lines) records, taken from the first lines in order. It fails exactly when one of those lines is not JSON. |
| DataIo.MatchesSpec | src/data_io.py:39-45 | One review's joined rows are exactly its pairings with businesses of the same id. |
| DataIo.MergeRowsSpec | src/data_io.py:39-45 | The inner join holds exactly the review and business pairs with equal `business_id`. |
| DataIo.DropNASpec | src/data_io.py:45 | `dropna` keeps exactly the rows with no null field. |
| DataIo.SampleRowsSpec | src/data_io.py:36-45 | A row of the sample is exactly a same-id review and business pair with no nulls. |
| DataIo.NoMatches | src/data_io.py:39-45 | A review whose id no business has contributes no row. |
| DataIo.MergeRowsAtMostOnePerReview | src/data_io.py:39-45 | With unique business ids, the join has at most one row per review. |
| DataIo.MatchesAtMostOne | src/data_io.py:39-45 | With unique business ids, one review matches at most one business. |
| DataIo.EligibleIdsSpec | src/data_io.py:54-63 | An id is eligible exactly when an in-scope row has it and it has more than the threshold of distinct review ids. The eligible ids are strictly ascending. |
| DataIo.SelectedIdsSpec | src/data_io.py:63 | `sample(n)` fails exactly for n < 0 or n above the pool, with pandas' ValueError text. Otherwise it yields n distinct eligible ids. |
| DataIo.DrawSpec | src/data_io.py:63 | A draw without replacement yields n distinct members of the pool. |
| DataIo.DrawnRowsSpec | src/data_io.py:59-65 | The output rows are exactly the in-scope input rows of the drawn restaurants, in input order. |
| DataIo.InScopeIgnoresCase | src/data_io.py:54-57 | The category test gives the same answer on the lower-cased categories. |
| Cleaning.ApplyReplacementsChars | src/cleaning.py:53-54 | After the replacement loop, every character is either an original character that is not a replaced key or a character of some replacement text. |
| Cleaning.ReplacementsTableKeys | src/cleaning.py:44-51 | No replacement text contains a key of the table. |
| Cleaning.ReplacedAreKeys | src/cleaning.py:44-51 | A character counts as replaced exactly when it is a key of the table. |
| Cleaning.NoReplacedCharLeft | src/cleaning.py:53-54 | After the loop, none of the table's keys is left in the text. |
| Cleaning.CleanTextNoKeys | src/cleaning.py:53-56 | A cleaned text holds none of the table's keys. |
| Cleaning.CleanTextSpaces | src/cleaning.py:56 | The only whitespace character of a cleaned text is the plain space. |
| Cleaning.CleanTextIsClean | src/cleaning.py:53-56 | A cleaned text has no key of the table, no leading or trailing whitespace, no two adjacent spaces and no whitespace other than the plain space. |
| Cleaning.StrippedRows | src/cleaning.py:37-41 | The rows kept are exactly the stripped rows whose text is present and long enough, and never more than the input. |
| Cleaning.CleanReviewText | src/cleaning.py:27-59 | The loop returns the stripped, filtered rows with their texts cleaned. |
| Cleaning.CleanedRowsSpec | src/cleaning.py:27-59 | Every output text is clean, and there are at most as many rows as the input. Every output row is a present, long enough input row with only its text cleaned, and every such input row appears. |
| Cleaning.LengthTestPrecedesReplacement | src/cleaning.py:41-54 | A long enough text made only of '+' passes the length test and leaves with an empty text. |
| Cleaning.PlusOnlyCleansToEmpty | src/cleaning.py:46-56 | Cleaning a text made only of '+' gives the empty text. |
| Cleaning.DeduplicateReviewsSpec | src/cleaning.py:70-78 | Output texts are pairwise distinct, and the rows keep their input order. Every text survives, and the row kept for a text is its first. |
| Cleaning.CleanNormalizeDeduplicate | src/cleaning.py:81-90 | No two output rows share a text. Every output row is a present, long enough input row whose text is stripped, cleaned and normalised. Every such input row's final text appears in the output. |
| Cleaning.Normalized | src/cleaning.py:88 | Each row keeps its position and every column but the text. The text becomes the normalised old text. |
| Cleaning.ClampIndex | src/cleaning.py:112-116 | A slice bound lies in [0, n] and is unchanged when already in range. |
| Cleaning.PySlice | src/cleaning.py:112-116 | A Python slice with in-range bounds is the Dafny slice, and it is never longer than stop − start. |
| Cleaning.DivideReviewIntoChunks | src/cleaning.py:94-121 | Corrected behaviour (see "## Findings"): the splitting loop, run to the end of the text, returns Chunks. ChunksComplete characterises that list. |
| Cleaning.FirstChunk | src/cleaning.py:106-113 | A non-empty text that fits gives exactly chunk 0, the whole text. A longer text's first chunk is its first CHUNK_CHARS characters. |
| Cleaning.OffsetIsProduct | src/cleaning.py:119 | Round k's window starts k·(CHUNK − OVERLAP) characters in. |
| Cleaning.RoundInWindow | src/cleaning.py:110-117 | What a round stores is its window of the text. |
| Cleaning.OffsetNonNegative | src/cleaning.py:119 | A window offset is never negative. |
| Cleaning.ChunksFromRounds | src/cleaning.py:104-119 | Every stored chunk is what its own round stores, with its window inside the text. |
| Cleaning.ChunksFromAfterStop | src/cleaning.py:114 | Once the remaining text is too short for a chunk, no later round stores anything. |
| Cleaning.ChunksFromIndices | src/cleaning.py:118 | The chunk indices from round k on run k, k+1, … |
| Cleaning.ChunkIndicesConsecutive | src/cleaning.py:101-121 | The chunk indices are exactly 0, 1, …, n−1, in order. |
| Cleaning.ChunkWindows | src/cleaning.py:110-117 | Chunk k ≥ 1 is the slice [k·step − OVERLAP, (k+1)·step) of the text. Its round starts inside the text and leaves more than MIN_CHUNK characters. No chunk is longer than CHUNK characters. |
| Cleaning.ChunksFromFull | src/cleaning.py:110-117 | From any round on, every chunk but the last has exactly CHUNK characters. |
| Cleaning.NonFinalChunksAreFull | src/cleaning.py:110-117 | When the overlap is at most half a chunk, every chunk but the last has exactly CHUNK characters. |
| Cleaning.OffsetGrows | src/cleaning.py:119 | Each round's window starts at least one character after the previous round's. |
| Cleaning.ChunksFromCount | src/cleaning.py:104-119 | From round k on, there are more than j chunks exactly when round k + j stores one. |
| Cleaning.ChunksComplete | src/cleaning.py:101-121 | For a text longer than one chunk, chunk k exists exactly when round k's window starts inside the text and it is round 0 or leaves more than MIN_CHUNK characters with the overlap. Chunk k is then numbered k and is what round k stores. |
| Cleaning.AsWrittenIsFirstChunk | src/cleaning.py:121 | As written, the function returns None for an empty text, and otherwise only the first entry of the full chunk list. |
| Cleaning.AsWrittenDropsLaterChunks | src/cleaning.py:121 | For a text with a second chunk, the function as written returns one chunk while the loop stores at least two. |
| Cleaning.ChunkIdInjective | src/cleaning.py:136 | `f"{review_id}_{index}"` determines both the review id and the index. |
| Cleaning.LastUnderscore | src/cleaning.py:136 | The last '_' of a chunk id is the one after the review id. |
| Cleaning.ChunkIdParts | src/cleaning.py:136 | A chunk id is the review id, then '_', then the decimal digits of the index. |
| Cleaning.ReviewChunkRows | src/cleaning.py:132-139 | Corrected behaviour (see "## Findings"): one row per chunk, in chunk order. Each row holds its chunk's index, text and length, the review's business id, review id, name, stars and date, and an id made from the review id and the chunk's own index. |
| Cleaning.FirstIndexIdsCollide | src/cleaning.py:136 | Under the first-index rule as written, two chunks of one review share a chunk id. |
| Cleaning.ChunkIdsPerReview | src/cleaning.py:136 | With each chunk's own index, the chunk ids of one review are pairwise distinct. |
| Cleaning.GenerateChunkDf | src/cleaning.py:123-142 | Corrected behaviour (see "## Findings"): the loop returns every review's chunk rows, review by review, over every chunk of each review. |
| Cleaning.ChunkTableMetadata | src/cleaning.py:131-139 | Every row carries the business id, review id, name, stars and date of the review it came from, a chunk of that review, its character count and its own chunk id. |
| Cleaning.ChunkTableComplete | src/cleaning.py:131-140 | Every chunk of every review has its row in the table. |
| Cleaning.ChunkIdsUniqueConcat | src/cleaning.py:140 | Concatenating two tables with unique and disjoint ids keeps the ids unique. |
| Cleaning.OtherReviewsIdsDiffer | src/cleaning.py:136 | Rows of reviews with other review ids never share an id with a given review's rows. |
| Cleaning.ChunkTableIdsUnique | src/cleaning.py:123-142 | With distinct review ids, chunk ids are unique across the whole table. |
| Embeddings.SelectMetric | src/embeddings.py:71-76 | `cosine` selects inner product and `l2` selects L2. Exactly every other name raises ValueError with the source's message. |
| Embeddings.ConfiguredMetricAccepted | src/embeddings.py:99 | The configured metric is accepted and selects the inner-product index. |
| Embeddings.FlatIndex.constructor | src/embeddings.py:72-74 | A new index has the chosen metric and no vectors. |
| Embeddings.FlatIndex.Add | src/embeddings.py:78 | `add` appends the rows after the stored ones, and the count grows by their number. |
| Embeddings.BuildFaissIndex | src/embeddings.py:66-80 | Success exactly for an accepted metric, returning a fresh index of that kind holding exactly the given rows in order. Otherwise it returns the ValueError. |
| Embeddings.EmbedTexts | src/embeddings.py:38-62 | One embedding per text. |
| Embeddings.GroupKeysSpec | src/embeddings.py:94 | The group keys are exactly the restaurant ids of the table, each once, ascending. |
| Embeddings.GroupLabels | src/embeddings.py:94-95 | A group's labels are exactly the positions of the rows with that id, ascending. |
| Embeddings.Select | src/embeddings.py:96-97 | Selecting by labels gives one entry per label. |
| Embeddings.GroupsPartitionRows | src/embeddings.py:94-95 | Every row lies in exactly one group, the one of its own id. |
| Embeddings.GroupAlignment | src/embeddings.py:91-97 | Within a group, vector j is the embedding of metadata row j's chunk, and the group's rows are exactly the table's rows with that id. |
| Embeddings.CreateFaissForReviews | src/embeddings.py:83-102 | The loop writes every group's two files into the directory, in key order. |
| Embeddings.FileNamesDistinct | src/embeddings.py:100-102 | An index file name is never a metadata file name, and each determines its id. |
| Embeddings.StoreGroupsKeepsOthers | src/embeddings.py:94-102 | Files the loop does not name keep their content. |
| Embeddings.StoreGroupsWritesEach | src/embeddings.py:94-102 | With distinct ids, each id's index file holds its group's vectors and its metadata file holds its group's rows. |
| Embeddings.CreatedFilesAligned | src/embeddings.py:83-102 | For every restaurant of the table, both files exist and the index uses inner product. Index vector j embeds metadata row j's chunk. |
| Retrieval.IndexFileListMembers | src/retrieval.py:19-24 | The list holds exactly the directory's `.faiss` names. |
| Retrieval.IndexFileListAscending | src/retrieval.py:24 | The list is strictly ascending. |
| Retrieval.GetIndexFilesWithMetadata | src/retrieval.py:26-47 | The loop returns IndexPairs. |
| Retrieval.PairsFromStep | src/retrieval.py:34-45 | One round of the pairing loop either raises for a missing metadata file or appends the pair. |
| Retrieval.PairsForAllIndex | src/retrieval.py:41-45 | Pair i is the pair of name i. |
| Retrieval.PairsFromSucceeds | src/retrieval.py:38-39 | Pairing succeeds exactly when every listed name has its metadata file. |
| Retrieval.PairsFromValues | src/retrieval.py:34-47 | On success the pairs are one per name, in order. |
| Retrieval.PairsFromFailure | src/retrieval.py:38-39 | On failure, the KeyError names the first name whose metadata is missing. |
| Retrieval.IndexPairsSpec | src/retrieval.py:26-47 | Success iff every listed index has its metadata, with pair i built from listed file i and its stem. Otherwise the KeyError names the first missing id. |
| Retrieval.MetaNameNotIndexName | src/retrieval.py:24-36 | A metadata file name never matches `*.faiss`. |
| Retrieval.ListedAreBuilt | src/retrieval.py:24 | Every listed name of the built directory is the index file of a restaurant of the chunk table. |
| Retrieval.BuiltAreListed | src/retrieval.py:24-36 | Every restaurant's index file is listed, and its metadata file exists. |
| Retrieval.BuiltIndexesPair | src/retrieval.py:26-47 | After the index build, pairing succeeds and yields exactly one pair per restaurant of the chunk table. |
| Retrieval.ListedHasMetadata | src/retrieval.py:35-39 | A listed index of the built directory names a restaurant and has its metadata file. |
| Retrieval.KeyIsListed | src/retrieval.py:24-35 | Every restaurant of the chunk table is the stem of a listed name. |
| Retrieval.PairsCoverKeys | src/retrieval.py:34-47 | The pairs' ids are exactly the given keys. |
| Retrieval.Resolve | src/retrieval.py:95-100 | An in-range `iloc` position, negative ones counted from the end, resolves to a row of the table. |
| Retrieval.JoinHitsSpec | src/retrieval.py:91-101 | The join succeeds exactly when every position is in range. Row i is hit i with its metadata row. Otherwise the IndexError names the first out-of-range position. |
| Retrieval.ConvertSimilaritySpec | src/retrieval.py:73-105 | The ranked table has non-increasing scores and one row per review id. It keeps every review id of the joined hits, holds only joined rows, and each row is its review's best-scoring hit. |
| Retrieval.SortedKeepsKeys | src/retrieval.py:103 | Sorting keeps the set of review ids. |
| Retrieval.PaddingNeverKept | src/retrieval.py:95-104 | A padding hit (position −1) is never kept when a real hit on the last row outscores it. |
| Retrieval.PaddedRowLoses | src/retrieval.py:95-104 | A padded row shares the review id of the last row's real hit and scores lower. |
| Retrieval.Tag | src/retrieval.py:129 | Tagging keeps the row count. |
| Retrieval.ReadIndex | src/retrieval.py:122 | Reading succeeds exactly for an existing index file and returns its content. Otherwise it raises a read error naming the file. |
| Retrieval.ReadMetadata | src/retrieval.py:123 | Reading succeeds exactly for an existing metadata file and returns its rows. Otherwise it raises a read error naming the file. |
| Retrieval.RetrieveTopicRelevantText | src/retrieval.py:108-131 | The nested loops return RetrieveAll. |
| Retrieval.PairsRetrievedStep | src/retrieval.py:119-131 | One outer round reads both files and runs the topic loop. |
| Retrieval.TopicsFromStep | src/retrieval.py:124-131 | One inner round runs the topic step for the next topic. |
| Retrieval.TopicStepSpec | src/retrieval.py:124-131 | A round appends min(\|ranked\|, 12) rows: the first ranked rows, tagged with the topic. It records the restaurant under the topic exactly when the ranked table is empty, and leaves other entries alone. |
| Retrieval.BlockTags | src/retrieval.py:129-130 | Every row of a block carries the block's topic. |
| Retrieval.TopicsFromGrows | src/retrieval.py:124-131 | The topic loop only appends, at most 12 rows per topic. |
| Retrieval.TopicsFromTags | src/retrieval.py:124-131 | Every row the topic loop adds is tagged with one of its topics. |
| Retrieval.TopicsFromOthers | src/retrieval.py:128 | The topic loop for one restaurant leaves the other restaurants' `empties` entries alone. |
| Retrieval.PairsRetrievedGrows | src/retrieval.py:119-131 | The outer loop only appends, at most \|TOPICS\|·12 rows per restaurant. |
| Retrieval.PairsRetrievedTags | src/retrieval.py:119-131 | Every row the outer loop adds is tagged with a configured topic. |
| Retrieval.PairsRetrievedEmpties | src/retrieval.py:117-128 | Every `empties` entry names a configured topic. |
| Retrieval.TopicsFromEmpties | src/retrieval.py:128 | The topic loop records only its own topic names. |
| Retrieval.RetrieveAllSpec | src/retrieval.py:108-131 | On success every row is tagged with a configured topic and there are at most \|TOPICS\|·12 rows per listed restaurant. Every `empties` value is a configured topic. |
| Retrieval.ReportAsWrittenFails | src/retrieval.py:135-138 | The report loop as written succeeds exactly when every key of `empties` has two characters. |
| Retrieval.EmptyResultStopsPublication | src/retrieval.py:135-141 | An empty result for a restaurant id longer than two characters raises before `to_parquet`. The intended report prints the entry. |
| Retrieval.YelpIdStopsPublication | src/retrieval.py:135-141 | A 22-character Yelp id with an empty result stops the write. |
| Retrieval.ReportNamesEveryEntry | src/retrieval.py:135-138 | The intended report has one line per entry, naming its id and topic. |
| Summarization.OrDefaultAs | src/summarization.py:48 | `value if value is not None else default` commutes with wrapping the value as a setting. |
| Summarization.SetAttributes | src/summarization.py:47-49 | Every attribute of the defaults takes its override when that is not None, and its default otherwise. |
| Summarization.Summarizer.constructor | src/summarization.py:8-49 | All seven attributes are set, each to its argument when given and to the configured default otherwise. |
| Summarization.Summarizer.RetrieveRelevantTextSummaries | src/summarization.py:83-140 | Corrected behaviour (see "## Findings"): succeeds exactly when the summary loop does, with the same error. On success it returns the summary table built from SummariesFor, with the names under `restaurant_name`. |
| Summarization.SummarizeRestaurants | src/summarization.py:93-137 | The loop over ids returns SummariesFor. |
| Summarization.SummarizeRestaurant | src/summarization.py:97-135 | The loop over topics returns TopicSummaries. |
| Summarization.AppendExcerpts | src/summarization.py:121-129 | The prompt is the header followed by the rows' excerpts numbered from 0. |
| Summarization.RowIds | src/summarization.py:58 | One id per row. |
| Summarization.RestaurantIdsSpec | src/summarization.py:58 | Each id of the table is listed exactly once, in order of first appearance. |
| Summarization.TopicSummaryList | src/summarization.py:98-135 | One summary per topic. |
| Summarization.TopicSummariesSnoc | src/summarization.py:98-135 | One more topic adds its summary under its name. |
| Summarization.SummariesForFailsAfter | src/summarization.py:94-96 | Once an id has raised, later ids leave the failure as it is. |
| Summarization.ExcerptOfRow | src/summarization.py:122-129 | Row i of a prompt's rows is excerpt number i, between the earlier and later excerpts. |
| Summarization.TopicRowsSpec | src/summarization.py:95-99 | A prompt's rows are exactly the rows of that restaurant and topic, in table order. |
| Summarization.UnwrappedHasNoNewline | src/summarization.py:131-134 | A stored summary has no line break, and each line break became a space. |
| Summarization.UnwrappedPointwise | src/summarization.py:134 | `.replace("\n", " ")` changes exactly the line breaks, one for one. |
| Summarization.TopicSummaryListAt | src/summarization.py:98-135 | Entry i of the list is topic i's summary. |
| Summarization.TopicSummariesSpec | src/summarization.py:98-135 | With distinct topic names, the inner dictionary's keys are the topic names in order, and each holds that topic's summary. |
| Summarization.TopicSummariesHaveNoNewline | src/summarization.py:131-135 | No summary of a restaurant's topic dictionary has a line break. |
| Summarization.SummariesForSucceeds | src/summarization.py:94-96 | The loop completes exactly when every id has rows. Otherwise `iloc[0]` raises IndexError. |
| Summarization.RestaurantNames | src/summarization.py:96 | One name per id. |
| Summarization.RestaurantSummaryList | src/summarization.py:97-135 | One topic dictionary per id. |
| Summarization.RestaurantNamesAt | src/summarization.py:96 | Name k is id k's name. |
| Summarization.RestaurantSummaryListAt | src/summarization.py:94-137 | Dictionary k is the topic dictionary of id k's rows. |
| Summarization.SummariesForIsDictOf | src/summarization.py:93-137 | A completed loop is the dictionary filled id by id with each name's topic dictionary. |
| Summarization.SummariesKeyedByName | src/summarization.py:137 | A name is a key exactly when some id bears it. Under it is the dictionary of the last id with that name. |
| Summarization.SummariesHaveNoNewline | src/summarization.py:131-137 | No stored summary has a line break. |
| Summarization.SummaryTableSpec | src/summarization.py:139 | The table has one row per restaurant. The name column comes first, then the topics. Each row holds its name and, under each topic, that topic's summary or a missing cell. |
| App.StripNames | app.py:129 | Stripping keeps the row count. |
| App.LoadSummariesChecksColumns | app.py:123-126 | The table is refused, with the ValueError, exactly when one of the four expected columns is missing. Otherwise its columns are kept. |
| App.StripNameSpec | app.py:129 | A named row keeps its name, stripped, with no whitespace at either end. |
| App.LoadSummariesNames | app.py:129-131 | Every output row has a trimmed name and is an input row with its name stripped. There are never more rows than were read. |
| App.LoadSummariesDistinctSorted | app.py:130-131 | No two output rows share a name, and they are sorted by name. |
| App.LoadSummariesKeepsFirst | app.py:130 | Of the rows sharing a name, the first is kept, and every name of a named row survives. |
| App.AsWrittenSummaryTableRefused | app.py:123-126 | The table that src/summarization.py:139 writes is always refused, because its name column is `index`. |
| App.SummaryTableLoads | app.py:123-131 | With the names under `restaurant_name`, a non-empty table passes the check, and every restaurant's stripped name is served. |
| App.EffectiveRandomState | app.py:79 | There is no fixed state exactly when Randomize is checked. Otherwise the state is the seed. |

## Left out

- File and network I/O is not modelled: JSON-lines, CSV and parquet reads and writes, `glob`, `mkdir`, FAISS `read_index`/`write_index`, and the HTTP POST to Ollama with `raise_for_status` and its 120-second timeout. Files are values (a directory map, a line sequence). The model's answer is a function parameter `Llm`.
- The embedding model (SentenceTransformer loading, `encode`, batching, float32 conversion) and the FAISS similarity search are parameters (`encode`, `search`). Their numerical behaviour is not modelled.
- Scores are integers and the temperature is a real, so floating-point rounding is not modelled.
- NFKC normalisation (`unicodedata.normalize`) is the parameter `normalize`. Only its place in the pipeline is modelled.
- Random draws: the permutation `sample(n, random_state=5)` produces is the parameter `order`, so the generator itself is not modelled.
- Every `print` and status message is left out, including the per-restaurant progress line, the cleaning counts and the shape reports.
- The Streamlit page (widgets, session state, cache keyed by `mtime_ns`, progress bar, tabs) is left out. Only `load_summaries` after the read and the random-state rule are modelled.
- App.LoadSummariesChecksColumns: the ValueError text is modelled up to its fixed prefix. The printed set of missing names is not.
- Retrieval.ConvertSimilaritySpec: pandas' default sort is not stable. The model sorts stably, so which of two equal-score rows comes first is a model choice.
- Summarization.SummaryTableSpec: the table's topic columns are the topic names, which is the union of the inner keys when topic names are distinct. A topic named like the name column, where `reset_index` would raise, is not modelled.
- The summary lemmas quantify over the prompt text in `Request.instructions`. The summariser passes Summarization.Header.
- The summariser's data directory and parquet engine defaults are constructor parameters. `PARQUET_ENGINE` is not defined in `src/config.py`. `DATA_DIR_PROC` is defined there as a path under the checkout's location, which the model does not compute.
- Cleaning.ReviewChunkRows: follows the corrected chunk id, using each chunk's own index, not `chunk_index.values[0]` as src/cleaning.py:136 writes it. The as-written rows are Cleaning.ReviewChunkRowsAsWritten.
- Cleaning.GenerateChunkDf: follows the corrected chunker and chunk ids, not the code as written at src/cleaning.py:121 and :136. The as-written rows of one review are Cleaning.GenerateReviewRowsAsWritten, which also gives the TypeError that iterating None raises for an empty text.
- Summarization.Summarizer.RetrieveRelevantTextSummaries: returns the corrected table, with the names under `restaurant_name`. As written, src/summarization.py:139 names that column `index`; that table is Summarization.SummaryTableAsWritten.
- Summarization.Excerpt: star ratings are integers throughout the model, and an excerpt renders them as decimal digits. Yelp stars are floats, which Python prints as "5.0" or "4.5", so the excerpt text for stars is not modelled exactly.
- The end-to-end methods that only chain other steps with reads, writes and prints are not modelled as their own members: `clean_chunk_export`, `generate_final_restaurant_list_for_rag`, `summarize_relevant_review_text` and `encode_query_topics`. Each step they chain is modelled.
- Cleaning.DivideReviewIntoChunks: requires CHUNK_CHARS > OVERLAP_CHARS. Without it the intended loop never advances. The function as written returns after one round either way.
- run_pipeline.py, src/directory_build.py and src/emit_util.py are not part of this model.

## Findings

| source | as written | input that shows it | evidently intended | confidence | as-written member | corrected member |
|---|---|---|---|---|---|---|
| src/cleaning.py:121 | The `return` sits inside the `while` body, so only the first round runs. An empty text returns None. | A text longer than CHUNK_CHARS whose second window is long enough, e.g. 600 characters with chunk 280 and overlap 60 | Return after the loop, so every window is kept | not executed | Cleaning.AsWrittenDropsLaterChunks | Cleaning.DivideReviewIntoChunks |
| src/cleaning.py:136 | `chunk_id` uses `chunk_index.values[0]`, the first chunk's index, for every row. This shows only once line 121 is fixed, since as written every review has one chunk | Any review that yields two or more chunks: both rows get `<review_id>_0` | Each row's own `chunk_index` | not executed | Cleaning.FirstIndexIdsCollide | Cleaning.ChunkIdsPerReview |
| src/retrieval.py:137 | `for k,v in empties` iterates the keys and unpacks each id string into two names. `empties` fills only when a search result is empty; a FAISS search with k = 25 always returns 25 hits, padding with −1, which `iloc` reads as the last metadata row, so the defect is latent there | One empty result for id `XQfwVwDr-v0ZS3_CbbE5Xw`: ValueError, and the table is never written | `for k, v in empties.items()` | not executed | Retrieval.YelpIdStopsPublication | Retrieval.ReportNamesEveryEntry |
| src/summarization.py:139 | `transpose().reset_index()` names the restaurant-name column `index`, while app.py:123-126 demands `restaurant_name` | Any stored summary table: `load_summaries` raises "Missing columns" | Name the column `restaurant_name` (e.g. `reset_index(names="restaurant_name")`) | not executed | App.AsWrittenSummaryTableRefused | App.SummaryTableLoads |
