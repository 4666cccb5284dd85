# File-backed vector store, chunking and embedding storage — a Dafny model

This project models the storage core of a course-material assistant. Vectors
live as JSON files under a storage root, with one directory per course and one
`<document_id>.json` file per document. Each course directory carries a
`course_info.json` marker that names the course it belongs to.

The model covers:

- **`FileVectorStore`** (`services/file_vector_store.py`):
  - resolving a course to its directory (marker first seen, or legacy
    `<id>`/`<id>_...` name, in listing order, else a fresh `<id>` directory);
  - display names from the course table, sanitised;
  - `store_vectors`, which generates missing ids, writes the marker only when
    absent and replaces the document file;
  - `search_similar`, which scans, filters by threshold, sorts stably by
    descending score and truncates with Python slice semantics, and returns
    `[]` on any exception;
  - `delete_document`, `delete_course`, `migrate_to_named_folders` and
    `reinitialize`.
- **`IngestionService.simple_chunk`** (`services/ingestion.py`): the sliding
  window with a sentence-boundary cut, the overlap, `strip()` and the removal
  of empty chunks.
- **`EmbeddingService`** (`services/embedding.py`):
  - the vector-size table of `__init__`;
  - the OpenAI batching of `_openai_embed_texts` (batches of 100, with response
    checks);
  - the record assembly and hand-off to the store in `store_embeddings`.
- **`migrate_embeddings`** (`manual_migrate.py`): the database-free copy of
  `<id>` directories to `<id>_<filename>`.

## How the model is organised

Each stateful part of the source is a class whose single field is the state
the source mutates:

- `FileVectorStore.root` is the storage root;
- `DataDirectory.root` is the embeddings directory of the script.

The methods of these classes follow the source statement by statement, loops
included. Each method is proved equal to a specification function on the
state before the call. For example, `Stored`, `DocumentDeleted`,
`CourseDeleted`, `MigratedDir`, `Wiped` and `ManualStep` each return an
`Effect(root, out)`. The lemmas beside those functions state what the source
promises.

The filesystem is values:

- `Root` maps names to a `Directory(items)` or a `PlainFile`.
- A directory maps names to a `File(content)` or a `SubDir`.
- File content is a `Marker(id, name)`, a list of `Records`, or `Unparseable`
  (anything `json.load` rejects or that has the wrong shape).

Outside inputs are parameters:

- `order` is the enumeration order of `os.listdir`;
- `score` is the cosine similarity;
- `db` is the course table and session;
- `isAlnum` is Python's Unicode `str.isalnum`;
- `embed` and `embedTexts` are the embedding calls;
- `uuid` is `uuid4`.

Some behaviours of the code that the model keeps as they are:

- Resolution checks the marker and the legacy name of each directory in
  listing order. An earlier legacy directory therefore beats a later one with a
  matching marker (`EarlierClaimWins`).
- `delete_course` answers `True` whenever the course resolves and the removal
  loop does not raise, whether or not anything was removed.
- `search_similar` returns `[]` for the whole search as soon as one document
  file is malformed, or one vector's shape is incompatible.
- A zero-norm vector gives NaN. NaN fails every threshold, negative ones
  included; the code does not treat it as a score of 0.
- Re-running `migrate_to_named_folders` over a migrated legacy directory
  migrates it again and counts it as migrated again (`MigratedDirRerun`). The
  legacy directory never gets a marker.

## Model

| member | source | states |
|---|---|---|
| Common.Listing | services/file_vector_store.py:55 | a directory listing holds exactly the entries present, each once when the enumeration order repeats no name |
| Common.ListingOrder | services/file_vector_store.py:55 | of two listed names, the one listed first comes first in the enumeration order |
| Common.NatToString | services/file_vector_store.py:88 | `str(i)`: digits only, non-empty |
| Common.BeforeFirst | services/file_vector_store.py:224-226 | `s.split('_')[0]`: a prefix of `s` with no `_`, followed in `s` by `_` unless it is all of `s` |
| Common.ReplaceChar | manual_migrate.py:49 | `str.replace` of one character: same length, every occurrence replaced, nothing else changed, none left |
| Storage.DocFile | services/file_vector_store.py:78-80 | a document's file name is a `*.json` name |
| Naming.Sanitize | services/file_vector_store.py:43-45 | same length; every character is alphanumeric, `-` or `_`; kept characters stay in place, all others become `_` |
| Naming.SanitizeFixedPoint | services/file_vector_store.py:45 | a name is left unchanged exactly when all its characters are kept |
| Naming.SanitizeIdempotent | services/file_vector_store.py:45 | sanitising a sanitised name changes nothing |
| Naming.CourseName | services/file_vector_store.py:32-50 | the sanitised `"{code}_{name}"` of a course found in the table (a `_` right after the code); the id itself without a session, when the course is unknown, or when the query raises |
| Resolution.FirstMatch | services/file_vector_store.py:55-71 | the returned directory claims the course and no directory listed before it does; nothing is returned only when no listed directory claims it |
| Resolution.FirstMatchAt | services/file_vector_store.py:55-71 | the first claiming directory in the listing is the one returned |
| Resolution.Resolve | services/file_vector_store.py:52-76 | an existing result is a directory; a result not yet present is the id itself; it fails only when a plain file sits at the id's name |
| Resolution.AfterResolve | services/file_vector_store.py:73-76 | the fallback directory is created; nothing else changes |
| Resolution.ResolveSpec | services/file_vector_store.py:52-76 | with every entry listed: it fails exactly when nothing claims the course and a plain file is at the id; an existing result claims the course; a new directory is made only when nothing claims it |
| Resolution.EarlierClaimWins | services/file_vector_store.py:55-71 | a claiming directory listed before another one prevents the later one from being returned |
| Ranking.Insert | services/file_vector_store.py:154 | inserting a hit adds exactly one element |
| Ranking.SortDesc | services/file_vector_store.py:154 | the sort keeps the number of hits |
| Ranking.InsertPermutes | services/file_vector_store.py:154 | inserting adds exactly that hit (multiset) |
| Ranking.SortDescPermutes | services/file_vector_store.py:154 | the sorted hits are a permutation of the input |
| Ranking.InsertSorted | services/file_vector_store.py:154 | inserting into a descending list keeps it descending |
| Ranking.SortDescSorted | services/file_vector_store.py:154 | the output is in non-increasing score order |
| Ranking.WithScoreAppend | services/file_vector_store.py:154 | selecting by score distributes over concatenation |
| Ranking.InsertWithScore | services/file_vector_store.py:154 | the inserted hit goes after every hit of equal score |
| Ranking.NoneWithScore | services/file_vector_store.py:154 | hits all scoring below `k` contain none with score `k` |
| Ranking.SortDescStable | services/file_vector_store.py:154 | stability: for every score, the hits with that score keep their input order |
| Ranking.WithScorePrefix | services/file_vector_store.py:156 | truncation keeps, for every score, a prefix of the hits with that score |
| Ranking.Truncate | services/file_vector_store.py:156 | `hits[:limit]`: `min(limit, n)` hits for a non-negative limit, `n + limit` (at least 0) for a negative one, always a prefix |
| Ranking.RankedPage | services/file_vector_store.py:154-156 | the page is descending; for `limit >= 0` it has `min(limit, len(hits))` entries; it is a sub-multiset of the hits; no hit left out scores more than one returned; ties keep scan order |
| Ranking.PageDominates | services/file_vector_store.py:154-156 | cutting a descending list keeps a sub-multiset, and nothing cut off scores more than anything kept |
| Ranking.InsertAt | services/file_vector_store.py:154 | inserting places the hit after the run of hits scoring at least as much |
| Ranking.SortByScore | services/file_vector_store.py:154 | the loop yields the stable descending sort |
| Ranking.InsertionPoint | services/file_vector_store.py:154 | the scan finds the position after every hit scoring at least as much and before the first scoring less |
| StoreSpec.GeneratedIdsDistinct | services/file_vector_store.py:86-88 | `f"{document_id}_{i}"` differs for different indices |
| StoreSpec.FillIds | services/file_vector_store.py:86-88 | every record gets an id; existing ids are kept; a missing one becomes the document id and the index |
| StoreSpec.Ids | services/file_vector_store.py:107 | the returned ids are the records' ids, in order |
| StoreSpec.StoredSpec | services/file_vector_store.py:89-114 | the return is the ids; it raises exactly when a plain file holds the directory's place or a directory holds the document file's; on success the document file holds exactly the records; the first marker is kept; nothing else changes |
| StoreSpec.FillIdsDistinct | services/file_vector_store.py:86-88 | with no ids supplied, the generated ids are pairwise distinct |
| StoreSpec.StoreThenResolve | services/file_vector_store.py:52-114 | after a successful store, resolving the course finds the directory written to, provided it is recognisable and no other directory claims the course |
| StoreSpec.ScanRecordsSpec | services/file_vector_store.py:136-151 | hits are only appended, in record order; each passes the threshold and is produced by a record of the file |
| StoreSpec.ScanFilesSpec | services/file_vector_store.py:132-151 | hits are only appended; every hit passes the threshold and comes from a listed `*.json` document file that is not the marker |
| StoreSpec.PassingSpec | services/file_vector_store.py:143-151 | the passing hits are exactly those of the records whose score reaches the threshold: each such record with both keys gives its hit, and every hit comes from such a record |
| StoreSpec.ScanRecordsPassing | services/file_vector_store.py:143-151 | scanning one file raises exactly when a vector is incompatible or a passing record lacks "id" or "payload"; otherwise it appends exactly the file's passing hits, in record order |
| StoreSpec.ScanFilesPassing | services/file_vector_store.py:132-151 | scanning a directory raises exactly when a listed document file is not a cleanly scannable list of records; otherwise it appends exactly the passing hits of the listed document files, in listing order |
| StoreSpec.FilesPassingComplete | services/file_vector_store.py:132-151 | every passing hit of every listed document file is among the directory's hits |
| StoreSpec.ScanSpec | services/file_vector_store.py:118-151 | the scan of a course raises exactly when resolution does or a listed document file does not scan cleanly; otherwise its hits are exactly the passing hits of the listed document files |
| StoreSpec.SearchContract | services/file_vector_store.py:116-159 | results are descending; for `limit >= 0` there are `min(limit, len(hits))` of them; no hit left out scores more than one returned; each is at or above the threshold and from a document of the resolved directory; ties keep scan order; a scan that raises gives `[]` |
| StoreSpec.SearchSound | services/file_vector_store.py:132-156 | every result is at or above the threshold and comes from a document file of the resolved directory |
| StoreSpec.StoreThenSearch | services/file_vector_store.py:82-159 | after storing a document where resolution finds it, a search that does not raise finds each stored record that passes the threshold, and returns it when the limit covers all hits |
| StoreSpec.ScanRecordsMonotone | services/file_vector_store.py:146 | a higher threshold scans without raising and keeps no more hits |
| StoreSpec.ScanFilesMonotone | services/file_vector_store.py:132-151 | the same over all files of a directory |
| StoreSpec.ThresholdMonotone | services/file_vector_store.py:116-159 | raising the threshold never increases the number of results |
| StoreSpec.DocumentDeleted | services/file_vector_store.py:161-175 | answers true exactly when the document file exists in the resolved directory, which then loses that file only |
| StoreSpec.DeleteDocumentScope | services/file_vector_store.py:161-175 | every other document of every course stays in place |
| StoreSpec.SweepJsonFacts | services/file_vector_store.py:183-186 | the removal loop removes only listed `*.json` files and counts each removal; when it completes, all of them are gone |
| StoreSpec.SweepFails | services/file_vector_store.py:183-186 | with each entry listed once, the loop raises exactly when a `*.json` entry is a directory |
| StoreSpec.SweepListed | services/file_vector_store.py:183-191 | over a full listing: it succeeds exactly when no `*.json` entry is a directory; then exactly the non-json entries remain |
| StoreSpec.CourseDeletedScope | services/file_vector_store.py:177-201 | no directory other than the resolved one changes |
| StoreSpec.CourseDeletedSpec | services/file_vector_store.py:177-201 | with every entry listed: answers true exactly when no `*.json` entry of the directory is a directory; then exactly the non-json entries remain, and the directory is gone only when it held nothing else |
| StoreSpec.MigrationStats.Add | services/file_vector_store.py:265-269 | each outcome adds one to the total |
| StoreSpec.CopyJsonSpec | services/file_vector_store.py:255-262 | the target keeps its entries and gains only listed `*.json` entries of the source; when the copy completes, every listed `*.json` file is copied |
| StoreSpec.CopyJsonOk | services/file_vector_store.py:255-262 | a completed copy met no directory among the listed `*.json` entries |
| StoreSpec.CopyJsonOutcome | services/file_vector_store.py:255-262 | the copy completes exactly when every listed `*.json` entry is a file of the source and the target has no directory of that name |
| StoreSpec.CopyJsonFixed | services/file_vector_store.py:255-262 | copying into a directory that already holds the copies changes nothing |
| StoreSpec.GrowsTransitive | services/file_vector_store.py:203-279 | "only grows" composes over steps |
| StoreSpec.MigratedDirSpec | services/file_vector_store.py:211-269 | the root only grows, and only the target can be new. A migrated directory had no marker, a known name different from its id and its own name; afterwards its target has the marker `{id, name}` and copies of its listed `*.json` files, and the source directory is unchanged. `not_needed` changes nothing, or only adds the marker to a directory already named after the course |
| StoreSpec.MigratedDirOutcome | services/file_vector_store.py:211-269 | `not_needed` exactly when the directory has a marker, its id has no known name, or the name is its own; `migrated` exactly when none of these holds, no plain file takes the target's name, the target's marker place is not a directory, and every listed `*.json` entry is a file with no directory of its name in the target; `errors` otherwise |
| StoreSpec.MigratedDirRerun | services/file_vector_store.py:211-269 | migrating a migrated directory again migrates it again and leaves the state as it was |
| StoreSpec.MigrationFrom | services/file_vector_store.py:211-269 | the loop only makes the root grow |
| StoreSpec.MigrationFromCounts | services/file_vector_store.py:211-269 | each directory listed adds exactly one outcome |
| StoreSpec.CountDirsGrows | services/file_vector_store.py:211-216 | growth keeps the set of directories among listed names |
| StoreSpec.CountDirsIsCard | services/file_vector_store.py:211-216 | the directory count of a distinct listing is the size of its set of directories |
| StoreSpec.CountListedDirs | services/file_vector_store.py:211-216 | over a full listing the loop visits each directory of the root once |
| StoreSpec.MigrationSpec | services/file_vector_store.py:203-279 | `migrated + errors + not_needed` equals the number of directories of the root, and nothing is ever deleted |
| StoreSpec.ClearFilesFacts | services/file_vector_store.py:293-296 | exactly the listed regular files are removed; subdirectories stay |
| StoreSpec.WipeFromFacts | services/file_vector_store.py:288-300 | nothing is added, top-level plain files stay, and directories only lose entries |
| StoreSpec.ClearListed | services/file_vector_store.py:293-300 | a fully listed directory is emptied exactly when it holds no subdirectory |
| StoreSpec.WipeFromSpec | services/file_vector_store.py:281-306 | it succeeds exactly when no directory holds a subdirectory; then only top-level plain files remain |
| StoreSpec.WipedSpec | services/file_vector_store.py:281-306 | with every entry listed: it succeeds exactly when no course directory holds a subdirectory, and then exactly the top-level plain files remain; in every case nothing is added and top-level plain files are untouched |
| VectorStore.FileVectorStore.constructor | services/file_vector_store.py:17-29 | the store opens over the given root |
| VectorStore.FileVectorStore.GetCourseDir | services/file_vector_store.py:52-76 | the loop returns the resolution result and creates the fallback directory only |
| VectorStore.FileVectorStore.GetDocumentPath | services/file_vector_store.py:78-80 | the path is `<documentId>.json` in the resolved, existing directory |
| VectorStore.FileVectorStore.StoreVectors | services/file_vector_store.py:82-114 | the caller's array gets its ids filled in place; the new root and the answer are those of `Stored` under the course's display name |
| VectorStore.FileVectorStore.FillMissingIds | services/file_vector_store.py:86-88 | the caller's records get their missing ids filled in place, as `FillIds` |
| VectorStore.FileVectorStore.WriteDocument | services/file_vector_store.py:89-114 | writing records that all have ids gives `Stored`'s new root and answer |
| VectorStore.FileVectorStore.SearchSimilar | services/file_vector_store.py:116-159 | the nested scan, the sort and the truncation give `SearchResults`; only the fallback directory may be created |
| VectorStore.FileVectorStore.DeleteDocument | services/file_vector_store.py:161-175 | the new root and the answer are those of `DocumentDeleted` |
| VectorStore.FileVectorStore.DeleteCourse | services/file_vector_store.py:177-201 | the new root and the answer are those of `CourseDeleted` |
| VectorStore.FileVectorStore.ClearCourseDir | services/file_vector_store.py:181-196 | the removal loop and `rmdir` on one directory |
| VectorStore.FileVectorStore.MigrateDirectory | services/file_vector_store.py:216-269 | one iteration of the migration loop ends as `MigratedDir` describes |
| VectorStore.FileVectorStore.MoveInto | services/file_vector_store.py:246-269 | creating the target, writing the marker and copying the files gives `MovedInto`'s root and outcome |
| VectorStore.FileVectorStore.CopyDocuments | services/file_vector_store.py:254-262 | the copy loop gives `CopyJson`'s target directory and completion |
| VectorStore.FileVectorStore.MigrateToNamedFolders | services/file_vector_store.py:203-276 | the loop over the listing gives `Migration`'s root and counters |
| VectorStore.FileVectorStore.Reinitialize | services/file_vector_store.py:281-306 | the loop gives `Wiped`'s root and answer |
| VectorStore.FileVectorStore.EmptyDirectory | services/file_vector_store.py:293-296 | the inner loop removes exactly the directory's listed regular files |
| Ingestion.LeadingSpaces | services/ingestion.py:128 | the length of the whitespace run a string starts with |
| Ingestion.TrailingSpaces | services/ingestion.py:128 | the length of the whitespace run a string ends with |
| Ingestion.Strip | services/ingestion.py:128 | `strip()`: a slice of the input whose ends are not whitespace; empty exactly when the input is all whitespace |
| Ingestion.StripTrims | services/ingestion.py:128 | `strip()` cuts off only whitespace, before and after the part it keeps |
| Ingestion.LastIndexOf | services/ingestion.py:123 | `rfind(c)`: -1 or an index of the string holding `c` |
| Ingestion.LastIndexOfIsLast | services/ingestion.py:123 | no `c` follows the index `rfind` returns |
| Ingestion.LastPeriodIsRfind | services/ingestion.py:122-123 | searching `text` by index from the window's end finds what `rfind('.')` finds on the window's slice |
| Ingestion.LastPeriodIsLast | services/ingestion.py:123 | no `.` of the window follows the one found |
| Ingestion.WindowsProper | services/ingestion.py:117-129 | every window starts inside the text and ends after it starts |
| Ingestion.Pieces | services/ingestion.py:128 | one stripped piece per window |
| Ingestion.PiecesAt | services/ingestion.py:128 | piece `i` is window `i` stripped |
| Ingestion.NonEmptyFacts | services/ingestion.py:131 | the final filter keeps exactly the non-empty pieces |
| Ingestion.SimpleChunk | services/ingestion.py:111-131 | the loop returns `Chunks`, the filtered stripped windows |
| Ingestion.ChunkRound | services/ingestion.py:118-129 | one pass of the loop body moves `start` forward and keeps the loop's state: the visited windows lead the list of all windows and `chunks` holds their stripped text |
| Ingestion.ChunkLoopStep | services/ingestion.py:117-129 | one round of the loop appends the current window's stripped text and moves on to `end - overlap`, keeping the visited windows a prefix of all windows |
| Ingestion.ChunkLoopExit | services/ingestion.py:117-131 | when the loop ends it has visited every window, and the pieces are their stripped texts |
| Ingestion.NextWindow | services/ingestion.py:118-126 | the window's end is the period cut or `start + chunk_size`, and the loop advances by more than 80% of the window size minus the overlap |
| Ingestion.DropEmpty | services/ingestion.py:131 | the comprehension keeps the non-empty pieces in order |
| Ingestion.ChunksSpec | services/ingestion.py:111-131 | empty text gives no chunks; every chunk is non-empty and is some stripped slice `text[s:e]` with `s < e` |
| Ingestion.FirstWindowRule | services/ingestion.py:118-126 | the window rule below, for the window starting at a given position |
| Ingestion.WindowRule | services/ingestion.py:118-126 | a window is at most `chunk_size` long, and full length when it reaches the end of the text; a shorter one ends right after a `.` beyond 80% with no later `.`; a qualifying `.` always triggers the cut |
| Ingestion.WindowChain | services/ingestion.py:117-131 | each window starts `overlap` before the previous one ended; the loop advances; the last window ends at least `overlap` past the end |
| Ingestion.WindowsGrow | services/ingestion.py:117-129 | each window ends after the one before it |
| Ingestion.RedundantTailWindow | services/ingestion.py:117-131 | a text of exactly `chunk_size` characters yields a second window inside the first (exactly two for `2*overlap <= chunk_size`) |
| Ingestion.ClampedWindowsAdvance | services/ingestion.py:117-131 | stopping once a window reaches the end: clamped ends strictly increase, the last window reaches the end, and these are the source's windows up to that point |
| Ingestion.UpToEndIncrease | services/ingestion.py:117-131 | cutting after the first window that reaches the end, windows whose ends grow have strictly increasing clamped ends |
| Ingestion.UpToEndReachesEnd | services/ingestion.py:117-131 | the cut keeps a last window that reaches the end |
| Ingestion.UpToEndPrefix | services/ingestion.py:117-131 | the cut keeps an initial part of the windows |
| Embedding.BatchesPartition | services/embedding.py:92-96 | batches are consecutive slices `texts[100k:100k+100]`, each of 1 to 100 texts, `ceil(n/100)` of them, concatenating to the input |
| Embedding.BatchesFlatten | services/embedding.py:95-96 | the batches concatenate back to the input |
| Embedding.BatchesCount | services/embedding.py:92-96 | there are `ceil(n/100)` batches of 1 to 100 texts each |
| Embedding.BatchesSlices | services/embedding.py:95-96 | batch `k` is `texts[100k:100k+100]` |
| Embedding.Vectors | services/embedding.py:109-113 | one embedding per item, in order |
| Embedding.CheckBatch | services/embedding.py:103-113 | a response is accepted exactly when present, non-empty, of the batch's length, and every item has a non-empty embedding; then it yields one embedding per text |
| Embedding.EmbedBatchesSpec | services/embedding.py:95-117 | the loop succeeds exactly when every batch's response is accepted, and then appends the batches' embeddings in order |
| Embedding.EmbedBatchesOk | services/embedding.py:95-117 | the loop runs to the end exactly when every response is accepted |
| Embedding.EmbedBatchesValue | services/embedding.py:95-117 | on success the result is the accumulated embeddings followed by each batch's, in batch order |
| Embedding.BatchEmbeddingsLength | services/embedding.py:103-115 | accepted responses carry exactly one embedding per text |
| Embedding.EmbedAllSpec | services/embedding.py:88-120 | success exactly when every batch is accepted; the result is one embedding per input text, in batch order |
| Embedding.EmbedAllEmpty | services/embedding.py:95 | no texts, no request, no embeddings |
| Embedding.Texts | services/embedding.py:182 | one text per chunk, its `content` |
| Embedding.AssembledSpec | services/embedding.py:190-208 | `min(len(chunks), len(embeddings))` records; record `i` has id `uuid(i)`, the i-th embedding, `chunk_index == i`, the course and document ids, the chunk's content, its metadata (default `{}`) and its chunk type (default `"semantic"`) |
| Embedding.EmbeddingsStoredSpec | services/embedding.py:168-227 | no chunks leave the store untouched and return `[]`; an error before the store call changes nothing; on a non-empty success the ids are the fresh ids in chunk order and the document file holds exactly the assembled records |
| Embedding.EmbeddingsStoredUntouched | services/embedding.py:168-227 | no chunks, or an error before the store call, leave the store untouched; no chunks return `[]` |
| Embedding.EmbeddingsStoredWritten | services/embedding.py:168-227 | a non-empty success returns the fresh ids in chunk order and leaves exactly the assembled records in the document file |
| Embedding.AssembledStored | services/embedding.py:190-227 | storing the assembled records returns `uuid(0)`, `uuid(1)`, ... for the `min(len(chunks), len(embeddings))` records and writes exactly those records |
| Embedding.EmbeddingService.constructor | services/embedding.py:15-30 | OpenAI's known models get their vector size (1536, 3072, 1536); any other provider or model keeps the configured dimension |
| Embedding.EmbeddingService.EmbedTexts | services/embedding.py:88-120 | the batch loop returns `EmbedAll` |
| Embedding.EmbeddingService.CheckResponse | services/embedding.py:103-113 | the checks on one response give `CheckBatch` |
| Embedding.EmbeddingService.AssembleVectors | services/embedding.py:190-208 | the zip loop builds `Assembled` |
| Embedding.EmbeddingService.StoreEmbeddings | services/embedding.py:168-227 | the store's new root and the answer are those of `EmbeddingsStored` |
| ManualMigrate.FoundNameSpec | manual_migrate.py:35-53 | the name found is that of the first listed `*.json` file that yields one; earlier files yield none; it holds no `.`; nothing is found exactly when no file yields a name |
| ManualMigrate.CopyIntoSpec | manual_migrate.py:66-74 | the target keeps its entries and gains only listed `*.json` entries of the source; it fails exactly when one of those is a directory in the source; when it completes, each is copied, or left alone where the target has a directory |
| ManualMigrate.CopyIntoFixed | manual_migrate.py:66-74 | copying into a directory that already holds the copies changes nothing |
| ManualMigrate.ManualStepSpec | manual_migrate.py:28-81 | nothing is deleted; a skip changes nothing; only `<dir>_<name>` can change, and it gains only copies of the original's `*.json` files (no marker is written); on success all of them are there |
| ManualMigrate.ManualTargetClaimed | manual_migrate.py:58-60 | the new directory is claimed by the original id under the store's legacy rule, and the store's migration reads that id off it |
| ManualMigrate.ManualStepRerun | manual_migrate.py:28-81 | re-running over a migrated directory migrates it again to the same state |
| ManualMigrate.ManualFrom | manual_migrate.py:28-81 | the counters only increase |
| ManualMigrate.ManualFromFacts | manual_migrate.py:28-81 | nothing is deleted; at most one outcome is counted per directory whose name has no `_` |
| ManualMigrate.ManualStepOutcome | manual_migrate.py:31-81 | a directory is skipped exactly when its name has a `_` or no course name is found; it is copied exactly when no plain file holds the new name and every listed `*.json` entry is a regular file; it fails otherwise |
| ManualMigrate.StepKeepsOriginals | manual_migrate.py:58-74 | a step removes nothing, creates only directories and leaves every entry without `_` in its name as it was |
| ManualMigrate.StepOutcomeKept | manual_migrate.py:28-81 | earlier steps of the loop do not change the outcome of a later directory's step |
| ManualMigrate.ManualFromCounts | manual_migrate.py:28-81 | `migrated` grows by exactly the number of listed directories whose step copies, and `errors` by the number whose step fails |
| ManualMigrate.CountCandidatesGrows | manual_migrate.py:32 | growth keeps the set of candidate directories |
| ManualMigrate.ManualMigrationSpec | manual_migrate.py:15-92 | a missing data directory returns early with no change; otherwise nothing is deleted, the original directories stay as they were, `migrated` is the number of directories of the root whose step copies and `errors` the number whose step fails |
| ManualMigrate.DataDirectory.constructor | manual_migrate.py:13 | the script works on the given embeddings directory |
| ManualMigrate.DataDirectory.FindCourseName | manual_migrate.py:35-53 | the loop over the listing returns `FoundName` |
| ManualMigrate.DataDirectory.MigrateCourse | manual_migrate.py:28-81 | one iteration of the loop ends as `ManualStep` describes |
| ManualMigrate.DataDirectory.CopyTo | manual_migrate.py:62-81 | creating `<dir>_<name>` and copying the files gives `CopiedTo`'s root and outcome |
| ManualMigrate.DataDirectory.CopyCourseFiles | manual_migrate.py:66-74 | the `copy2` loop gives `CopyInto`'s target directory and completion |
| ManualMigrate.DataDirectory.MigrateEmbeddings | manual_migrate.py:15-92 | the loop gives `ManualMigration`'s root and counters |

## Left out

- File I/O, JSON encoding and logging are modelled as values and outcomes. The root is a two-level tree: the contents of subdirectories inside course directories are not represented.
- Floating point: the cosine similarity is the parameter `score`, with NaN and shape errors as explicit outcomes. Vector values are `real`.
- Path edge cases are not modelled: ids that are empty or contain `/`, `..` or a path separator.
- Concurrency between writers and the ordering of `os.listdir` are not modelled. The listing order is a parameter; completeness lemmas require that it lists every entry.
- The database query of `_get_course_name` is a table lookup. A raising query is the `Failing` session. The async session itself is not modelled.
- `uuid4` is the parameter `uuid`. `str.isalnum` is the parameter `isAlnum`.
- `VECTOR_DIMENSION` is given as an already parsed integer. A non-numeric value, which makes `int()` raise, is not modelled.
- `FileVectorStore.__init__` creating the storage root is not modelled. The store opens over an existing root.
- The dead branch in `search_similar` (lines 122-124) cannot be reached, because `_get_course_dir` always creates the directory. It is not modelled.
- The outer `except` of `migrate_to_named_folders` (lines 277-279) is not modelled. It returns `{"migrated": 0, "errors": 1}` when listing the storage root fails, and the root is always listable here.
- Migration: that a second run of `migrate_to_named_folders` leaves the directory tree exactly as the first run left it is proved per directory (`MigratedDirRerun`), not for the whole loop. For the whole loop it need not hold. Take directories `Z`, `X` and `W`, listed in that order. `Z` and `X` migrate to the same target and both hold a file `f`, with different contents. `W` migrates into `X`. In the first run, `X` writes its `f` last and then receives a marker from `W`. In the second run, `X` has a marker and is skipped, so `Z`'s `f` is left in the target.
- Ingestion.SimpleChunk: requires `chunk_size > 0` and `overlap <= 0.8 * chunk_size`. For other arguments the source can loop forever (for instance `overlap >= chunk_size`).
- `shutil.copy2` into a destination entry that is a directory copies one level down, which the two-level root cannot show. The model leaves that entry unchanged.
- `store_embeddings` takes the embedding step as the parameter `embedTexts`. Only the OpenAI path's batching is modelled, as `EmbedTexts`. The local sentence-transformers model and `initialize` are not modelled.
- VectorStore.FileVectorStore.FillMissingIds: aliasing between the caller's records is not modelled. `store_vectors` updates the caller's dicts through references, so one dict listed twice without `"id"` ends with the id of its last position in both places. The model gives each position its own `doc_i`. No caller builds such a list.
- StoreSpec.CopyJson: the copy reads and writes in text mode. A `*.json` file that does not decode as UTF-8 makes the copy raise after the destination file has been truncated. The model copies such a file like any other. The store's own files are ASCII `json.dump` output, so only files placed there by other tools are affected.
- A chunk whose `metadata` key is present with value `None` is not modelled; such metadata would be stored as `null`.

## Findings

| source | as written | input that shows it | evidently intended | confidence | as-written member | corrected member |
|---|---|---|---|---|---|---|
| services/ingestion.py:117-129 | after a window that already reaches the end of the text, the loop continues from `end - overlap` and emits one more chunk lying inside the previous one | a text of exactly 1000 characters with the defaults (1000, 200) gives two chunks: the whole text and its last 200 characters again | stop once a window reaches the end of the text, so no chunk lies inside the one before it | medium (not executed) | Ingestion.RedundantTailWindow | Ingestion.ClampedWindowsAdvance |
