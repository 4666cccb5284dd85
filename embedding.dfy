/**
  The parts of `EmbeddingService` that decide what gets stored: the vector size
  chosen at construction, the batching of texts sent to the OpenAI embeddings
  endpoint with the checks on each response, and the assembly of vector records
  from chunks and embeddings in `store_embeddings`.

  The embedding endpoint is the function parameter `embed` (one call per batch);
  the embedding step of `store_embeddings` (either provider) is the function
  parameter `embedTexts`; `uuid.uuid4()` for record `i` is `uuid(i)`.
*/
module Embedding {
  import opened Common
  import opened Storage
  import opened Naming
  import opened StoreSpec
  import opened VectorStore

  /** The largest number of texts sent in one request. */
  const BatchSize: nat := 100

  /** The vector sizes of the known OpenAI models. */
  const SmallOrAdaDimension: int := 1536
  const LargeDimension: int := 3072

  // ---------------------------------------------------------------- batching

  function Flatten<T>(xss: seq<seq<T>>): seq<T> {
    if xss == [] then [] else xss[0] + Flatten(xss[1..])
  }

  /** `texts[i:i + batch_size]` for `i` in `range(0, len(texts), batch_size)`. */
  function Batches(texts: seq<string>): seq<seq<string>>
    decreases |texts|
  {
    if texts == [] then [] else [texts[..Min(BatchSize, |texts|)]] + Batches(texts[Min(BatchSize, |texts|)..])
  }

  /**
    The batches are consecutive slices of at most 100 texts, none empty, and
    their concatenation is the input.
  */
  lemma BatchesPartition(texts: seq<string>)
    ensures var bs := Batches(texts);
      && Flatten(bs) == texts
      && |bs| == (|texts| + BatchSize - 1) / BatchSize
      && (forall i :: 0 <= i < |bs| ==> 1 <= |bs[i]| <= BatchSize)
      && (forall i :: 0 <= i < |bs| ==> BatchSize * i < |texts| && bs[i] == texts[BatchSize * i..Min(BatchSize * i + BatchSize, |texts|)])
  {
    BatchesFlatten(texts);
    BatchesCount(texts);
    BatchesSlices(texts);
  }

  /** One unfolding of `Batches` on a non-empty input. */
  lemma BatchesStep(texts: seq<string>)
    requires texts != []
    ensures var k := Min(BatchSize, |texts|);
      Batches(texts) == [texts[..k]] + Batches(texts[k..]) && texts == texts[..k] + texts[k..]
  {
  }

  /** Concatenating the batches gives back the input. */
  lemma {:induction false} BatchesFlatten(texts: seq<string>)
    ensures Flatten(Batches(texts)) == texts
    decreases |texts|
  {
    if texts != [] {
      var k := Min(BatchSize, |texts|);
      BatchesStep(texts);
      BatchesFlatten(texts[k..]);
      assert ([texts[..k]] + Batches(texts[k..]))[1..] == Batches(texts[k..]);
    }
  }

  /** There are `ceil(n / 100)` batches, each of 1 to 100 texts. */
  lemma {:induction false} BatchesCount(texts: seq<string>)
    ensures var bs := Batches(texts);
      |bs| == (|texts| + BatchSize - 1) / BatchSize && forall i :: 0 <= i < |bs| ==> 1 <= |bs[i]| <= BatchSize
    decreases |texts|
  {
    if texts != [] {
      var k := Min(BatchSize, |texts|);
      var rest := Batches(texts[k..]);
      BatchesStep(texts);
      BatchesCount(texts[k..]);
      var bs := [texts[..k]] + rest;
      assert forall i :: 1 <= i < |bs| ==> bs[i] == rest[i - 1];
    }
  }

  /** Batch `i` is `texts[100 * i:100 * i + 100]`. */
  lemma {:induction false} BatchesSlices(texts: seq<string>)
    ensures var bs := Batches(texts);
      forall i :: 0 <= i < |bs| ==> BatchSize * i < |texts| && bs[i] == texts[BatchSize * i..Min(BatchSize * i + BatchSize, |texts|)]
    decreases |texts|
  {
    if texts != [] {
      var k := Min(BatchSize, |texts|);
      var rest := texts[k..];
      BatchesStep(texts);
      BatchesSlices(rest);
      var bs := [texts[..k]] + Batches(rest);
      forall i | 0 <= i < |bs| ensures BatchSize * i < |texts| && bs[i] == texts[BatchSize * i..Min(BatchSize * i + BatchSize, |texts|)] {
        if i > 0 {
          assert bs[i] == Batches(rest)[i - 1];
          assert rest[BatchSize * (i - 1)..Min(BatchSize * (i - 1) + BatchSize, |rest|)]
              == texts[BatchSize * i..Min(BatchSize * i + BatchSize, |texts|)];
        }
      }
    }
  }

  /** One element of `response.data`: missing (falsy), or carrying an embedding. */
  datatype EmbeddingItem = NoItem | Item(embedding: seq<real>)

  /** What one request returns: nothing (falsy), or a `data` list. */
  datatype Response = NoResponse | Response(data: seq<EmbeddingItem>)

  /** The errors `_openai_embed_texts` raises. */
  datatype EmbedError =
    | EmptyResponse(batchNumber: nat)        // no response, or empty `data`, for batch number k (from 1)
    | CountMismatch(got: nat, expected: nat) // `len(response.data) != len(batch)`
    | EmptyEmbedding                         // an item, or its embedding, is falsy

  /** A response `_openai_embed_texts` accepts for `batch`. */
  predicate Accepted(batch: seq<string>, r: Response) {
    && r.Response? && r.data != [] && |r.data| == |batch|
    && forall k :: 0 <= k < |r.data| ==> r.data[k].Item? && r.data[k].embedding != []
  }

  /** The embeddings of a response's items, in order (a missing item contributes an empty one). */
  function Vectors(items: seq<EmbeddingItem>): (vs: seq<seq<real>>)
    ensures |vs| == |items|
    ensures forall k :: 0 <= k < |vs| ==> vs[k] == if items[k].Item? then items[k].embedding else []
  {
    if items == [] then [] else [if items[0].Item? then items[0].embedding else []] + Vectors(items[1..])
  }

  /** The embeddings a response carries. */
  function Embeddings(r: Response): seq<seq<real>> {
    if r.Response? then Vectors(r.data) else []
  }

  /** The embeddings of every batch's response, concatenated in batch order. */
  function BatchEmbeddings(bs: seq<seq<string>>, embed: seq<string> -> Response): seq<seq<real>> {
    if bs == [] then [] else Embeddings(embed(bs[0])) + BatchEmbeddings(bs[1..], embed)
  }

  /** The check of one response: the first failing test decides the error. */
  function CheckBatch(batch: seq<string>, r: Response, batchNumber: nat): (c: Result<seq<seq<real>>, EmbedError>)
    ensures c.Ok? <==> Accepted(batch, r)
    ensures c.Ok? ==> |c.value| == |batch| && c.value == Embeddings(r)
  {
    if r.NoResponse? || r.data == [] then Err(EmptyResponse(batchNumber))
    else if |r.data| != |batch| then Err(CountMismatch(|r.data|, |batch|))
    else if exists k :: 0 <= k < |r.data| && (r.data[k].NoItem? || r.data[k].embedding == []) then Err(EmptyEmbedding)
    else Ok(Vectors(r.data))
  }

  /** The batch loop from batch number `batchNumber` on, appending to `acc`. */
  function EmbedBatches(bs: seq<seq<string>>, embed: seq<string> -> Response, batchNumber: nat,
                        acc: seq<seq<real>>): Result<seq<seq<real>>, EmbedError>
    decreases |bs|
  {
    if bs == [] then Ok(acc)
    else match CheckBatch(bs[0], embed(bs[0]), batchNumber)
      case Err(e) => Err(e)
      case Ok(vs) => EmbedBatches(bs[1..], embed, batchNumber + 1, acc + vs)
  }

  /** What `_openai_embed_texts` returns or raises. */
  function EmbedAll(texts: seq<string>, embed: seq<string> -> Response): Result<seq<seq<real>>, EmbedError> {
    EmbedBatches(Batches(texts), embed, 1, [])
  }

  /** Every batch's response is accepted. */
  predicate AllAccepted(bs: seq<seq<string>>, embed: seq<string> -> Response) {
    forall i :: 0 <= i < |bs| ==> Accepted(bs[i], embed(bs[i]))
  }

  /**
    The loop succeeds exactly when every batch's response is accepted; then it
    appends the batches' embeddings in order, one per text.
  */
  lemma EmbedBatchesSpec(bs: seq<seq<string>>, embed: seq<string> -> Response, batchNumber: nat,
                         acc: seq<seq<real>>)
    ensures var r := EmbedBatches(bs, embed, batchNumber, acc);
      && (r.Ok? <==> AllAccepted(bs, embed))
      && (r.Ok? ==> r.value == acc + BatchEmbeddings(bs, embed))
      && (r.Ok? ==> |r.value| == |acc| + |Flatten(bs)|)
  {
    EmbedBatchesOk(bs, embed, batchNumber, acc);
    EmbedBatchesValue(bs, embed, batchNumber, acc);
    if AllAccepted(bs, embed) {
      BatchEmbeddingsLength(bs, embed);
    }
  }

  /** `AllAccepted` split into the first batch and the rest. */
  lemma AllAcceptedStep(bs: seq<seq<string>>, embed: seq<string> -> Response)
    requires bs != []
    ensures AllAccepted(bs, embed) <==> Accepted(bs[0], embed(bs[0])) && AllAccepted(bs[1..], embed)
  {
    if Accepted(bs[0], embed(bs[0])) && AllAccepted(bs[1..], embed) {
      forall i | 0 <= i < |bs| ensures Accepted(bs[i], embed(bs[i])) {
        if i > 0 {
          assert bs[i] == bs[1..][i - 1];
        }
      }
    }
  }

  /** The batch loop succeeds exactly when every response is accepted. */
  lemma {:induction false} EmbedBatchesOk(bs: seq<seq<string>>, embed: seq<string> -> Response, batchNumber: nat,
                                          acc: seq<seq<real>>)
    ensures EmbedBatches(bs, embed, batchNumber, acc).Ok? <==> AllAccepted(bs, embed)
    decreases |bs|
  {
    if bs != [] {
      AllAcceptedStep(bs, embed);
      var c := CheckBatch(bs[0], embed(bs[0]), batchNumber);
      if c.Ok? {
        EmbedBatchesOk(bs[1..], embed, batchNumber + 1, acc + c.value);
      }
    }
  }

  /** One round of the batch loop on an accepted first response. */
  lemma EmbedBatchesStep(bs: seq<seq<string>>, embed: seq<string> -> Response, batchNumber: nat,
                         acc: seq<seq<real>>)
    requires bs != [] && CheckBatch(bs[0], embed(bs[0]), batchNumber).Ok?
    ensures EmbedBatches(bs, embed, batchNumber, acc)
         == EmbedBatches(bs[1..], embed, batchNumber + 1, acc + Embeddings(embed(bs[0])))
  {
  }

  /** The first batch's embeddings followed by the rest's. */
  lemma BatchEmbeddingsStep(bs: seq<seq<string>>, embed: seq<string> -> Response)
    requires bs != []
    ensures BatchEmbeddings(bs, embed) == Embeddings(embed(bs[0])) + BatchEmbeddings(bs[1..], embed)
  {
  }

  /** On success the loop's result is `acc` followed by the batches' embeddings. */
  lemma {:induction false} EmbedBatchesValue(bs: seq<seq<string>>, embed: seq<string> -> Response, batchNumber: nat,
                                             acc: seq<seq<real>>)
    ensures var r := EmbedBatches(bs, embed, batchNumber, acc);
      r.Ok? ==> r.value == acc + BatchEmbeddings(bs, embed)
    decreases |bs|
  {
    if bs != [] && CheckBatch(bs[0], embed(bs[0]), batchNumber).Ok? {
      EmbedBatchesValue(bs[1..], embed, batchNumber + 1, acc + Embeddings(embed(bs[0])));
      EmbedBatchesValueStep(bs, embed, batchNumber, acc);
    }
  }

  /** The inductive step of `EmbedBatchesValue`. */
  lemma EmbedBatchesValueStep(bs: seq<seq<string>>, embed: seq<string> -> Response, batchNumber: nat,
                              acc: seq<seq<real>>)
    requires bs != [] && CheckBatch(bs[0], embed(bs[0]), batchNumber).Ok?
    requires var r := EmbedBatches(bs[1..], embed, batchNumber + 1, acc + Embeddings(embed(bs[0])));
      r.Ok? ==> r.value == acc + Embeddings(embed(bs[0])) + BatchEmbeddings(bs[1..], embed)
    ensures var r := EmbedBatches(bs, embed, batchNumber, acc);
      r.Ok? ==> r.value == acc + BatchEmbeddings(bs, embed)
  {
    var first := Embeddings(embed(bs[0]));
    var later := BatchEmbeddings(bs[1..], embed);
    EmbedBatchesStep(bs, embed, batchNumber, acc);
    BatchEmbeddingsStep(bs, embed);
    AppendAssoc(acc, first, later);
  }

  /** Accepted responses carry one embedding per text. */
  lemma {:induction false} BatchEmbeddingsLength(bs: seq<seq<string>>, embed: seq<string> -> Response)
    requires AllAccepted(bs, embed)
    ensures |BatchEmbeddings(bs, embed)| == |Flatten(bs)|
    decreases |bs|
  {
    if bs != [] {
      AllAcceptedStep(bs, embed);
      BatchEmbeddingsLength(bs[1..], embed);
    }
  }

  /**
    `_openai_embed_texts` succeeds exactly when every batch's response is accepted;
    then it returns the batches' embeddings in order, one per input text, none empty.
  */
  lemma EmbedAllSpec(texts: seq<string>, embed: seq<string> -> Response)
    ensures var bs := Batches(texts);
      var r := EmbedAll(texts, embed);
      && (r.Ok? <==> AllAccepted(bs, embed))
      && (r.Ok? ==> |r.value| == |texts|)
      && (r.Ok? ==> r.value == BatchEmbeddings(bs, embed))
  {
    EmbedBatchesSpec(Batches(texts), embed, 1, []);
    BatchesPartition(texts);
  }

  /** Empty input makes no request and returns no embeddings. */
  lemma EmbedAllEmpty(embed: seq<string> -> Response)
    ensures EmbedAll([], embed) == Ok([])
  {
  }

  // ---------------------------------------------------------------- record assembly

  /** A chunk dict: `content`, and the optional `metadata` and `chunk_type` (absent is `None`). */
  datatype Chunk = Chunk(content: Option<string>, metadata: Option<map<string, string>>, chunkType: Option<string>)

  const DefaultChunkType: string := "semantic"

  predicate AllHaveContent(chunks: seq<Chunk>) {
    forall i :: 0 <= i < |chunks| ==> chunks[i].content.Some?
  }

  /** `[chunk['content'] for chunk in chunks]`. */
  function Texts(chunks: seq<Chunk>): (ts: seq<string>)
    requires AllHaveContent(chunks)
    ensures |ts| == |chunks|
    ensures forall i :: 0 <= i < |ts| ==> chunks[i].content == Some(ts[i])
  {
    if chunks == [] then [] else [chunks[0].content.value] + Texts(chunks[1..])
  }

  /** The record built for chunk `i` and its embedding. */
  function RecordFor(c: Chunk, embedding: seq<real>, i: nat, courseId: string, documentId: string, id: string): Record
    requires c.content.Some?
  {
    Record(Some(id), embedding,
      Some(Payload(courseId, documentId, i, c.content.value, c.metadata.GetOr(map[]), c.chunkType.GetOr(DefaultChunkType))))
  }

  /** The records of `zip(chunks, embeddings)`, built front to back. */
  function Assembled(chunks: seq<Chunk>, embeddings: seq<seq<real>>, courseId: string, documentId: string,
                     uuid: nat -> string): seq<Record>
    requires AllHaveContent(chunks)
    decreases |chunks|
  {
    var n := Min(|chunks|, |embeddings|);
    if n == 0 then []
    else Assembled(chunks[..n - 1], embeddings[..n - 1], courseId, documentId, uuid)
         + [RecordFor(chunks[n - 1], embeddings[n - 1], n - 1, courseId, documentId, uuid(n - 1))]
  }

  /**
    Record `r` is the one stored for chunk `c` at index `i`: a fresh id, the
    embedding, `chunk_index == i`, the given course and document, the chunk's
    content, its metadata (default `{}`) and its chunk type (default "semantic").
  */
  predicate RecordMatches(r: Record, c: Chunk, embedding: seq<real>, i: nat, courseId: string, documentId: string,
                          uuid: nat -> string) {
    && r.id == Some(uuid(i))
    && r.vector == embedding
    && r.payload.Some?
    && r.payload.value.chunkIndex == i
    && r.payload.value.courseId == courseId
    && r.payload.value.documentId == documentId
    && c.content == Some(r.payload.value.content)
    && r.payload.value.metadata == (if c.metadata.Some? then c.metadata.value else map[])
    && r.payload.value.chunkType == (if c.chunkType.Some? then c.chunkType.value else DefaultChunkType)
  }

  /** `zip` truncates to the shorter list; record `i` is the one for chunk `i` and embedding `i`. */
  lemma {:induction false} AssembledSpec(chunks: seq<Chunk>, embeddings: seq<seq<real>>, courseId: string,
                                         documentId: string, uuid: nat -> string)
    requires AllHaveContent(chunks)
    ensures var rs := Assembled(chunks, embeddings, courseId, documentId, uuid);
      && |rs| == Min(|chunks|, |embeddings|)
      && forall i :: 0 <= i < |rs| ==> RecordMatches(rs[i], chunks[i], embeddings[i], i, courseId, documentId, uuid)
    decreases |chunks|
  {
    var n := Min(|chunks|, |embeddings|);
    if n > 0 {
      var cs, es := chunks[..n - 1], embeddings[..n - 1];
      assert AllHaveContent(cs) by {
        assert forall i :: 0 <= i < |cs| ==> cs[i] == chunks[i];
      }
      AssembledSpec(cs, es, courseId, documentId, uuid);
      var front := Assembled(cs, es, courseId, documentId, uuid);
      var rs := front + [RecordFor(chunks[n - 1], embeddings[n - 1], n - 1, courseId, documentId, uuid(n - 1))];
      assert Assembled(chunks, embeddings, courseId, documentId, uuid) == rs;
      forall i | 0 <= i < |rs|
        ensures RecordMatches(rs[i], chunks[i], embeddings[i], i, courseId, documentId, uuid)
      {
        if i < n - 1 {
          assert rs[i] == front[i] && cs[i] == chunks[i] && es[i] == embeddings[i];
        }
      }
    }
  }

  /** The effect of `store_embeddings` on the storage root, and what it returns or raises. */
  datatype StoreError = MissingContent | EmbedFailed(cause: EmbedError) | StoreFailed(fault: Fault)

  function EmbeddingsStored(root: Root, chunks: seq<Chunk>, courseId: string, documentId: string, db: Db,
                            isAlnum: char -> bool, embedTexts: seq<string> -> Result<seq<seq<real>>, EmbedError>,
                            uuid: nat -> string): Effect<Result<seq<string>, StoreError>>
  {
    if chunks == [] then Effect(root, Ok([]))
    else if !AllHaveContent(chunks) then Effect(root, Err(MissingContent))
    else match embedTexts(Texts(chunks))
      case Err(e) => Effect(root, Err(EmbedFailed(e)))
      case Ok(embeddings) =>
        var vectors := Assembled(chunks, embeddings, courseId, documentId, uuid);
        AssembledSpec(chunks, embeddings, courseId, documentId, uuid);
        if vectors == [] then Effect(root, Ok([]))
        else
          var e := Stored(root, vectors, courseId, documentId, CourseName(courseId, db, isAlnum));
          Effect(e.root, match e.out case Ok(ids) => Ok(ids) case Err(f) => Err(StoreFailed(f)))
  }

  /**
    No chunks, or no embeddings to pair them with, leave the store untouched and
    return `[]`. On success the ids returned are the fresh ids of the records, in
    chunk order, and the document file holds exactly the assembled records.
  */
  lemma EmbeddingsStoredSpec(root: Root, chunks: seq<Chunk>, courseId: string, documentId: string, db: Db,
                             isAlnum: char -> bool, embedTexts: seq<string> -> Result<seq<seq<real>>, EmbedError>,
                             uuid: nat -> string)
    ensures var e := EmbeddingsStored(root, chunks, courseId, documentId, db, isAlnum, embedTexts, uuid);
      && (chunks == [] ==> e.root == root && e.out == Ok([]))
      && (e.out.Err? && !e.out.error.StoreFailed? ==> e.root == root)
      && (e.out.Ok? && e.out.value != [] ==>
            && AllHaveContent(chunks)
            && embedTexts(Texts(chunks)).Ok?
            && var embeddings := embedTexts(Texts(chunks)).value;
               var name := CourseName(courseId, db, isAlnum);
               && |e.out.value| == Min(|chunks|, |embeddings|)
               && (forall i :: 0 <= i < |e.out.value| ==> e.out.value[i] == uuid(i))
               && IsDir(e.root, name) && DocFile(documentId) in e.root[name].items
               && e.root[name].items[DocFile(documentId)] ==
                    File(Records(Assembled(chunks, embeddings, courseId, documentId, uuid))))
  {
    EmbeddingsStoredUntouched(root, chunks, courseId, documentId, db, isAlnum, embedTexts, uuid);
    EmbeddingsStoredWritten(root, chunks, courseId, documentId, db, isAlnum, embedTexts, uuid);
  }

  /** No chunks, a chunk without content or a failed embedding leave the store untouched. */
  lemma EmbeddingsStoredUntouched(root: Root, chunks: seq<Chunk>, courseId: string, documentId: string, db: Db,
                                  isAlnum: char -> bool, embedTexts: seq<string> -> Result<seq<seq<real>>, EmbedError>,
                                  uuid: nat -> string)
    ensures var e := EmbeddingsStored(root, chunks, courseId, documentId, db, isAlnum, embedTexts, uuid);
      && (chunks == [] ==> e.root == root && e.out == Ok([]))
      && (e.out.Err? && !e.out.error.StoreFailed? ==> e.root == root)
  {
  }

  /** A non-empty success returns the records' fresh ids and writes exactly the assembled records. */
  lemma EmbeddingsStoredWritten(root: Root, chunks: seq<Chunk>, courseId: string, documentId: string, db: Db,
                                isAlnum: char -> bool, embedTexts: seq<string> -> Result<seq<seq<real>>, EmbedError>,
                                uuid: nat -> string)
    ensures var e := EmbeddingsStored(root, chunks, courseId, documentId, db, isAlnum, embedTexts, uuid);
      e.out.Ok? && e.out.value != [] ==>
        && AllHaveContent(chunks)
        && embedTexts(Texts(chunks)).Ok?
        && var embeddings := embedTexts(Texts(chunks)).value;
           var name := CourseName(courseId, db, isAlnum);
           && |e.out.value| == Min(|chunks|, |embeddings|)
           && (forall i :: 0 <= i < |e.out.value| ==> e.out.value[i] == uuid(i))
           && IsDir(e.root, name) && DocFile(documentId) in e.root[name].items
           && e.root[name].items[DocFile(documentId)] ==
                File(Records(Assembled(chunks, embeddings, courseId, documentId, uuid)))
  {
    if chunks != [] && AllHaveContent(chunks) && embedTexts(Texts(chunks)).Ok? {
      var embeddings := embedTexts(Texts(chunks)).value;
      AssembledStored(root, chunks, embeddings, courseId, documentId, CourseName(courseId, db, isAlnum), uuid);
    }
  }

  /** Storing the assembled records returns their fresh ids, in chunk order, and writes exactly those records. */
  lemma AssembledStored(root: Root, chunks: seq<Chunk>, embeddings: seq<seq<real>>, courseId: string, documentId: string,
                        name: string, uuid: nat -> string)
    requires AllHaveContent(chunks)
    ensures AllHaveIds(Assembled(chunks, embeddings, courseId, documentId, uuid))
    ensures var vectors := Assembled(chunks, embeddings, courseId, documentId, uuid);
      var e := Stored(root, vectors, courseId, documentId, name);
      vectors != [] && e.out.Ok? ==>
        && |e.out.value| == Min(|chunks|, |embeddings|)
        && (forall i :: 0 <= i < |e.out.value| ==> e.out.value[i] == uuid(i))
        && IsDir(e.root, name) && DocFile(documentId) in e.root[name].items
        && e.root[name].items[DocFile(documentId)] == File(Records(vectors))
  {
    var vectors := Assembled(chunks, embeddings, courseId, documentId, uuid);
    AssembledSpec(chunks, embeddings, courseId, documentId, uuid);
    if vectors != [] {
      var e := Stored(root, vectors, courseId, documentId, name);
      StoredSpec(root, vectors, courseId, documentId, name);
      if e.out.Ok? {
        forall i | 0 <= i < |e.out.value| ensures e.out.value[i] == uuid(i) {
          assert vectors[i].id == Some(e.out.value[i]);
          assert RecordMatches(vectors[i], chunks[i], embeddings[i], i, courseId, documentId, uuid);
        }
      }
    }
  }

  // ---------------------------------------------------------------- the service

  class EmbeddingService {
    const provider: string
    const modelName: string
    var vectorSize: int
    /** The store `initialize` attaches. */
    const vectorStore: FileVectorStore

    /**
      `__init__` with the environment read (`provider`, `modelName` and the parsed
      `dimension`), followed by the store assignment of `initialize`: for OpenAI's
      known models the vector size is theirs, otherwise it is the configured one.
    */
    constructor(provider: string, modelName: string, dimension: int, store: FileVectorStore)
      ensures this.provider == provider && this.modelName == modelName && vectorStore == store
      ensures provider == "openai" && modelName == "text-embedding-3-small" ==> vectorSize == SmallOrAdaDimension
      ensures provider == "openai" && modelName == "text-embedding-3-large" ==> vectorSize == LargeDimension
      ensures provider == "openai" && modelName == "text-embedding-ada-002" ==> vectorSize == SmallOrAdaDimension
      ensures (provider != "openai" || modelName !in {"text-embedding-3-small", "text-embedding-3-large", "text-embedding-ada-002"})
        ==> vectorSize == dimension
    {
      this.provider := provider;
      this.modelName := modelName;
      vectorStore := store;
      vectorSize := dimension;
      new;
      if provider == "openai" {
        if modelName == "text-embedding-3-small" {
          vectorSize := SmallOrAdaDimension;
        } else if modelName == "text-embedding-3-large" {
          vectorSize := LargeDimension;
        } else if modelName == "text-embedding-ada-002" {
          vectorSize := SmallOrAdaDimension;
        }
      }
    }

    /** `_openai_embed_texts`: one request per batch of 100, each response checked before its embeddings are kept. */
    method EmbedTexts(texts: seq<string>, embed: seq<string> -> Response) returns (r: Result<seq<seq<real>>, EmbedError>)
      ensures r == EmbedAll(texts, embed)
    {
      var all: seq<seq<real>> := [];
      var i := 0;
      var batchNumber: nat := 1;
      while i < |texts|
        invariant 0 <= i <= |texts|
        invariant EmbedAll(texts, embed) == EmbedBatches(Batches(texts[i..]), embed, batchNumber, all)
        decreases |texts| - i
      {
        var next := Min(i + BatchSize, |texts|);
        var batch := texts[i..next];
        assert Batches(texts[i..]) == [batch] + Batches(texts[next..]) by {
          assert texts[i..][..Min(BatchSize, |texts| - i)] == batch;
          assert texts[i..][Min(BatchSize, |texts| - i)..] == texts[next..];
        }
        var checked := CheckResponse(batch, embed(batch), batchNumber);
        if checked.Err? {
          return Err(checked.error);
        }
        all := all + checked.value;
        i := next;
        batchNumber := batchNumber + 1;
      }
      assert texts[i..] == [];
      return Ok(all);
    }

    /** The checks on one batch's response, item by item. */
    method CheckResponse(batch: seq<string>, response: Response, batchNumber: nat)
      returns (c: Result<seq<seq<real>>, EmbedError>)
      ensures c == CheckBatch(batch, response, batchNumber)
    {
      if response.NoResponse? || response.data == [] {
        return Err(EmptyResponse(batchNumber));
      }
      if |response.data| != |batch| {
        return Err(CountMismatch(|response.data|, |batch|));
      }
      var embeddings: seq<seq<real>> := [];
      var k := 0;
      while k < |response.data|
        invariant 0 <= k <= |response.data|
        invariant forall j :: 0 <= j < k ==> response.data[j].Item? && response.data[j].embedding != []
        invariant embeddings == Vectors(response.data[..k])
      {
        var item := response.data[k];
        if item.NoItem? || item.embedding == [] {
          return Err(EmptyEmbedding);
        }
        assert response.data[..k + 1] == response.data[..k] + [item];
        VectorsAppend(response.data[..k], item);
        embeddings := embeddings + [item.embedding];
        k := k + 1;
      }
      assert response.data[..k] == response.data;
      return Ok(embeddings);
    }

    /** `for i, (chunk, embedding) in enumerate(zip(chunks, embeddings))`, appending one record per pair. */
    method AssembleVectors(chunks: seq<Chunk>, embeddings: seq<seq<real>>, courseId: string, documentId: string,
                           uuid: nat -> string) returns (vectors: seq<Record>)
      requires AllHaveContent(chunks)
      ensures vectors == Assembled(chunks, embeddings, courseId, documentId, uuid)
    {
      vectors := [];
      var n := Min(|chunks|, |embeddings|);
      var i := 0;
      while i < n
        invariant 0 <= i <= n
        invariant vectors == Assembled(chunks[..i], embeddings[..i], courseId, documentId, uuid)
      {
        assert chunks[..i + 1][..i] == chunks[..i];
        assert embeddings[..i + 1][..i] == embeddings[..i];
        vectors := vectors + [RecordFor(chunks[i], embeddings[i], i, courseId, documentId, uuid(i))];
        i := i + 1;
      }
      assert chunks[..n] == chunks || embeddings[..n] == embeddings;
      AssembledPrefix(chunks, embeddings, courseId, documentId, uuid);
    }

    /**
      `store_embeddings`: embeds the chunks' contents, pairs them with the
      embeddings into records and hands those to the store; any exception is raised.
    */
    method StoreEmbeddings(chunks: seq<Chunk>, courseId: string, documentId: string, db: Db, isAlnum: char -> bool,
                           embedTexts: seq<string> -> Result<seq<seq<real>>, EmbedError>, uuid: nat -> string)
      returns (r: Result<seq<string>, StoreError>)
      modifies vectorStore
      ensures vectorStore.root == EmbeddingsStored(old(vectorStore.root), chunks, courseId, documentId, db, isAlnum, embedTexts, uuid).root
      ensures r == EmbeddingsStored(old(vectorStore.root), chunks, courseId, documentId, db, isAlnum, embedTexts, uuid).out
    {
      if chunks == [] {
        return Ok([]);
      }
      var i := 0;
      while i < |chunks|
        invariant 0 <= i <= |chunks|
        invariant forall k :: 0 <= k < i ==> chunks[k].content.Some?
      {
        if chunks[i].content.None? {
          return Err(MissingContent);
        }
        i := i + 1;
      }
      var texts := Texts(chunks);
      var embedded := embedTexts(texts);
      if embedded.Err? {
        return Err(EmbedFailed(embedded.error));
      }
      var vectors := AssembleVectors(chunks, embedded.value, courseId, documentId, uuid);
      AssembledSpec(chunks, embedded.value, courseId, documentId, uuid);
      if vectors == [] {
        return Ok([]);
      }
      var records := new Record[|vectors|](k requires 0 <= k < |vectors| => vectors[k]);
      assert records[..] == vectors;
      assert FillIds(vectors, documentId) == vectors;
      var stored := vectorStore.StoreVectors(records, courseId, documentId, db, isAlnum);
      match stored
      case Ok(ids) => return Ok(ids);
      case Err(f) => return Err(StoreFailed(f));
    }
  }

  lemma {:induction false} VectorsAppend(items: seq<EmbeddingItem>, item: EmbeddingItem)
    requires item.Item?
    ensures Vectors(items + [item]) == Vectors(items) + [item.embedding]
  {
  }

  lemma {:induction false} AssembledPrefix(chunks: seq<Chunk>, embeddings: seq<seq<real>>, courseId: string,
                                           documentId: string, uuid: nat -> string)
    requires AllHaveContent(chunks)
    ensures var n := Min(|chunks|, |embeddings|);
      Assembled(chunks[..n], embeddings[..n], courseId, documentId, uuid) == Assembled(chunks, embeddings, courseId, documentId, uuid)
  {
    var n := Min(|chunks|, |embeddings|);
    if n > 0 {
      assert chunks[..n][..n - 1] == chunks[..n - 1];
      assert embeddings[..n][..n - 1] == embeddings[..n - 1];
    }
  }
}
