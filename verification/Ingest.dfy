/**
  The document service on top of cache, database, chunkers and embedding clients: batch insert with its
  checks, and the ingestion pipeline chunk - embed - check - insert.
 */
module Ingest {
  import opened Wrappers
  import opened Texts
  import opened Models
  import opened Store
  import opened Cache
  import FixedSize
  import Sentences
  import Recursive
  import Interleaving
  import Embedding
  import J = Json

  const BATCH_SIZE := 1000

  datatype Error =
    | CollectionIdRequired
    | ContentRequired
    | NoDocuments
    | BatchTooLarge
    | CollectionNotFound
    | NoEmbeddingProvider
    | NoClient
    | EmbeddingFailed
    | DimensionMismatch
    | InsertFailed

  // ---------------------------------------------------------------- chunking strategies

  function ToLower(s: string): (r: string)
    ensures |r| == |s|
  {
    seq(|s|, i requires 0 <= i < |s| => if 'A' <= s[i] <= 'Z' then s[i] + 32 as char else s[i])
  }

  /** The chunks of a named strategy; any other name is the recursive one. */
  function Chunks(strategy: string, content: Text, size: int, overlap: int): seq<Text> {
    var p := Normalise(size, overlap);
    if ToLower(strategy) == "fixed" then FixedSize.Chunks(content, p)
    else if ToLower(strategy) == "sentence" then Sentences.Chunks(content, p)
    else Recursive.Pieces(content, Recursive.DEFAULT_SEPARATORS, p)
  }

  method RunChunker(strategy: string, content: Text, size: int, overlap: int) returns (chunks: seq<Text>)
    ensures chunks == Chunks(strategy, content, size, overlap)
  {
    if ToLower(strategy) == "fixed" {
      chunks := FixedSize.Chunk(content, size, overlap);
    } else if ToLower(strategy) == "sentence" {
      chunks := Sentences.Chunk(content, size, overlap);
    } else {
      chunks := Recursive.Chunk(content, Recursive.DEFAULT_SEPARATORS, size, overlap);
    }
  }

  // ---------------------------------------------------------------- embedding clients

  /** A client answers a list of texts with vectors, or fails. */
  type Client = seq<Text> -> Option<seq<Vec>>

  /** All clients check that there are as many vectors as texts. */
  ghost predicate OnePerText(clients: (string, string) -> Option<Client>) {
    forall provider, model, texts ::
      clients(provider, model).Some? && clients(provider, model).value(texts).Some? ==>
        |clients(provider, model).value(texts).value| == |texts|
  }

  /** What a provider sends back for a list of texts: items with an index, or nothing. */
  type Responder = seq<Text> -> Option<seq<Embedding.Item>>

  /** The items placed by index; an input left without an embedding is a failure. */
  function Placed(respond: Responder, texts: seq<Text>): (r: Option<seq<Vec>>)
    ensures r.Some? ==> |r.value| == |texts|
  {
    if texts == [] then Some([])
    else
      match respond(texts)
      case None => None
      case Some(data) =>
        var results := Embedding.Placement(|texts|, data);
        if Embedding.Populated(results) then Some(results) else None
  }

  function PlacingClient(respond: Responder): Client {
    (texts: seq<Text>) => Placed(respond, texts)
  }

  function PlacingClients(responders: (string, string) -> Option<Responder>): (string, string) -> Option<Client> {
    (provider: string, model: string) =>
      match responders(provider, model)
      case None => None
      case Some(respond) => Some(PlacingClient(respond))
  }

  /** Placing clients keep the promise that is asked of clients. */
  lemma PlacingClientsGiveOnePerText(responders: (string, string) -> Option<Responder>)
    ensures OnePerText(PlacingClients(responders))
  {
    var clients := PlacingClients(responders);
    forall p, m, texts: seq<Text> | clients(p, m).Some? && clients(p, m).value(texts).Some?
      ensures |clients(p, m).value(texts).value| == |texts|
    {
      assert clients(p, m) == Some(PlacingClient(responders(p, m).value));
      assert clients(p, m).value(texts) == Placed(responders(p, m).value, texts);
    }
  }

  // ---------------------------------------------------------------- decisions, as functions of cache and database

  /** Why a batch is refused before the database is asked. */
  function BatchRefusal(info: Option<CollectionInfo>, collectionId: CollectionId, docs: seq<Document>): Option<Error> {
    if collectionId == "" then Some(CollectionIdRequired)
    else if docs == [] then Some(NoDocuments)
    else if |docs| > BATCH_SIZE then Some(BatchTooLarge)
    else if info.None? then Some(CollectionNotFound)
    else if exists i :: 0 <= i < |docs| && |docs[i].vector| != info.value.dimension then Some(DimensionMismatch)
    else None
  }

  /** The request of an ingestion; `ids` are the ids the database happens to generate. */
  datatype IngestRequest = IngestRequest(
    collectionId: CollectionId,
    content: Text,
    metadata: J.Json,
    strategy: string,
    size: int,
    overlap: int,
    ids: nat -> DocumentId)

  function RowAt(q: IngestRequest, chunks: seq<Text>, embeddings: seq<Vec>, i: nat): Document
    requires i < |chunks| == |embeddings|
  {
    Document(q.ids(i), q.collectionId, embeddings[i], q.metadata, chunks[i])
  }

  function ChunkRows(q: IngestRequest, chunks: seq<Text>, embeddings: seq<Vec>): (rows: seq<Document>)
    requires |chunks| == |embeddings|
    ensures |rows| == |chunks| && forall i :: 0 <= i < |rows| ==> rows[i] == RowAt(q, chunks, embeddings, i)
  {
    seq(|chunks|, i requires 0 <= i < |chunks| => RowAt(q, chunks, embeddings, i))
  }

  /** The embeddings of the chunks from the collection's own provider and model. */
  function Embed(clients: (string, string) -> Option<Client>, info: CollectionInfo, chunks: seq<Text>)
      : (r: Result<seq<Vec>, Error>)
    requires OnePerText(clients)
    ensures r.Ok? ==> |r.value| == |chunks|
  {
    match clients(info.embeddingProvider, info.embeddingModel)
    case None => Err(NoClient)
    case Some(client) =>
      match client(chunks)
      case None => Err(EmbeddingFailed)
      case Some(embeddings) =>
        assert clients(info.embeddingProvider, info.embeddingModel).value(chunks).Some?;
        Ok(embeddings)
  }

  /** The rows an ingestion hands to the batch insert, or why it does not get that far. */
  function Prepared(q: IngestRequest, info: Option<CollectionInfo>, clients: (string, string) -> Option<Client>)
      : Result<seq<Document>, Error>
    requires OnePerText(clients)
  {
    if q.collectionId == "" then Err(CollectionIdRequired)
    else if q.content == [] then Err(ContentRequired)
    else if info.None? then Err(CollectionNotFound)
    else if info.value.embeddingProvider == "" then Err(NoEmbeddingProvider)
    else
      var chunks := Chunks(q.strategy, q.content, q.size, q.overlap);
      if chunks == [] then Ok([])
      else
        match Embed(clients, info.value, chunks)
        case Err(e) => Err(e)
        case Ok(embeddings) =>
          if |embeddings[0]| != info.value.dimension then Err(DimensionMismatch)
          else Ok(ChunkRows(q, chunks, embeddings))
  }

  // ---------------------------------------------------------------- outcomes

  /** Answer and database after a batch insert. */
  function BatchInserted(collectionId: CollectionId, docs: seq<Document>, cache: Entries, db: Db): (Result<nat, Error>, Db) {
    match BatchRefusal(Lookup(cache, db, collectionId), collectionId, docs)
    case Some(e) => (Err(e), db)
    case None =>
      if Insertable(db, docs) then (Ok(|docs|), Exec(db, InsertDocuments(docs)).0) else (Err(InsertFailed), db)
  }

  /** Answer and database after an ingestion. */
  function Ingested(q: IngestRequest, cache: Entries, db: Db, clients: (string, string) -> Option<Client>)
      : (Result<nat, Error>, Db)
    requires OnePerText(clients)
  {
    match Prepared(q, Lookup(cache, db, q.collectionId), clients)
    case Err(e) => (Err(e), db)
    case Ok(rows) => if rows == [] then (Ok(0), db) else BatchInserted(q.collectionId, rows, cache, db)
  }

  class DocumentService {
    const db: Database
    const cache: CollectionCache

    constructor (db: Database, cache: CollectionCache)
      ensures this.db == db && this.cache == cache
    {
      this.db, this.cache := db, cache;
    }

    /** Read through the cache; both lookups of the service (dimension and metric, provider and model) do this. */
    method GetCollectionInfo(collectionId: CollectionId) returns (r: Option<CollectionInfo>)
      modifies cache
      ensures r == Lookup(old(cache.cache), db.Value(), collectionId)
      ensures cache.cache == AfterLookup(old(cache.cache), db.Value(), collectionId)
    {
      r := cache.GetInfo(collectionId);
      if r.Some? {
        return;
      }
      if collectionId !in db.collections {
        return None;
      }
      var collection := db.collections[collectionId];
      cache.Insert(collectionId, InfoOf(collection));
      r := Some(InfoOf(collection));
    }

    method BatchInsert(collectionId: CollectionId, documents: seq<Document>) returns (r: Result<nat, Error>)
      modifies db, cache
      ensures (r, db.Value()) == BatchInserted(collectionId, documents, old(cache.cache), old(db.Value()))
    {
      if collectionId == "" {
        return Err(CollectionIdRequired);
      }
      if |documents| == 0 {
        return Err(NoDocuments);
      }
      if |documents| > BATCH_SIZE {
        return Err(BatchTooLarge);
      }
      var info := GetCollectionInfo(collectionId);
      if info.None? {
        return Err(CollectionNotFound);
      }
      for i := 0 to |documents|
        invariant forall j :: 0 <= j < i ==> |documents[j].vector| == info.value.dimension
      {
        if |documents[i].vector| != info.value.dimension {
          return Err(DimensionMismatch);
        }
      }
      var outcome := db.Insert(documents);
      if outcome == Violation {
        return Err(InsertFailed);
      }
      r := Ok(|documents|);
    }

    method IngestDocument(q: IngestRequest, clients: (string, string) -> Option<Client>) returns (r: Result<nat, Error>)
      requires OnePerText(clients)
      modifies db, cache
      ensures (r, db.Value()) == Ingested(q, old(cache.cache), old(db.Value()), clients)
    {
      hide BatchInserted, Chunks;
      if q.collectionId == "" {
        return Err(CollectionIdRequired);
      }
      if |q.content| == 0 {
        return Err(ContentRequired);
      }
      var info := GetCollectionInfo(q.collectionId);
      if info.None? {
        return Err(CollectionNotFound);
      }
      if info.value.embeddingProvider == "" {
        return Err(NoEmbeddingProvider);
      }
      var chunks := RunChunker(q.strategy, q.content, q.size, q.overlap);
      if |chunks| == 0 {
        return Ok(0);
      }
      var embedded := Embed(clients, info.value, chunks);
      if embedded.Err? {
        return Err(embedded.error);
      }
      var embeddings := embedded.value;
      var again := GetCollectionInfo(q.collectionId);
      assert again == info;
      if |embeddings| > 0 && |embeddings[0]| != again.value.dimension {
        return Err(DimensionMismatch);
      }
      var docsToInsert: seq<Document> := [];
      for i := 0 to |chunks|
        invariant |docsToInsert| == i
        invariant forall k :: 0 <= k < i ==> docsToInsert[k] == RowAt(q, chunks, embeddings, k)
      {
        docsToInsert := docsToInsert + [Document(q.ids(i), q.collectionId, embeddings[i], q.metadata, chunks[i])];
      }
      assert docsToInsert == ChunkRows(q, chunks, embeddings);
      BatchAfterLookup(q.collectionId, docsToInsert, old(cache.cache), old(db.Value()));
      r := BatchInsert(q.collectionId, docsToInsert);
    }
  }

  /** Having looked the collection up before changes no outcome. */
  lemma BatchAfterLookup(collectionId: CollectionId, docs: seq<Document>, cache: Entries, db: Db)
    ensures BatchInserted(collectionId, docs, AfterLookup(cache, db, collectionId), db)
         == BatchInserted(collectionId, docs, cache, db)
    ensures var once := AfterLookup(cache, db, collectionId); AfterLookup(once, db, collectionId) == once
  {
    hide Exec, Insertable;
  }

  // ---------------------------------------------------------------- what ingestion guarantees

  lemma PreparedRows(q: IngestRequest, info: Option<CollectionInfo>, clients: (string, string) -> Option<Client>)
    requires OnePerText(clients) && Prepared(q, info, clients).Ok?
    ensures info.Some?
    ensures var chunks := Chunks(q.strategy, q.content, q.size, q.overlap);
            var embedded := Embed(clients, info.value, chunks);
            var rows := Prepared(q, info, clients).value;
            |rows| == |chunks| && (chunks != [] ==> embedded.Ok? && rows == ChunkRows(q, chunks, embedded.value))
  {
    hide Chunks;
  }

  /** Nothing stands in the way of storing these chunks: there are at most a thousand, the collection exists, its
      provider's client answers with vectors of its dimension, and the ids are distinct and unused. */
  ghost predicate Storable(q: IngestRequest, db: Db, info: CollectionInfo, clients: (string, string) -> Option<Client>,
                           chunks: seq<Text>)
  {
    && |chunks| <= 1000 && q.collectionId in db.collections
    && clients(info.embeddingProvider, info.embeddingModel).Some?
    && Fitting(clients(info.embeddingProvider, info.embeddingModel).value(chunks), info.dimension)
    && (forall i :: 0 <= i < |chunks| ==> q.ids(i) !in db.documents)
    && (forall i, j :: 0 <= i < j < |chunks| ==> q.ids(i) != q.ids(j))
  }

  ghost predicate Fitting(vectors: Option<seq<Vec>>, dimension: int) {
    vectors.Some? && forall i :: 0 <= i < |vectors.value| ==> |vectors.value[i]| == dimension
  }

  /** Exactly when a batch insert succeeds; it then stores all of its documents, and otherwise changes nothing. */
  lemma BatchInsertSucceedsIff(collectionId: CollectionId, docs: seq<Document>, cache: Entries, db: Db)
    ensures var (r, after) := BatchInserted(collectionId, docs, cache, db);
            var info := Lookup(cache, db, collectionId);
            && (r.Ok? <==>
                  && collectionId != "" && 1 <= |docs| <= 1000 && info.Some?
                  && (forall i :: 0 <= i < |docs| ==> |docs[i].vector| == info.value.dimension)
                  && (forall i :: 0 <= i < |docs| ==> docs[i].id !in db.documents && docs[i].collectionId in db.collections)
                  && (forall i, j :: 0 <= i < j < |docs| ==> docs[i].id != docs[j].id))
            && (r.Ok? ==> r.value == |docs| && after.documents == db.documents + ById(docs))
            && (r.Err? ==> after == db)
  {
    hide Incremented;
  }

  lemma PreparedIff(q: IngestRequest, info: Option<CollectionInfo>, clients: (string, string) -> Option<Client>)
    requires OnePerText(clients)
    ensures var chunks := Chunks(q.strategy, q.content, q.size, q.overlap);
            Prepared(q, info, clients).Ok? <==>
              && q.collectionId != "" && q.content != [] && info.Some? && info.value.embeddingProvider != ""
              && (chunks != [] ==>
                    && clients(info.value.embeddingProvider, info.value.embeddingModel).Some?
                    && var vectors := clients(info.value.embeddingProvider, info.value.embeddingModel).value(chunks);
                       vectors.Some? && |vectors.value| == |chunks| && |vectors.value[0]| == info.value.dimension)
  {
    hide Chunks;
  }

  /** The rows an ingestion inserts, field by field. */
  lemma PreparedFields(q: IngestRequest, info: Option<CollectionInfo>, clients: (string, string) -> Option<Client>)
    requires OnePerText(clients) && Prepared(q, info, clients).Ok?
    requires Chunks(q.strategy, q.content, q.size, q.overlap) != []
    ensures info.Some? && clients(info.value.embeddingProvider, info.value.embeddingModel).Some?
    ensures var chunks := Chunks(q.strategy, q.content, q.size, q.overlap);
            var vectors := clients(info.value.embeddingProvider, info.value.embeddingModel).value(chunks);
            var rows := Prepared(q, info, clients).value;
            && vectors.Some? && |vectors.value| == |rows| == |chunks|
            && forall i :: 0 <= i < |rows| ==>
                 rows[i] == Document(q.ids(i), q.collectionId, vectors.value[i], q.metadata, chunks[i])
  {
    hide Chunks;
    PreparedIff(q, info, clients);
  }

  /** Exactly when ingestion succeeds, in the terms of its inputs, and what it then answers. */
  lemma IngestionSucceedsIff(q: IngestRequest, cache: Entries, db: Db, clients: (string, string) -> Option<Client>)
    requires OnePerText(clients)
    ensures var (r, after) := Ingested(q, cache, db, clients);
            var chunks := Chunks(q.strategy, q.content, q.size, q.overlap);
            var info := Lookup(cache, db, q.collectionId);
            && (r.Ok? <==> && q.collectionId != "" && q.content != [] && info.Some? && info.value.embeddingProvider != ""
                           && (chunks == [] || Storable(q, db, info.value, clients, chunks)))
            && (r.Ok? ==> r.value == |chunks|)
  {
    hide Exec, Chunks, Prepared, BatchInserted, Lookup, Embed;
    var info, chunks := Lookup(cache, db, q.collectionId), Chunks(q.strategy, q.content, q.size, q.overlap);
    PreparedIff(q, info, clients);
    if Prepared(q, info, clients).Ok? {
      PreparedRows(q, info, clients);
      var rows := Prepared(q, info, clients).value;
      if chunks != [] {
        PreparedFields(q, info, clients);
        BatchInsertSucceedsIff(q.collectionId, rows, cache, db);
        var vectors := clients(info.value.embeddingProvider, info.value.embeddingModel).value(chunks).value;
        assert forall i :: 0 <= i < |rows| ==>
          rows[i].vector == vectors[i] && rows[i].id == q.ids(i) && rows[i].collectionId == q.collectionId;
        RowsMeetIff(rows, vectors, q, db, info.value.dimension);
      }
    }
  }

  lemma RowsMeetIff(rows: seq<Document>, vectors: seq<Vec>, q: IngestRequest, db: Db, dimension: int)
    requires |rows| == |vectors| > 0
    requires forall i :: 0 <= i < |rows| ==>
               rows[i].vector == vectors[i] && rows[i].id == q.ids(i) && rows[i].collectionId == q.collectionId
    ensures (forall i :: 0 <= i < |rows| ==> |rows[i].vector| == dimension)
            <==> (forall i :: 0 <= i < |vectors| ==> |vectors[i]| == dimension)
    ensures (forall i :: 0 <= i < |rows| ==> rows[i].id !in db.documents && rows[i].collectionId in db.collections)
            <==> q.collectionId in db.collections && (forall i :: 0 <= i < |rows| ==> q.ids(i) !in db.documents)
    ensures (forall i, j :: 0 <= i < j < |rows| ==> rows[i].id != rows[j].id)
            <==> (forall i, j :: 0 <= i < j < |rows| ==> q.ids(i) != q.ids(j))
  {
    assert rows[0].collectionId == q.collectionId;
    if forall i :: 0 <= i < |rows| ==> |rows[i].vector| == dimension {
      assert forall i :: 0 <= i < |vectors| ==> |vectors[i]| == |rows[i].vector|;
    }
  }

  /** Every refusal is for the reason it gives, and for the first one there is. */
  lemma RefusalsAreTrue(q: IngestRequest, cache: Entries, db: Db, clients: (string, string) -> Option<Client>)
    requires OnePerText(clients) && Ingested(q, cache, db, clients).0.Err?
    ensures var error := Ingested(q, cache, db, clients).0.error;
            var chunks := Chunks(q.strategy, q.content, q.size, q.overlap);
            if q.collectionId == "" then error == CollectionIdRequired
            else if q.content == [] then error == ContentRequired
            else
              match Lookup(cache, db, q.collectionId)
              case None => error == CollectionNotFound
              case Some(info) =>
                if info.embeddingProvider == "" then error == NoEmbeddingProvider
                else
                  match clients(info.embeddingProvider, info.embeddingModel)
                  case None => error == NoClient
                  case Some(client) =>
                    match client(chunks)
                    case None => error == EmbeddingFailed
                    case Some(vectors) =>
                      if |chunks| > 1000 && |vectors[0]| == info.dimension then error == BatchTooLarge
                      else if !Fitting(Some(vectors), info.dimension) then error == DimensionMismatch
                      else error == InsertFailed
  {
    hide Exec, Chunks, Insertable, ById, Incremented;
    var info, chunks := Lookup(cache, db, q.collectionId), Chunks(q.strategy, q.content, q.size, q.overlap);
    if Prepared(q, info, clients).Ok? {
      assert chunks != [];
      PreparedFields(q, info, clients);
      var vectors := clients(info.value.embeddingProvider, info.value.embeddingModel).value(chunks).value;
      var rows := Prepared(q, info, clients).value;
      assert forall i :: 0 <= i < |rows| ==> rows[i].vector == vectors[i];
    }
  }

  /** Ingestion is aligned and all-or-nothing: on success as many documents are stored as there are chunks, document
      for document the chunk and its own embedding, by the collection's provider and model, under the generated id,
      each of the collection's dimension; on failure the database is as it was. */
  lemma IngestionIsAlignedAndAtomic(q: IngestRequest, cache: Entries, db: Db, clients: (string, string) -> Option<Client>)
    requires OnePerText(clients)
    ensures var (r, after) := Ingested(q, cache, db, clients);
            var chunks := Chunks(q.strategy, q.content, q.size, q.overlap);
            var info := Lookup(cache, db, q.collectionId);
            match r
            case Err(_) => after == db
            case Ok(count) =>
              && count == |chunks| && |after.documents| == |db.documents| + count
              && (forall d :: d in db.documents ==> d in after.documents && after.documents[d] == db.documents[d])
              && (count > 0 ==> info.Some? && Stored(q, after, info.value, clients, chunks))
  {
    hide Exec, Chunks, Embed, Prepared, Lookup, Insertable, Stored;
    var info := Lookup(cache, db, q.collectionId);
    var chunks := Chunks(q.strategy, q.content, q.size, q.overlap);
    if Ingested(q, cache, db, clients).0.Ok? {
      PreparedRows(q, info, clients);
      if chunks != [] {
        PreparedFields(q, info, clients);
        InsertIsAllOrNothing(db, Prepared(q, info, clients).value);
        InsertedDocuments(db, Prepared(q, info, clients).value);
        StoredRows(q, db, info, clients);
      }
    }
  }

  lemma StoredRows(q: IngestRequest, db: Db, info: Option<CollectionInfo>, clients: (string, string) -> Option<Client>)
    requires OnePerText(clients) && Prepared(q, info, clients).Ok?
    requires Chunks(q.strategy, q.content, q.size, q.overlap) != []
    requires Insertable(db, Prepared(q, info, clients).value) && info.Some?
    requires forall i :: 0 <= i < |Prepared(q, info, clients).value| ==>
               |Prepared(q, info, clients).value[i].vector| == info.value.dimension
    ensures var rows := Prepared(q, info, clients).value;
            Stored(q, Exec(db, InsertDocuments(rows)).0, info.value, clients,
                   Chunks(q.strategy, q.content, q.size, q.overlap))
  {
    hide Exec, Chunks, Prepared, Insertable;
    var rows := Prepared(q, info, clients).value;
    PreparedFields(q, info, clients);
    InsertIsAllOrNothing(db, rows);
    InsertedDocuments(db, rows);
    forall i | 0 <= i < |rows|
      ensures rows[i].id == q.ids(i) && rows[i] in rows
    {
    }
  }

  /** Every chunk is in the table with the vector that the collection's provider and model give it. */
  ghost predicate Stored(q: IngestRequest, after: Db, info: CollectionInfo, clients: (string, string) -> Option<Client>,
                         chunks: seq<Text>)
  {
    && clients(info.embeddingProvider, info.embeddingModel).Some?
    && var vectors := clients(info.embeddingProvider, info.embeddingModel).value(chunks);
       vectors.Some? && |vectors.value| == |chunks| &&
       forall i :: 0 <= i < |chunks| ==>
         && q.ids(i) in after.documents
         && after.documents[q.ids(i)] == Document(q.ids(i), q.collectionId, vectors.value[i], q.metadata, chunks[i])
         && |vectors.value[i]| == info.dimension
  }

  /** The names of the strategies, in any mixture of cases; any other name is the recursive one. */
  lemma StrategyNames(content: Text, size: int, overlap: int)
    ensures var p := Normalise(size, overlap);
            && Chunks("fixed", content, size, overlap) == Chunks("FIXED", content, size, overlap)
               == FixedSize.Chunks(content, p)
            && Chunks("sentence", content, size, overlap) == Chunks("Sentence", content, size, overlap)
               == Sentences.Chunks(content, p)
            && Chunks("recursive", content, size, overlap) == Chunks("", content, size, overlap)
               == Chunks("paragraph", content, size, overlap)
               == Recursive.Pieces(content, Recursive.DEFAULT_SEPARATORS, p)
  {
    assert ToLower("fixed") == "fixed" && ToLower("FIXED") == "fixed";
    assert ToLower("sentence") == "sentence" && ToLower("Sentence") == "sentence";
    assert |ToLower("recursive")| == 9 && |ToLower("")| == 0 && |ToLower("paragraph")| == 9;
  }

  /** What ingestion sends is a batch whose rows all carry the validated collection id: the discipline under which stored
      dimensions stay right. */
  lemma IngestionIsDisciplined(q: IngestRequest, s: Interleaving.State, t: Interleaving.ThreadId,
                               info: CollectionInfo, clients: (string, string) -> Option<Client>)
    requires OnePerText(clients) && Prepared(q, Some(info), clients).Ok?
    requires t in s.threads
    requires s.threads[t] ==
      Interleaving.Checked(Interleaving.Batch(q.collectionId, Prepared(q, Some(info), clients).value), info)
    ensures Interleaving.Disciplined(s, Interleaving.Send(t))
  {
    PreparedRows(q, Some(info), clients);
    hide Chunks, Embed, Prepared;
    var rows := Prepared(q, Some(info), clients).value;
    forall r | r in rows
      ensures r.collectionId == q.collectionId
    {
      var i :| 0 <= i < |rows| && rows[i] == r;
    }
  }

  /** Two responders that send the same items, in whatever order, and no ambiguous ones. */
  ghost predicate SameItems(one: Responder, other: Responder) {
    forall texts :: SameResponse(|texts|, one(texts), other(texts))
  }

  ghost predicate SameResponse(n: nat, a: Option<seq<Embedding.Item>>, b: Option<seq<Embedding.Item>>) {
    match (a, b)
    case (None, None) => true
    case (Some(x), Some(y)) => Embedding.Unambiguous(n, x) && multiset(x) == multiset(y)
    case _ => false
  }

  /** The whole pipeline is indifferent to the order in which a provider sends its embeddings. */
  lemma IngestionIgnoresResponseOrder(q: IngestRequest, cache: Entries, db: Db,
                                      one: (string, string) -> Option<Responder>,
                                      other: (string, string) -> Option<Responder>)
    requires forall p, m :: one(p, m).Some? == other(p, m).Some?
    requires forall p, m :: one(p, m).Some? ==> SameItems(one(p, m).value, other(p, m).value)
    ensures OnePerText(PlacingClients(one)) && OnePerText(PlacingClients(other))
    ensures Ingested(q, cache, db, PlacingClients(one)) == Ingested(q, cache, db, PlacingClients(other))
  {
    hide Chunks, BatchInserted;
    PlacingClientsGiveOnePerText(one);
    PlacingClientsGiveOnePerText(other);
    var info := Lookup(cache, db, q.collectionId);
    if info.Some? {
      var p, m := info.value.embeddingProvider, info.value.embeddingModel;
      var chunks := Chunks(q.strategy, q.content, q.size, q.overlap);
      if one(p, m).Some? {
        SameAnswer(one(p, m).value, other(p, m).value, chunks);
      }
      assert Embed(PlacingClients(one), info.value, chunks) == Embed(PlacingClients(other), info.value, chunks);
    }
  }

  lemma SameAnswer(one: Responder, other: Responder, texts: seq<Text>)
    requires SameItems(one, other)
    ensures PlacingClient(one)(texts) == PlacingClient(other)(texts)
  {
    assert SameResponse(|texts|, one(texts), other(texts));
    if one(texts).Some? {
      Embedding.PlacementIgnoresOrder(|texts|, one(texts).value, other(texts).value);
    }
  }

  // ---------------------------------------------------------------- content that comes to nothing

  lemma ChunklessStrategies(q: IngestRequest)
    requires q.content != []
    ensures Chunks(q.strategy, q.content, q.size, q.overlap) == []
            <==> ToLower(q.strategy) == "sentence" && Sentences.Barren(q.content)
  {
    hide Sentences.Barren, Recursive.Pieces;
    var p := Normalise(q.size, q.overlap);
    Sentences.ChunklessIff(q.content, p);
    Recursive.ChunksCoverText(q.content, Recursive.DEFAULT_SEPARATORS, q.size, q.overlap);
    if ToLower(q.strategy) == "fixed" {
      FixedSize.CountWithinLimit(|q.content|, p, 1);
    }
  }

  /** Ingestion reports success with nothing stored exactly for non-empty content that the sentence strategy makes
      nothing of, sent to a collection that is found and has a provider. */
  lemma StoresNothingIff(q: IngestRequest, cache: Entries, db: Db, clients: (string, string) -> Option<Client>)
    requires OnePerText(clients)
    ensures var info := Lookup(cache, db, q.collectionId);
            Ingested(q, cache, db, clients) == (Ok(0), db)
            <==> && q.collectionId != "" && q.content != [] && info.Some? && info.value.embeddingProvider != ""
                 && ToLower(q.strategy) == "sentence" && Sentences.Barren(q.content)
  {
    hide Exec, Insertable, Chunks, Embed, Sentences.Barren;
    if q.content != [] {
      ChunklessStrategies(q);
    }
    var info := Lookup(cache, db, q.collectionId);
    if Prepared(q, info, clients).Ok? {
      PreparedRows(q, info, clients);
    }
  }

  // ---------------------------------------------------------------- the batch limit

  /** With the fixed strategy content of at most `size + 999 * (size - overlap)` bytes (the repaired parameters) is
      never refused for the batch size, longer content is whenever the pipeline gets that far, and nothing is stored
      of longer content. */
  lemma FixedIngestionFitsIff(q: IngestRequest, cache: Entries, db: Db, clients: (string, string) -> Option<Client>)
    requires OnePerText(clients) && ToLower(q.strategy) == "fixed"
    ensures var p := Normalise(q.size, q.overlap);
            var fits := |q.content| <= p.size + 999 * (p.size - p.overlap);
            var (r, after) := Ingested(q, cache, db, clients);
            && (|Chunks(q.strategy, q.content, q.size, q.overlap)| <= BATCH_SIZE <==> fits)
            && (r == Err(BatchTooLarge) <==> !fits && Prepared(q, Lookup(cache, db, q.collectionId), clients).Ok?)
            && (!fits ==> r.Err? && after == db)
  {
    hide Exec, Insertable;
    FixedSize.CountWithinLimit(|q.content|, Normalise(q.size, q.overlap), BATCH_SIZE);
    var info := Lookup(cache, db, q.collectionId);
    if Prepared(q, info, clients).Ok? {
      PreparedRows(q, info, clients);
    }
  }
}
