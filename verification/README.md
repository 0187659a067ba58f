# VectorSync in Dafny

A model of the parts of VectorSync whose correctness is decided by its own code rather than by
PostgreSQL, gRPC or an embedding provider, with proofs about all inputs, all schedules and all reachable
states. `dafny verify dfyconfig.toml` checks the project.

## What is modelled

- **Chunking** (`Texts`, `Sequences`, `FixedSize`, `MergeDocs`, `Recursive`, `RecursiveBounds`, `Regex`,
  `Sentences`). Texts are byte sequences, as Go slices them. The three chunkers are methods with the loops
  of the source. Fixed windows are proved against a closed form. The recursive splitter is proved against a
  recursive specification, for which interval coverage, greedy packing and length bounds are then shown.
  The sentence expression has a backtracking semantics of its own, and a one-pass scanner is proved equal to it.
- **Vectors and batch insert** (`Decimal`, `VectorCodec`, `SerializerPool`, `BatchQuery`, `BatchPath`). The
  text form of vectors and its parser; the goroutines that share a pool of string builders, as a state
  machine over builders, buffers and string views, with other requests using the same pool; the statement text
  with its numbered placeholders and a reader for it; and all of that put together.
- **Searching** (`Json`, `Ranking`, `Search`, `HybridSearch`). Queries are abstract syntax with placeholder
  numbers and an argument list; an evaluator runs them on a finite table by exact scan, ties in table order.
  Distances, full-text matching and rank are parameters.
- **Storing** (`Models`, `Store`). The two tables as a class updated in place by the statements, the cascade
  and the statement-level triggers, proved against a transition function on values.
- **Caching** (`Cache`, `Interleaving`). The cache as a class, and requests, cache fills, warm-up, collection
  creation and deletion as interleaved steps with a history of created collections.
- **The service** (`Embedding`, `Ingest`). Read-through lookups, batch insert and ingestion as methods over cache and
  database, and the placement of embeddings by index.

## What the proofs say about the code

- A chunk of the recursive splitter can be longer than the requested size. For text without stray blanks
  the bound is `size` when no overlap is asked for and `size + overlap + 2` otherwise. A text of two words with an
  empty line between them reaches that bound for every size and positive overlap, and `size` itself is a bound exactly
  when the overlap is 0. A blank in front of the text is enough to exceed the size without an overlap: " w w" comes
  back whole although it is one byte too long, because packing forgets the separator behind an empty first part. Runs
  of empty lines are not bounded at all: any even number of newlines comes back whole as one of its own chunks.
- No word is cut exactly when every word is within the size, and no chunk ever holds a word longer than that.
- The sentence expression drops text exactly when the text starts with punctuation or some run of punctuation
  is followed by anything but the end, or blanks that lead to the end or to a non-punctuation character ("a.b" loses
  "a.").
- Non-empty text can come to no chunk at all, and ingesting it with the sentence strategy then reports success with
  nothing stored. This happens exactly when the text does not end in punctuation, nothing but blanks follows its last
  punctuation, and no run of punctuation, other than one that starts the text, has a blank of the expression right
  behind it: blank text, a full stop and a blank, or a letter, a full stop and a vertical tab (a blank for
  trimming but not for the expression).
- An upsert that meets a document of another collection checks the vector against the named collection and
  stores it in the other one. Stored dimensions stay right exactly as long as the two dimensions agree; a run
  in which they do not is given.
- A deleted collection that is still cached goes on being found by the service, as a run of five steps shows; for live
  collections the cache always agrees with the database.
- Placing embeddings by index makes the order of a provider's response irrelevant exactly when the response holds no
  two different embeddings for one input.
- The repository's documentation (`docs/api-reference/documents.mdx`) calls `chunk_size` a maximum in characters and
  gives both 50 and 0 as the default overlap. The code counts bytes, can exceed the size, and defaults to 0; the model
  follows the code.

## Model

| member | source | states |
|---|---|---|
| Sequences.JoinSplit | internal/chunker/chunker.go:151 | joining the parts of a split gives the text back, for every text and non-empty separator |
| Sequences.SplitPartsAreClean | internal/chunker/chunker.go:151 | no part of a split still holds the separator |
| Sequences.JoinWindow | internal/chunker/chunker.go:188-211 | joining a contiguous window of the parts is a slice of the text, and one separator follows it unless it ends the text |
| Sequences.SplitJoin | internal/db/document_repo.go:190-191 | splitting on one element inverts joining with it when no part holds that element |
| Sequences.TrimKeepsTheMiddle | internal/chunker/chunker.go:76 | trimming keeps a slice and removes blanks only, for both notions of text that are trimmed |
| Texts.Normalise | internal/chunker/chunker.go:17-25 | repaired parameters always satisfy 1 <= size and 0 <= overlap < size; a missing size becomes 500, a negative overlap 0, an overlap of the size or more half the size, and valid parameters are left alone |
| FixedSize.Chunk | internal/chunker/chunker.go:16-46 | the loop computes the closed form: window k is text[k*step .. min(k*step+size, len)), and their number is 1 or 1 + ceil((len-size)/step) |
| FixedSize.WindowStartsInside | internal/chunker/chunker.go:33-44 | every window starts inside the text, later ones more than the overlap before its end, and exactly the last reaches the end |
| FixedSize.Reconstruction | internal/chunker/chunker.go:27-45 | first chunk plus every later chunk without its first `overlap` bytes is the text; later chunks are longer than the overlap; all but the last have full size |
| FixedSize.CountWithinLimit | internal/chunker/chunker.go:33-44 | at most `limit` chunks if and only if len <= size + (limit-1)*(size-overlap) |
| MergeDocs.Merge | internal/chunker/chunker.go:181-214 | the loop with block and counter emits the joined windows of the specification |
| MergeDocs.TrimBlock | internal/chunker/chunker.go:192-198 | the overlap loop shortens block and counter in step |
| MergeDocs.WindowsContiguous | internal/chunker/chunker.go:186-211 | for all documents, empty ones included, windows start at the first and end at the last document, left ends never move back, right ends advance, nothing is skipped |
| MergeDocs.LedgerGrows | internal/chunker/chunker.go:201-206 | the counter stays equal to the joined length of the block, empty documents included, if and only if the block is not a single empty document |
| MergeDocs.TrimKeepsLongest | internal/chunker/chunker.go:192-198 | what is kept at a flush is the longest document-aligned suffix whose joined length is within the overlap |
| MergeDocs.MergeIsGreedy | internal/chunker/chunker.go:186-211 | a list of windows that start with non-empty documents is greedy packing (no counter mentioned) if and only if it is the one the loop emits, whatever empty documents there are elsewhere |
| MergeDocs.FirstWindowIsLongestPrefix | internal/chunker/chunker.go:186-211 | if the first document is not empty, the first window is the longest prefix whose joined length is within the size, or one document |
| MergeDocs.EmptyStartOverflows | internal/chunker/chunker.go:202-206 | with an empty first document a chunk outgrows the size by a separator, without any overlap |
| MergeDocs.MergedBound | internal/chunker/chunker.go:186-211 | with non-empty documents of at most `size`, every chunk is at most size + overlap + len(separator), and at most size without overlap |
| MergeDocs.OverlapOverflows | internal/chunker/chunker.go:189-206 | for every size, positive overlap and separator that bound is reached |
| Recursive.Chunk | internal/chunker/chunker.go:113-125 | repairs the parameters, then splits with the whole hierarchy |
| Recursive.SplitText | internal/chunker/chunker.go:127-179 | the loops over separators and parts compute the recursive specification; terminates because the hierarchy shrinks |
| Recursive.FirstSeparator | internal/chunker/chunker.go:136-142 | the separator chosen occurs in the text and none before it does |
| Recursive.ChunksCoverText | internal/chunker/chunker.go:127-214 | for every text, parameters and hierarchy: chunks are slices that run from the first byte to the last, left ends never move back, right ends advance, and any gap is exactly one separator of the hierarchy |
| Recursive.NoWordIsCutIff | internal/chunker/chunker.go:127-179 | with the service's separators the chunks can be located in the text with every end at a blank or an end of the text if and only if no run of non-blank bytes is longer than the size |
| Recursive.ChunkWords | internal/chunker/chunker.go:127-214 | no chunk of any text holds a run of non-blank bytes longer than the size |
| Recursive.LargeTextIsCutByParts | internal/chunker/chunker.go:136-176 | of a large text, each part over the size contributes what the rest of the hierarchy makes of it, and each run of parts within the size between them what packing makes of it |
| Recursive.UncutOrWindows | internal/chunker/chunker.go:128-148 | a text within the size is not cut, a larger one without blanks is cut into the fixed windows |
| Recursive.ChunkLengthBound | internal/chunker/chunker.go:107-214 | when every split leaves non-empty parts, chunks are non-empty and at most size (no overlap) or size + overlap + 2 |
| RecursiveBounds.TidyTextBound | internal/chunker/chunker.go:107-214 | the same for every text with no blank at its ends and only single blanks or empty lines inside, a condition a caller can check |
| RecursiveBounds.ShortThenFullOverflows | internal/chunker/chunker.go:107-214 | for every size and positive overlap a tidy text has a chunk of size + overlap + 2 bytes, so the bound is tight |
| RecursiveBounds.SizeRespectedIffNoOverlap | internal/chunker/chunker.go:113-214 | all chunks of all tidy texts are within the size if and only if the overlap is 0 |
| RecursiveBounds.LeadingBlankOverflows | internal/chunker/chunker.go:189-206 | for every word, a blank, the word, a blank and the word come back whole at a size one byte below their length |
| RecursiveBounds.NewlineRunStaysWhole | internal/chunker/chunker.go:187-206 | any even number of newlines is one of its own chunks, whatever the parameters |
| Regex.ScanIsFindAll | internal/chunker/chunker.go:62-64 | a one-pass scanner finds exactly the leftmost-first matches of the sentence expression |
| Regex.SentenceBreakIff | internal/chunker/chunker.go:62-64 | between two letters, exactly a full stop, exclamation or question mark with one of five white space bytes behind it ends a sentence |
| Regex.LosslessIff | internal/chunker/chunker.go:62-64 | the matches concatenate to the text if and only if it starts without punctuation and every run of punctuation is followed by the end or by blanks leading to the end or to non-punctuation |
| Regex.InnerPunctuationIsLost | internal/chunker/chunker.go:62-64 | of "a.b" only "b" is matched |
| Regex.NoMatchIff | internal/chunker/chunker.go:62-65 | nothing is matched if and only if there is nothing but punctuation |
| Sentences.Chunk | internal/chunker/chunker.go:51-100 | matching, trimming and packing as specified, with the two answers for texts without a match |
| Sentences.PackSentences | internal/chunker/chunker.go:72-99 | the loop with the string builder emits the joined groups |
| Sentences.SentencesAreSlices | internal/chunker/chunker.go:62-79 | the packed sentences are slices of the text, in order, without blanks at their ends; of the matches only blanks are dropped, and of the whole text too if the expression loses nothing |
| Sentences.PunctuationAlone | internal/chunker/chunker.go:65-70 | a non-empty text without a match is one of the three marks only, and comes back whole |
| Sentences.PackingIsGreedy | internal/chunker/chunker.go:75-97 | a grouping of the trimmed non-empty matches, in order, is greedy if and only if it is the one the loop makes |
| Sentences.GroupLength | internal/chunker/chunker.go:81-92 | a chunk of several sentences is at most one byte over the size, and is over it exactly when the last sentence filled the size to the byte |
| Sentences.ChunksAreGreedy | internal/chunker/chunker.go:51-100 | the chunks of any text with a match are the joined groups of that greedy packing, single sentences or at most size + 1 long |
| Sentences.ChunklessIff | internal/chunker/chunker.go:51-100 | byte for byte which texts yield no chunk: the empty one, and those that do not end in punctuation, have only blanks after their last punctuation, and no blank of the expression right behind a run of punctuation that does not start the text |
| Sentences.BlankTextYieldsNothing | internal/chunker/chunker.go:72-79 | text of blanks alone yields no chunk |
| Sentences.StopAndBlankYieldNothing | internal/chunker/chunker.go:62-79 | a full stop and a blank yield no chunk, with a letter in front they do; a letter, a full stop and a vertical tab yield none |
| Decimal.ReadDigits | internal/db/document_repo.go:651-665 | a printed number followed by a non-digit is read back, and nothing more |
| Decimal.DigitsAppend | internal/db/document_repo.go:659-665 | appending a digit to the notation multiplies by ten and adds |
| VectorCodec.VectorToString | internal/db/document_repo.go:161-178 | the builder loop prints the bracketed, comma-joined elements |
| VectorCodec.PrintedText | internal/db/document_repo.go:161-178 | the very text of vectors of none, one and three elements |
| VectorCodec.StringToVector | internal/db/document_repo.go:180-203 | the parsing loop computes the specified vector or error |
| VectorCodec.RoundTrip | internal/db/document_repo.go:161-203 | every finite vector, the empty one included, is parsed back from its printed form |
| VectorCodec.PrintingIsInjective | internal/db/document_repo.go:161-178 | different finite vectors print differently |
| VectorCodec.BlanksDoNotMatter | internal/db/document_repo.go:180-203 | numbers with blanks around them are read alike, with the brackets or without |
| VectorCodec.FailsAtFirstBadPart | internal/db/document_repo.go:194-200 | parsing fails exactly when some part does not parse, and names the first |
| VectorCodec.DecCodecIsFaithful | internal/db/document_repo.go:172 | the promise about printing one number is met by decimal fractions |
| SerializerPool.PrepareInline | internal/db/document_repo.go:629-634 | the sequential branch serialises each document into its slot |
| SerializerPool.PiecesMakeThePrintedVector | internal/db/document_repo.go:167-175 | the builder's write calls add up to the printed vector |
| SerializerPool.InvHolds | internal/db/document_repo.go:155-178 | every schedule, with any steps of other requests on the same pool before and in between, keeps builders exclusive, buffers unshared, and every goroutine's bytes equal to what it has written |
| SerializerPool.ParallelIsSequential | internal/db/document_repo.go:606-634 | for every schedule, whatever other requests do with the pool, at wg.Wait the slots are those of the sequential branch |
| SerializerPool.BuilderHasOneUser | internal/db/document_repo.go:155-176 | in every reachable state a builder has at most one holder, goroutine or other request, and is not in the pool at the same time |
| SerializerPool.ReturnedStringsAreStable | internal/db/document_repo.go:163-177 | no step changes a string already returned, although it shares its builder's buffer |
| SerializerPool.NeverStuck | internal/db/document_repo.go:618-628 | in every reachable state each unfinished goroutine has an enabled step |
| BatchQuery.BuildInsert | internal/db/document_repo.go:643-675 | the loop writes the statement text and the argument list of the specification |
| BatchQuery.InsertMeansRows | internal/db/document_repo.go:643-672 | for n >= 1 the text parses to its column names and n groups, the placeholders are exactly $1..$4n in order, and bound by column name to the arguments they are the rows |
| BatchQuery.ParsesIffNotEmpty | internal/db/document_repo.go:646-675 | the text is a statement if and only if there is at least one row |
| BatchPath.BuildStatement | internal/db/document_repo.go:636-675 | the first marshalling error is reported, otherwise statement and arguments are built from all slots |
| BatchPath.BatchArrivesIntact | internal/db/document_repo.go:604-680 | for every schedule, the database reads from the built statement each document's collection, content, metadata and vector |
| Json.PerKeyIsWholeFilter | internal/db/document_repo.go:388-399 | in every map order the per-key containment tests equal containment of the whole filter, except for an empty filter on metadata that is no object |
| Json.ContainsOnwards | internal/db/document_repo.go:388-399 | the containment the filters are tested with is transitive |
| Json.ArrayContainsItsItems | internal/db/document_repo.go:388-399 | in arrays order and repetition do not matter to it |
| Json.ScalarIsContainedIff | internal/db/document_repo.go:388-399 | a scalar is contained in an array if and only if it is one of its items |
| Search.BuildSearch | internal/db/document_repo.go:364-410 | the argument-numbering code builds the specified query and arguments |
| Search.SearchPlaceholdersInOrder | internal/db/document_repo.go:370-410 | the placeholders are exactly 1..len(args), in the order of the text |
| Search.SearchAnswers | internal/db/document_repo.go:364-413 | for every filter and map order, query and arguments answer: wanted documents at or above the threshold, nearest first, at most topK |
| Search.Score | internal/db/document_repo.go:29-40 | 1/(1+d) for euclidean, -d for inner product, 1-d otherwise |
| Search.ScoreDecreases | internal/db/document_repo.go:18-40 | for every metric, smaller distance means strictly higher score, both ways |
| Search.ThresholdedSearchIsLeadingPart | internal/db/document_repo.go:401-410 | a search with a positive threshold returns the leading results, down to that score, of the search without |
| Search.ThresholdedQueryIsLeadingPart | internal/db/document_repo.go:385-413 | the same for the queries as built, even if the two calls visit the filter map in different orders |
| Search.SearchReturnsTheBest | internal/db/document_repo.go:401-410 | with any threshold or none: scores never rise, stay at or above a positive threshold, no omitted matching document beats a returned one, and documents are omitted only at topK |
| Search.SearchMeans | internal/db/document_repo.go:18-40 | in the engine's own operators: the query as sent answers qualifying documents only, with the score of the metric, nearest first, at most topK; and each qualifying document is answered or the limit is used up by nearer ones |
| HybridSearch.BuildHybrid | internal/db/document_repo.go:788-863 | both arms build the specified query and arguments |
| HybridSearch.HybridPlaceholdersInOrder | internal/db/document_repo.go:804-863 | in both arms the placeholders are exactly 1..len(args) |
| HybridSearch.HybridAnswers | internal/db/document_repo.go:804-866 | both arms answer the documents ranked by text weight times rank plus vector weight times score |
| HybridSearch.HybridMeans | internal/db/document_repo.go:804-866 | the same for both arms: text match and rank, the metric's score and the two weights, best first |
| HybridSearch.NormaliseWeights | internal/services/document_service.go:488-498 | each normalised weight times the sum of both is the weight given, the two add up to 1, and two equal weights, zeros included, become equal |
| HybridSearch.NormalisingKeepsTheRanking | internal/services/document_service.go:488-498 | normalising changes neither documents nor order, and divides every score by the sum |
| HybridSearch.HybridWithoutTextIsSearch | internal/db/document_repo.go:821-863 | with no text and positive vector weight: same documents and order as a search without threshold, scores times that weight |
| HybridSearch.HybridWithoutTextOrWeight | internal/db/document_repo.go:821-863 | with no text and no vector weight: all scores 0 and table order, whatever the distances |
| Store.GroupCounts | migrations/003_create_documents.up.sql:43-47 | the loop over the transition table yields one group for each collection that owns a row, with the number of its rows |
| Store.Database.IncrementDocumentCount | migrations/003_create_documents.up.sql:36-50 | updating collections group by group leaves every collection in place and changes nothing but its count, by the number of new rows it owns |
| Store.Database.DecrementDocumentCount | migrations/003_create_documents.up.sql:52-66 | updating collections group by group leaves every collection in place and changes nothing but its count, by the number of deleted rows it owned |
| Store.Database.Insert | internal/db/document_repo.go:680-724 | the whole new state of the tables, or a violation and no change |
| Store.Database.Upsert | internal/db/document_repo.go:113-122 | inserts, or on conflict replaces vector, metadata and content and keeps the collection; says which |
| Store.Database.Delete | internal/db/document_repo.go:331-352 | removes one document or reports that there was none |
| Store.Database.BatchDelete | internal/db/document_repo.go:729-738 | removes the listed documents of the collection |
| Store.Database.Create | internal/db/collection_repo.go:38-82 | adds a collection with count 0 and defaults, or a constraint violation and no change |
| Store.Database.DropCollection | internal/db/collection_repo.go:196-206 | removes the collection, cascades, fires the delete trigger, returns the stored count |
| Store.StatementKeepsCounts | migrations/003_create_documents.up.sql:36-79 | every statement keeps each document_count equal to the number of documents owned |
| Store.ReachableIsConsistent | migrations/003_create_documents.up.sql:3-79 | in every reachable state counts are exact, documents belong to existing collections, names are unique, dimensions positive |
| Store.DeleteCollectionReportsCascade | internal/db/collection_repo.go:196-217 | the returned count is exactly the number of documents the cascade removed, and nothing else changes |
| Store.DeleteUndoesInsert | internal/db/document_repo.go:51-69 | deleting an inserted document restores both tables, counts included |
| Store.InsertIsAllOrNothing | internal/db/document_repo.go:587-724 | a batch is stored row by row as given, or nothing changes |
| Store.CreateIsExact | internal/db/collection_repo.go:38-82 | exactly when a collection is created, and every column it then has, in the terms of the request |
| Store.DeleteIsExact | internal/db/document_repo.go:331-352 | a delete removes one existing document and lowers one count by one, or does nothing |
| Store.UpsertedDocuments | internal/db/document_repo.go:113-122 | an upsert changes one row, which becomes the given one except that a conflicting row keeps its collection |
| Store.BatchDeleteIsExact | internal/db/document_repo.go:727-738 | exactly the listed documents of the collection go; listed documents of other collections and other counts stay |
| Cache.CollectionCache.Insert | internal/db/collection_cache.go:48-59 | sets one entry |
| Cache.CollectionCache.GetInfo | internal/db/collection_cache.go:81-96 | the entry, or that there is none |
| Cache.CollectionCache.Delete | internal/db/collection_cache.go:98-104 | removes one entry |
| Cache.CollectionCache.WarmFromDB | internal/db/collection_cache.go:106-142 | stores the rows up to the first that cannot be scanned, NULL as empty string |
| Cache.WarmedEntries | internal/db/collection_cache.go:119-141 | after warming, each entry is what some row says or what it was |
| Cache.LookupFills | internal/services/document_service.go:45-61 | a lookup changes no later answer, and leaves what it found, and nothing else, in the cache |
| Interleaving.MetadataIsImmutable | internal/db/collection_repo.go:38-82 | no statement changes a collection's dimension, metric, provider or model |
| Interleaving.RunsAreCoherent | internal/services/document_service.go:45-61 | in every interleaving, live collections, cache entries and everything in flight agree with what collections were created with |
| Interleaving.CacheAgreesIff | internal/services/document_service.go:45-61 | a lookup through the cache answers what the database would if and only if the collection is not both cached and deleted |
| Interleaving.LookupAnswersTheRequest | internal/services/document_service.go:45-61 | in every run, what a lookup answers is field for field what some creation of that id asked for, and live collections are found |
| Interleaving.DeletedCollectionStaysCached | internal/services/document_service.go:45-61 | a run after which a deleted collection is cached and a lookup differs from the database |
| Interleaving.WarmUpServesHits | internal/db/collection_cache.go:106-142 | a run in which the warm-up fills the cache and a later request is served from it |
| Interleaving.InFlightIsCurrent | internal/services/document_service.go:592-608 | metadata a request fetched at any time is still right if its collection is live |
| Interleaving.StepKeepsDimensionsIff | internal/services/document_service.go:76-89 | a step keeps all stored dimensions right if and only if it is not a write whose validated dimension differs from that of the collection that ends up owning the vector |
| Interleaving.UpsertCanStoreTheWrongDimension | internal/db/document_repo.go:116-120 | a run from the empty database, with all stored dimensions right, whose next step is a validated upsert that stores a vector of the wrong dimension |
| Interleaving.StoredDimensionsAreRight | internal/services/document_service.go:133-139 | in every run with disciplined writes each stored vector has its collection's dimension, despite stale caches |
| Interleaving.SearchMeetsOneDimension | internal/services/document_service.go:267-280 | in such runs a checked search meets only documents of its query's dimension |
| Embedding.Place | internal/embedding/openai.go:111-127 | every input gets the last embedding sent for its index, or the first input without one is reported |
| Embedding.LastItemWins | internal/embedding/openai.go:113-118 | of several items for one input the last counts |
| Embedding.PlacementIgnoresOrder | internal/embedding/openai.go:111-118 | any order of a response without contradicting embeddings for one input is placed alike; out-of-range indices do not matter |
| Embedding.OrderIsIgnoredIff | internal/embedding/openai.go:111-118 | the order of a response does not matter if and only if it has no two different embeddings for one input |
| Embedding.AcceptedIffComplete | internal/embedding/openai.go:113-127 | such a response is accepted if and only if every input has a non-empty embedding, and each gets its own |
| Ingest.RunChunker | internal/chunker/chunker.go:216-228 | the strategy name, whatever its case, selects the chunker; unknown names mean recursive |
| Ingest.StrategyNames | internal/chunker/chunker.go:216-228 | the three names in different cases, and others, select the chunkers |
| Ingest.BatchInsertSucceedsIff | internal/services/document_service.go:360-396 | exactly when a batch insert succeeds, in the terms of its inputs, what it answers and stores, and that it otherwise changes nothing |
| Ingest.IngestionSucceedsIff | internal/services/document_service.go:515-590 | exactly when ingestion succeeds, in the terms of its inputs, and that it then answers the number of chunks |
| Ingest.RefusalsAreTrue | internal/services/document_service.go:515-590 | each refusal is for the first reason there is, from a missing id to a refused insert |
| Ingest.PlacingClientsGiveOnePerText | internal/embedding/openai.go:111-128 | a client that places by index and rejects gaps answers one vector per text, as ingestion relies on |
| Ingest.DocumentService.GetCollectionInfo | internal/services/document_service.go:45-61 | answers from the cache or the database, and fills the cache on a miss |
| Ingest.DocumentService.BatchInsert | internal/services/document_service.go:360-396 | the refusals in order, otherwise the insert; answer and tables are exactly those of the specification |
| Ingest.DocumentService.IngestDocument | internal/services/document_service.go:515-590 | the pipeline's answer and tables are exactly those of the specification, for every failure point |
| Ingest.IngestionIsAlignedAndAtomic | internal/services/document_service.go:515-590 | on success one document per chunk, with that chunk, its own embedding by the collection's provider and model, the metadata and the collection id, of the collection's dimension; on failure nothing stored |
| Ingest.IngestionIsDisciplined | internal/services/document_service.go:567-579 | what ingestion sends meets the discipline under which stored dimensions stay right |
| Ingest.IngestionIgnoresResponseOrder | internal/embedding/openai.go:111-128 | through the whole pipeline: responses that differ in order alone give the same answer and the same tables |
| Ingest.StoresNothingIff | internal/services/document_service.go:515-590 | ingestion reports success with nothing stored if and only if the content is non-empty but barren, the strategy is sentence, and the collection is found and has a provider |
| Ingest.FixedIngestionFitsIff | internal/services/document_service.go:370-373 | with the fixed strategy the batch is refused as too large if and only if len(content) > size + 999*(size-overlap) and nothing failed before it; above that bound nothing is stored |

## Left out

- gRPC handlers, gateway, generated code, metrics, logging, configuration and health checks: plumbing.
- HTTP calls to the embedding providers and JSON decoding: a client is a function whose success means one vector per text.
- PostgreSQL internals: statements are atomic, ranking is an exact scan with ties in table order, `ts_rank` and distances are parameters. Creating and dropping HNSW indexes changes no logical state.
- float32 rounding, NaN and infinities: vectors in the store, scores and weights are reals; the codec covers finite values.
- The order in which RETURNING delivers rows: SQL does not promise one, so ingestion returns the count and not the list of ids.
- pgvector's own refusals (empty vectors, too many dimensions, vectors of different length in one comparison) and column length limits.
- List, get, full-text search, pagination and the one-branch checks of limits and required fields: easy members.
- Created and updated timestamps.
- UTF-8 boundaries and non-ASCII white space or letters: texts are bytes, trimming and lower-casing are ASCII.
- Machine integers: sizes, offsets and counts are unbounded.
- VectorCodec.DecCodecIsFaithful: shows that the promise about printing one number can be met, for decimal fractions; that strconv's shortest float32 form meets it is taken from strconv's documentation.
- SerializerPool.NeverStuck: shows that no schedule blocks, not that the scheduler is fair.
- Interleaving.StoredDimensionsAreRight: relies on ids of new collections never repeating, as gen_random_uuid gives them.
- BatchQuery.InsertMeansRows: arguments are strings; the driver's encoding of the four argument types is not part of this model.
- MergeDocs.MergeIsGreedy: where a window starts with an empty document the counter is no length and packing is not greedy (EmptyStartOverflows); greedy packing is stated for windows that do not, contiguity for all.
