/** The records of the two tables. */
module Models {
  import opened Wrappers
  import opened Texts
  import J = Json

  type CollectionId = string
  type DocumentId = string
  type Vec = seq<real>

  /** A row of `documents`. */
  datatype Document = Document(
    id: DocumentId,
    collectionId: CollectionId,
    vector: Vec,
    metadata: J.Json,
    content: Text)

  /** A row of `collections`; the embedding columns may be NULL. */
  datatype Collection = Collection(
    name: string,
    dimension: int,
    distanceMetric: string,
    embeddingProvider: Option<string>,
    embeddingModel: Option<string>,
    documentCount: int)

  /** What the service needs to know of a collection; NULL reads as the empty string. */
  datatype CollectionInfo = CollectionInfo(
    dimension: int,
    distanceMetric: string,
    embeddingProvider: string,
    embeddingModel: string)

  function OrEmpty(s: Option<string>): string {
    if s.Some? then s.value else ""
  }

  function InfoOf(c: Collection): CollectionInfo {
    CollectionInfo(c.dimension, c.distanceMetric, OrEmpty(c.embeddingProvider), OrEmpty(c.embeddingModel))
  }
}
