/** From documents to the statement and back: serialisation, statement building and the database's reading together. */
module BatchPath {
  import opened Wrappers
  import opened VectorCodec
  import SerializerPool
  import BatchQuery

  /** A document of a batch, in the caller's terms. */
  datatype Input<F, M> = Input(collectionId: string, vector: seq<F>, metadata: M, content: string)

  /** `marshal` fails with None. */
  type Marshal<!M> = M -> Option<string>

  function JobOf<F(!new), M>(c: Codec<F>, marshal: Marshal<M>, docs: seq<Input<F, M>>)
      : SerializerPool.Job<F, M, Option<string>>
  {
    SerializerPool.Job(c, marshal,
      seq(|docs|, i requires 0 <= i < |docs| => SerializerPool.Doc(docs[i].vector, docs[i].metadata)))
  }

  predicate AllMarshalled(prepped: seq<SerializerPool.Slot<Option<string>>>) {
    forall i :: 0 <= i < |prepped| ==> prepped[i].metadataJson.Some?
  }

  /** The slots are checked for marshalling errors before the statement is built; the first one is reported. */
  method BuildStatement<F(!new), M>(docs: seq<Input<F, M>>, prepped: seq<SerializerPool.Slot<Option<string>>>)
      returns (r: Result<(string, seq<string>), nat>)
    requires |prepped| == |docs|
    ensures r.Err? ==> r.error < |docs| && prepped[r.error].metadataJson == None
                       && forall i :: 0 <= i < r.error ==> prepped[i].metadataJson.Some?
    ensures r.Ok? ==>
              AllMarshalled(prepped) && r.value == (BatchQuery.QueryText(|docs|), BatchQuery.Args(RowsOf(docs, prepped)))
  {
    for i := 0 to |prepped|
      invariant forall k :: 0 <= k < i ==> prepped[k].metadataJson.Some?
    {
      if prepped[i].metadataJson.None? {
        return Err(i);
      }
    }
    var query, contents := BatchQuery.BuildInsert(RowsOf(docs, prepped));
    r := Ok((query, contents));
  }

  function RowsOf<F(!new), M>(docs: seq<Input<F, M>>, prepped: seq<SerializerPool.Slot<Option<string>>>)
    : (rows: seq<BatchQuery.Row>)
    requires |prepped| == |docs| && AllMarshalled(prepped)
    ensures |rows| == |docs|
  {
    seq(|docs|, i requires 0 <= i < |docs| =>
      BatchQuery.Row(docs[i].collectionId, prepped[i].vectorStr, prepped[i].metadataJson.value, docs[i].content))
  }

  /** The rows the database reads from a statement and its arguments. */
  function Understood(query: string, args: seq<string>): seq<Option<BatchQuery.Row>> {
    match BatchQuery.ParseInsert(query)
    case None => []
    case Some(s) =>
      seq(|s.groups|, i requires 0 <= i < |s.groups| => BatchQuery.Bind(s.columns, s.groups[i], args))
  }

  /** The row holds the document: its collection, content and metadata, and a vector text that reads back to its vector. */
  ghost predicate Holds<F(!new), M>(row: Option<BatchQuery.Row>, c: Codec<F>, marshal: Marshal<M>, doc: Input<F, M>) {
    && row.Some? && row.value.collectionId == doc.collectionId && row.value.content == doc.content
    && Some(row.value.metadataJson) == marshal(doc.metadata)
    && Parsed(c, row.value.vectorStr) == Ok(doc.vector)
  }

  /** The database reads exactly these rows from the statement built for them. */
  ghost predicate ReadBack(rows: seq<BatchQuery.Row>) {
    var read := Understood(BatchQuery.QueryText(|rows|), BatchQuery.Args(rows));
    |read| == |rows| && forall i :: 0 <= i < |rows| ==> read[i] == Some(rows[i])
  }

  /** The database reads the documents of the batch, row by row, from the statement built of the slots. */
  ghost predicate Intact<F(!new), M>(c: Codec<F>, marshal: Marshal<M>, docs: seq<Input<F, M>>,
                                     prepped: seq<SerializerPool.Slot<Option<string>>>) {
    && |prepped| == |docs| && AllMarshalled(prepped)
    && var read := Understood(BatchQuery.QueryText(|docs|), BatchQuery.Args(RowsOf(docs, prepped)));
       |read| == |docs| && forall i :: 0 <= i < |docs| ==> Holds(read[i], c, marshal, docs[i])
  }

  lemma StatementIsUnderstood(rows: seq<BatchQuery.Row>)
    requires rows != []
    ensures ReadBack(rows)
  {
    hide BatchQuery.ParseInsert, BatchQuery.QueryText, BatchQuery.Args, BatchQuery.Bind;
    BatchQuery.InsertMeansRows(rows);
  }

  /** The whole path, for every schedule of the goroutines: from what they leave behind a statement is built from which the
      database reads, row by row, the documents of the batch. */
  lemma BatchArrivesIntact<F(!new), M>(c: Codec<F>, marshal: Marshal<M>, docs: seq<Input<F, M>>,
                                       schedule: seq<SerializerPool.Step>, prepped: seq<SerializerPool.Slot<Option<string>>>)
    requires c.Faithful() && docs != []
    requires forall k :: 0 <= k < |docs| ==> Finite(c, docs[k].vector) && marshal(docs[k].metadata).Some?
    requires var end := SerializerPool.Run(JobOf(c, marshal, docs), schedule);
             && end.Some? && SerializerPool.AllFinished(end.value)
             && (forall w :: 0 <= w < |end.value.pcs| ==> SerializerPool.Filled(end.value, w))
             && prepped == SerializerPool.Collected(end.value)
    ensures Intact(c, marshal, docs, prepped)
  {
    hide SerializerPool.Run, SerializerPool.Filled, SerializerPool.SlotOf;
    hide BatchQuery.QueryText, BatchQuery.Args, Understood, Parsed, Printed;
    var job := JobOf(c, marshal, docs);
    SerializerPool.ParallelIsSequential(job, schedule);
    assert forall k :: 0 <= k < |docs| ==> prepped[k] == SerializerPool.Serialised(job, k);
    StatementIsUnderstood(RowsOf(docs, prepped));
    forall i | 0 <= i < |docs|
      ensures Parsed(c, prepped[i].vectorStr) == Ok(docs[i].vector)
    {
      RoundTrip(c, docs[i].vector);
    }
  }
}
