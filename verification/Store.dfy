/**
  The two tables with their constraints, the cascade and the statement-level triggers that keep
  `document_count`. Every statement is atomic: it takes effect as a whole or fails and changes nothing.
 */
module Store {
  import opened Wrappers
  import opened Models

  datatype Db = Db(collections: map<CollectionId, Collection>, documents: map<DocumentId, Document>)

  const EMPTY := Db(map[], map[])

  /** The statements the repositories send. Ids of new rows are what `gen_random_uuid()` happened to give. */
  datatype Statement =
    | CreateCollection(id: CollectionId, name: string, dimension: int, metric: string, provider: string, model: string)
    | InsertDocuments(rows: seq<Document>)
    | UpsertDocument(row: Document)
    | DeleteDocument(id: DocumentId)
    | DeleteDocuments(collectionId: CollectionId, ids: seq<DocumentId>)
    | DeleteCollection(id: CollectionId)

  datatype Outcome =
    | Created
    | Inserted(count: nat)
    | Upserted(isNew: bool)
    | Deleted(removed: map<DocumentId, Document>)
    | CollectionDeleted(documentCount: int)
    | NoRows
    | Violation

  /** A set of rows as a trigger sees it in its transition table. */
  type Rows = map<DocumentId, Document>

  ghost function OwnedBy(rows: Rows, c: CollectionId): set<DocumentId> {
    set d | d in rows && rows[d].collectionId == c
  }

  /** How many of the rows a collection owns. */
  function CountIn(rows: Rows, c: CollectionId): nat {
    |set d | d in rows && rows[d].collectionId == c|
  }

  function Incremented(collections: map<CollectionId, Collection>, newRows: Rows): map<CollectionId, Collection> {
    map c | c in collections :: collections[c].(documentCount := collections[c].documentCount + CountIn(newRows, c))
  }

  function Decremented(collections: map<CollectionId, Collection>, oldRows: Rows): map<CollectionId, Collection> {
    map c | c in collections :: collections[c].(documentCount := collections[c].documentCount - CountIn(oldRows, c))
  }

  function ById(rows: seq<Document>): (m: Rows)
    ensures forall d :: d in m ==> m[d] in rows && m[d].id == d
    ensures forall r :: r in rows ==> r.id in m
  {
    if rows == [] then map[] else
      assert rows == [rows[0]] + rows[1..];
      ById(rows[1..])[rows[0].id := rows[0]]
  }

  /** Primary key and foreign key of the inserted rows. */
  predicate Insertable(db: Db, rows: seq<Document>) {
    && (forall i, j :: 0 <= i < j < |rows| ==> rows[i].id != rows[j].id)
    && (forall i :: 0 <= i < |rows| ==> rows[i].id !in db.documents && rows[i].collectionId in db.collections)
  }

  predicate NameTaken(db: Db, name: string) {
    exists c :: c in db.collections && db.collections[c].name == name
  }

  /** CHECK, UNIQUE and primary key of `collections`; an empty metric means cosine, an empty provider NULL. */
  predicate Creatable(db: Db, s: Statement)
    requires s.CreateCollection?
  {
    && s.id !in db.collections && !NameTaken(db, s.name) && s.dimension > 0
    && Metric(s.metric) in {"cosine", "euclidean", "inner_product"}
    && s.provider in {"", "openai", "ollama", "cohere"}
  }

  function Metric(metric: string): string {
    if metric == "" then "cosine" else metric
  }

  function Nullable(s: string): Option<string> {
    if s == "" then None else Some(s)
  }

  function NewCollection(s: Statement): Collection
    requires s.CreateCollection?
  {
    Collection(s.name, s.dimension, Metric(s.metric), Nullable(s.provider), Nullable(s.model), 0)
  }

  /** The rows an id list and a collection select. */
  function Selected(db: Db, collectionId: CollectionId, ids: seq<DocumentId>): Rows {
    map d | d in db.documents && d in ids && db.documents[d].collectionId == collectionId :: db.documents[d]
  }

  function Owned(db: Db, collectionId: CollectionId): Rows {
    map d | d in db.documents && db.documents[d].collectionId == collectionId :: db.documents[d]
  }

  /** The conflicting row keeps its id and its collection. */
  function Merged(was: Document, row: Document): Document {
    was.(vector := row.vector, metadata := row.metadata, content := row.content)
  }

  function Exec(db: Db, s: Statement): (Db, Outcome) {
    match s
    case CreateCollection(id, _, _, _, _, _) =>
      if Creatable(db, s) then (db.(collections := db.collections[id := NewCollection(s)]), Created) else (db, Violation)
    case InsertDocuments(rows) =>
      if Insertable(db, rows) then
        (Db(Incremented(db.collections, ById(rows)), db.documents + ById(rows)), Inserted(|rows|))
      else (db, Violation)
    case UpsertDocument(row) =>
      if row.id in db.documents then
        // nothing is inserted, so the insert trigger counts an empty transition table
        (Db(Incremented(db.collections, map[]), db.documents[row.id := Merged(db.documents[row.id], row)]), Upserted(false))
      else if row.collectionId in db.collections then
        (Db(Incremented(db.collections, map[row.id := row]), db.documents[row.id := row]), Upserted(true))
      else (db, Violation)
    case DeleteDocument(id) =>
      if id in db.documents then
        var gone := map[id := db.documents[id]];
        (Db(Decremented(db.collections, gone), db.documents - {id}), Deleted(gone))
      else (db, NoRows)
    case DeleteDocuments(c, ids) =>
      var gone := Selected(db, c, ids);
      (Db(Decremented(db.collections, gone), db.documents - gone.Keys), Deleted(gone))
    case DeleteCollection(id) =>
      if id in db.collections then
        // the row goes first; the cascade deletes its documents and fires the delete trigger on what is left
        var gone := Owned(db, id);
        (Db(Decremented(db.collections - {id}, gone), db.documents - gone.Keys),
         CollectionDeleted(db.collections[id].documentCount))
      else (db, NoRows)
  }

  // ---------------------------------------------------------------- the tables, updated in place

  /** One group for each collection that owns a row, none for the others. */
  ghost predicate Grouped(counts: map<CollectionId, nat>, rows: Rows) {
    && (forall c :: c in counts <==> CountIn(rows, c) > 0)
    && (forall c :: c in counts ==> counts[c] == CountIn(rows, c))
  }

  /** `SELECT collection_id, COUNT(*) ... GROUP BY collection_id` over a transition table. */
  method GroupCounts(rows: Rows) returns (counts: map<CollectionId, nat>)
    ensures Grouped(counts, rows)
  {
    hide Grouped;
    counts := map[];
    var ids := rows.Keys;
    NothingGrouped();
    assert rows - ids == map[];
    while ids != {}
      invariant ids <= rows.Keys && Grouped(counts, rows - ids)
      decreases |ids|
    {
      var d :| d in ids;
      var c := rows[d].collectionId;
      GroupedGrows(counts, rows - ids, d, rows[d]);
      OneRowLess(rows, ids, d);
      counts := counts[c := (if c in counts then counts[c] else 0) + 1];
      ids := ids - {d};
    }
    assert rows - ids == rows;
  }

  lemma OneRowLess(rows: Rows, ids: set<DocumentId>, d: DocumentId)
    requires d in ids && d in rows
    ensures (rows - ids)[d := rows[d]] == rows - (ids - {d})
  {
  }

  lemma NothingGrouped()
    ensures Grouped(map[], map[])
  {
    forall c {
      NothingCounted(c);
    }
  }

  lemma CountOneMore(rows: Rows, d: DocumentId, row: Document, c: CollectionId)
    requires d !in rows
    ensures CountIn(rows[d := row], c) == CountIn(rows, c) + if row.collectionId == c then 1 else 0
  {
    assert OwnedBy(rows[d := row], c) == OwnedBy(rows, c) + if row.collectionId == c then {d} else {};
  }

  lemma GroupedGrows(counts: map<CollectionId, nat>, rows: Rows, d: DocumentId, row: Document)
    requires d !in rows && Grouped(counts, rows)
    ensures var c := row.collectionId;
            Grouped(counts[c := (if c in counts then counts[c] else 0) + 1], rows[d := row])
  {
    hide CountIn;
    forall c
      ensures CountIn(rows[d := row], c) == CountIn(rows, c) + if row.collectionId == c then 1 else 0
    {
      CountOneMore(rows, d, row, c);
    }
  }

  class Database {
    var collections: map<CollectionId, Collection>
    var documents: map<DocumentId, Document>

    function Value(): Db
      reads this
    {
      Db(collections, documents)
    }

    constructor ()
      ensures Value() == EMPTY
    {
      collections, documents := map[], map[];
    }

    /** Trigger function of the insert trigger: every group of the transition table updates its collection. Only
        counts change, each by the number of new rows its collection owns. */
    method IncrementDocumentCount(newRows: Rows)
      modifies this`collections
      ensures collections == Incremented(old(collections), newRows)
      ensures collections.Keys == old(collections).Keys
      ensures forall c :: c in collections ==>
                && collections[c].documentCount == old(collections)[c].documentCount + CountIn(newRows, c)
                && collections[c].(documentCount := 0) == old(collections)[c].(documentCount := 0)
    {
      hide CountIn;
      var counts := GroupCounts(newRows);
      var groups := counts.Keys;
      while groups != {}
        invariant groups <= counts.Keys && collections.Keys == old(collections).Keys
        invariant forall c :: c in collections ==>
                    collections[c] ==
                      if c !in counts || c in groups then old(collections)[c]
                      else old(collections)[c].(documentCount := old(collections)[c].documentCount + counts[c])
        decreases |groups|
      {
        var c :| c in groups;
        if c in collections {
          collections := collections[c := collections[c].(documentCount := collections[c].documentCount + counts[c])];
        }
        groups := groups - {c};
      }
    }

    /** Trigger function of the delete trigger: every group of the transition table updates its collection. Only
        counts change, each by the number of deleted rows its collection owns. */
    method DecrementDocumentCount(oldRows: Rows)
      modifies this`collections
      ensures collections == Decremented(old(collections), oldRows)
      ensures collections.Keys == old(collections).Keys
      ensures forall c :: c in collections ==>
                && collections[c].documentCount == old(collections)[c].documentCount - CountIn(oldRows, c)
                && collections[c].(documentCount := 0) == old(collections)[c].(documentCount := 0)
    {
      hide CountIn;
      var counts := GroupCounts(oldRows);
      var groups := counts.Keys;
      while groups != {}
        invariant groups <= counts.Keys && collections.Keys == old(collections).Keys
        invariant forall c :: c in collections ==>
                    collections[c] ==
                      if c !in counts || c in groups then old(collections)[c]
                      else old(collections)[c].(documentCount := old(collections)[c].documentCount - counts[c])
        decreases |groups|
      {
        var c :| c in groups;
        if c in collections {
          collections := collections[c := collections[c].(documentCount := collections[c].documentCount - counts[c])];
        }
        groups := groups - {c};
      }
    }

    method Insert(rows: seq<Document>) returns (r: Outcome)
      modifies this
      ensures (Value(), r) == Exec(old(Value()), InsertDocuments(rows))
    {
      if !Insertable(Value(), rows) {
        return Violation;
      }
      documents := documents + ById(rows);
      IncrementDocumentCount(ById(rows));
      r := Inserted(|rows|);
    }

    method Upsert(row: Document) returns (r: Outcome)
      modifies this
      ensures (Value(), r) == Exec(old(Value()), UpsertDocument(row))
    {
      var newRows: Rows := map[];
      if row.id in documents {
        documents := documents[row.id := Merged(documents[row.id], row)];
      } else if row.collectionId in collections {
        documents := documents[row.id := row];
        newRows := map[row.id := row];
      } else {
        return Violation;
      }
      IncrementDocumentCount(newRows);
      r := Upserted(newRows != map[]);
      assert row.id in map[row.id := row];
    }

    method Delete(id: DocumentId) returns (r: Outcome)
      modifies this
      ensures (Value(), r) == Exec(old(Value()), DeleteDocument(id))
    {
      if id !in documents {
        return NoRows;
      }
      var oldRows := map[id := documents[id]];
      documents := documents - {id};
      DecrementDocumentCount(oldRows);
      r := Deleted(oldRows);
    }

    method BatchDelete(collectionId: CollectionId, ids: seq<DocumentId>) returns (r: Outcome)
      modifies this
      ensures (Value(), r) == Exec(old(Value()), DeleteDocuments(collectionId, ids))
    {
      var oldRows := Selected(Value(), collectionId, ids);
      documents := documents - oldRows.Keys;
      DecrementDocumentCount(oldRows);
      r := Deleted(oldRows);
    }

    method Create(id: CollectionId, name: string, dimension: int, metric: string, provider: string, model: string)
        returns (r: Outcome)
      modifies this
      ensures (Value(), r) == Exec(old(Value()), CreateCollection(id, name, dimension, metric, provider, model))
    {
      var distanceMetric := metric;
      if distanceMetric == "" {
        distanceMetric := "cosine";
      }
      if id in collections || NameTaken(Value(), name) || dimension <= 0
         || distanceMetric !in {"cosine", "euclidean", "inner_product"} || provider !in {"", "openai", "ollama", "cohere"} {
        return Violation;
      }
      collections := collections[id := Collection(name, dimension, distanceMetric, Nullable(provider), Nullable(model), 0)];
      r := Created;
    }

    method DropCollection(id: CollectionId) returns (r: Outcome)
      modifies this
      ensures (Value(), r) == Exec(old(Value()), DeleteCollection(id))
    {
      if id !in collections {
        return NoRows;
      }
      r := CollectionDeleted(collections[id].documentCount);
      var cascaded := Owned(Value(), id);
      collections := collections - {id};
      documents := documents - cascaded.Keys;
      DecrementDocumentCount(cascaded);
    }
  }

  // ---------------------------------------------------------------- what every statement keeps

  ghost predicate CountsExact(db: Db) {
    forall c :: c in db.collections ==> db.collections[c].documentCount == CountIn(db.documents, c)
  }

  ghost predicate ForeignKey(db: Db) {
    forall d :: d in db.documents ==> db.documents[d].id == d && db.documents[d].collectionId in db.collections
  }

  /** Dimensions are positive and names unique. */
  ghost predicate SoundCollections(collections: map<CollectionId, Collection>) {
    && (forall c :: c in collections ==> collections[c].dimension > 0)
    && (forall b, c :: b in collections && c in collections && collections[b].name == collections[c].name ==> b == c)
  }

  ghost predicate Consistent(db: Db) {
    CountsExact(db) && ForeignKey(db) && SoundCollections(db.collections)
  }

  lemma CountAdds(docs: Rows, more: Rows, c: CollectionId)
    requires docs.Keys !! more.Keys
    ensures CountIn(docs + more, c) == CountIn(docs, c) + CountIn(more, c)
  {
    assert OwnedBy(docs + more, c) == OwnedBy(docs, c) + OwnedBy(more, c);
  }

  lemma CountSubtracts(docs: Rows, less: Rows, c: CollectionId)
    requires forall d :: d in less ==> d in docs && less[d] == docs[d]
    ensures CountIn(docs - less.Keys, c) == CountIn(docs, c) - CountIn(less, c)
  {
    assert OwnedBy(docs, c) == OwnedBy(docs - less.Keys, c) + OwnedBy(less, c);
  }

  lemma CountUpdated(docs: Rows, id: DocumentId, row: Document, c: CollectionId)
    requires id in docs && docs[id].collectionId == row.collectionId
    ensures CountIn(docs[id := row], c) == CountIn(docs, c)
  {
    assert OwnedBy(docs[id := row], c) == OwnedBy(docs, c);
  }

  lemma NothingCounted(c: CollectionId)
    ensures CountIn(map[], c) == 0
  {
    assert OwnedBy(map[], c) == {};
  }

  lemma InsertKeepsCounts(db: Db, more: Rows)
    requires CountsExact(db) && db.documents.Keys !! more.Keys
    ensures CountsExact(Db(Incremented(db.collections, more), db.documents + more))
  {
    forall c | c in db.collections {
      CountAdds(db.documents, more, c);
    }
  }

  lemma UpdateKeepsCounts(db: Db, row: Document)
    requires CountsExact(db) && row.id in db.documents
    ensures CountsExact(Exec(db, UpsertDocument(row)).0)
  {
    forall c | c in db.collections
      ensures CountIn(db.documents[row.id := Merged(db.documents[row.id], row)], c) == CountIn(db.documents, c)
      ensures CountIn(map[], c) == 0
    {
      CountUpdated(db.documents, row.id, Merged(db.documents[row.id], row), c);
      NothingCounted(c);
    }
  }

  lemma DeleteKeepsCounts(db: Db, less: Rows, gone: set<CollectionId>)
    requires CountsExact(db) && forall d :: d in less ==> d in db.documents && less[d] == db.documents[d]
    ensures CountsExact(Db(Decremented(db.collections - gone, less), db.documents - less.Keys))
  {
    forall c | c in db.collections {
      CountSubtracts(db.documents, less, c);
    }
  }

  lemma NoneOwned(db: Db, id: CollectionId)
    requires ForeignKey(db) && id !in db.collections
    ensures CountIn(db.documents, id) == 0
  {
    assert OwnedBy(db.documents, id) == {};
  }

  lemma StatementKeepsCounts(db: Db, s: Statement)
    requires CountsExact(db) && ForeignKey(db)
    ensures CountsExact(Exec(db, s).0)
  {
    hide CountIn;
    match s
    case CreateCollection(id, _, _, _, _, _) =>
      if Creatable(db, s) {
        NoneOwned(db, id);
      }
    case InsertDocuments(rows) =>
      if Insertable(db, rows) {
        InsertKeepsCounts(db, ById(rows));
      }
    case UpsertDocument(row) =>
      if row.id in db.documents {
        UpdateKeepsCounts(db, row);
      } else if row.collectionId in db.collections {
        InsertKeepsCounts(db, map[row.id := row]);
        assert db.documents + map[row.id := row] == db.documents[row.id := row];
      }
    case DeleteDocument(id) =>
      if id in db.documents {
        DeleteKeepsCounts(db, map[id := db.documents[id]], {});
        assert db.collections - {} == db.collections && map[id := db.documents[id]].Keys == {id};
      }
    case DeleteDocuments(c, ids) =>
      DeleteKeepsCounts(db, Selected(db, c, ids), {});
      assert db.collections - {} == db.collections;
    case DeleteCollection(id) =>
      if id in db.collections {
        DeleteKeepsCounts(db, Owned(db, id), {id});
      }
  }

  ghost predicate SameButCounts(a: map<CollectionId, Collection>, b: map<CollectionId, Collection>) {
    a.Keys == b.Keys && forall c :: c in a ==> a[c].(documentCount := 0) == b[c].(documentCount := 0)
  }

  /** The triggers write nothing but the count. */
  lemma TriggersWriteCountsOnly(collections: map<CollectionId, Collection>, rows: Rows)
    ensures SameButCounts(Incremented(collections, rows), collections)
    ensures SameButCounts(Decremented(collections, rows), collections)
  {
  }

  lemma SoundCollectionsCarry(a: map<CollectionId, Collection>, b: map<CollectionId, Collection>)
    requires SoundCollections(a) && SameButCounts(b, a)
    ensures SoundCollections(b)
  {
    forall c | c in b
      ensures b[c].name == a[c].name && b[c].dimension == a[c].dimension
    {
      var zero := b[c].(documentCount := 0);
      assert zero.name == b[c].name && zero.dimension == b[c].dimension;
    }
  }

  /** Only creating and deleting a collection change more of the collections than counts. */
  lemma DocumentStatementsKeepCollections(db: Db, s: Statement)
    requires !s.CreateCollection? && !s.DeleteCollection?
    ensures SameButCounts(Exec(db, s).0.collections, db.collections)
  {
    hide Incremented, Decremented, ById, Selected;
    match s
    case InsertDocuments(rows) => TriggersWriteCountsOnly(db.collections, ById(rows));
    case UpsertDocument(row) =>
      TriggersWriteCountsOnly(db.collections, map[]);
      TriggersWriteCountsOnly(db.collections, map[row.id := row]);
    case DeleteDocument(id) =>
      if id in db.documents {
        TriggersWriteCountsOnly(db.collections, map[id := db.documents[id]]);
      }
    case DeleteDocuments(c, ids) => TriggersWriteCountsOnly(db.collections, Selected(db, c, ids));
  }

  lemma StatementKeepsCollections(db: Db, s: Statement)
    requires SoundCollections(db.collections)
    ensures SoundCollections(Exec(db, s).0.collections)
  {
    hide CountIn, ById, Selected, Owned;
    if s.DeleteCollection? {
      TriggersWriteCountsOnly(db.collections - {s.id}, Owned(db, s.id));
      assert SoundCollections(db.collections - {s.id});
      hide Decremented;
      if s.id in db.collections {
        SoundCollectionsCarry(db.collections - {s.id}, Exec(db, s).0.collections);
      }
    } else if !s.CreateCollection? {
      hide Exec;
      DocumentStatementsKeepCollections(db, s);
      SoundCollectionsCarry(db.collections, Exec(db, s).0.collections);
    }
  }

  lemma StatementKeepsForeignKey(db: Db, s: Statement)
    requires ForeignKey(db)
    ensures ForeignKey(Exec(db, s).0)
  {
    hide CountIn;
    match s
    case InsertDocuments(rows) =>
      if Insertable(db, rows) {
        assert forall r :: r in rows ==> r.collectionId in db.collections;
      }
    case _ =>
  }

  // ---------------------------------------------------------------- every reachable state

  function RunAll(statements: seq<Statement>): Db {
    if statements == [] then EMPTY
    else Exec(RunAll(statements[..|statements| - 1]), statements[|statements| - 1]).0
  }

  /** After any sequence of statements each `document_count` is the number of documents the collection owns, every
      document belongs to a collection, names are unique and dimensions positive. */
  lemma {:induction false} ReachableIsConsistent(statements: seq<Statement>)
    ensures Consistent(RunAll(statements))
  {
    if statements == [] {
    } else {
      var n := |statements| - 1;
      ReachableIsConsistent(statements[..n]);
      StatementKeepsCounts(RunAll(statements[..n]), statements[n]);
      StatementKeepsForeignKey(RunAll(statements[..n]), statements[n]);
      StatementKeepsCollections(RunAll(statements[..n]), statements[n]);
    }
  }

  lemma CascadeTouchesNoOtherCount(db: Db, id: CollectionId)
    ensures Decremented(db.collections - {id}, Owned(db, id)) == db.collections - {id}
  {
    var gone, others := Owned(db, id), db.collections - {id};
    forall c | c in others
      ensures CountIn(gone, c) == 0
    {
      assert OwnedBy(gone, c) == {};
    }
    assert Decremented(others, gone).Keys == others.Keys;
  }

  lemma CascadeSize(db: Db, id: CollectionId)
    ensures |db.documents| == |db.documents - Owned(db, id).Keys| + CountIn(db.documents, id)
  {
    var gone := Owned(db, id);
    assert gone.Keys == OwnedBy(db.documents, id);
    assert db.documents.Keys == (db.documents - gone.Keys).Keys + gone.Keys;
  }

  /** Deleting a collection removes exactly its documents, leaves every other collection and document as it was, and
      reports exactly how many documents the cascade removed. */
  lemma DeleteCollectionReportsCascade(db: Db, id: CollectionId)
    requires Consistent(db) && id in db.collections
    ensures var (after, outcome) := Exec(db, DeleteCollection(id));
            && outcome.CollectionDeleted?
            && |db.documents| == |after.documents| + outcome.documentCount
            && after.collections == db.collections - {id}
            && (forall d :: d in after.documents <==> d in db.documents && db.documents[d].collectionId != id)
            && (forall d :: d in after.documents ==> after.documents[d] == db.documents[d])
  {
    assert db.collections[id].documentCount == CountIn(db.documents, id);
    hide CountIn, Decremented, CountsExact, SoundCollections;
    CascadeTouchesNoOtherCount(db, id);
    CascadeSize(db, id);
    DropLeaves(db, id);
    hide Exec, Owned;
  }

  lemma DropLeaves(db: Db, id: CollectionId)
    requires id in db.collections
    ensures var after := Exec(db, DeleteCollection(id)).0;
            && after.documents == db.documents - Owned(db, id).Keys
            && (forall d :: d in after.documents <==> d in db.documents && db.documents[d].collectionId != id)
            && (forall d :: d in after.documents ==> after.documents[d] == db.documents[d])
  {
    hide Decremented;
  }

  /** When a collection is created and what it then is, in the terms of the request; the checks and the defaults are
      those of the table. */
  lemma CreateIsExact(db: Db, id: CollectionId, name: string, dimension: int, metric: string, provider: string,
                      model: string)
    ensures var (after, outcome) := Exec(db, CreateCollection(id, name, dimension, metric, provider, model));
            && after.documents == db.documents
            && (outcome == Created <==>
                  && id !in db.collections && (forall c :: c in db.collections ==> db.collections[c].name != name)
                  && dimension > 0
                  && (metric == "" || metric == "cosine" || metric == "euclidean" || metric == "inner_product")
                  && (provider == "" || provider == "openai" || provider == "ollama" || provider == "cohere"))
            && (outcome != Created ==> outcome == Violation && after == db)
            && (outcome == Created ==>
                  && after.collections.Keys == db.collections.Keys + {id}
                  && (forall c :: c in db.collections ==> after.collections[c] == db.collections[c])
                  && after.collections[id].name == name && after.collections[id].dimension == dimension
                  && after.collections[id].distanceMetric == (if metric == "" then "cosine" else metric)
                  && after.collections[id].embeddingProvider == (if provider == "" then None else Some(provider))
                  && after.collections[id].embeddingModel == (if model == "" then None else Some(model))
                  && after.collections[id].documentCount == 0)
  {
  }

  /** Deleting a document removes it alone and gives it back, and only an existing one is deleted. */
  lemma DeleteIsExact(db: Db, id: DocumentId)
    requires CountsExact(db)
    ensures var (after, outcome) := Exec(db, DeleteDocument(id));
            && (id !in db.documents ==> outcome == NoRows && after == db)
            && (id in db.documents ==>
                  && outcome == Deleted(map[id := db.documents[id]]) && after.documents == db.documents - {id}
                  && after.collections.Keys == db.collections.Keys
                  && forall c :: c in db.collections ==>
                       after.collections[c].documentCount
                       == db.collections[c].documentCount - if db.documents[id].collectionId == c then 1 else 0)
  {
    if id in db.documents {
      var gone := map[id := db.documents[id]];
      forall c
        ensures CountIn(gone, c) == if db.documents[id].collectionId == c then 1 else 0
      {
        assert OwnedBy(gone, c) == if db.documents[id].collectionId == c then {id} else {};
      }
    }
  }

  /** Deleting a document undoes inserting it. */
  lemma DeleteUndoesInsert(db: Db, row: Document)
    requires Insertable(db, [row])
    ensures Exec(Exec(db, InsertDocuments([row])).0, DeleteDocument(row.id)).0 == db
  {
    var mid := Exec(db, InsertDocuments([row])).0;
    var after := Exec(mid, DeleteDocument(row.id)).0;
    assert [row][1..] == [] && ById([row]) == map[row.id := row];
    assert mid.documents[row.id] == row;
    assert after.documents == db.documents;
    CountsCancel(db.collections, map[row.id := row]);
  }

  lemma CountsCancel(collections: map<CollectionId, Collection>, rows: Rows)
    ensures Decremented(Incremented(collections, rows), rows) == collections
  {
  }

  /** A batch is inserted whole or not at all, into whatever collections its rows name. */
  lemma InsertIsAllOrNothing(db: Db, rows: seq<Document>)
    ensures var (after, outcome) := Exec(db, InsertDocuments(rows));
            if outcome == Violation then after == db
            else && outcome == Inserted(|rows|)
                 && (forall i :: 0 <= i < |rows| ==> rows[i].id in after.documents && after.documents[rows[i].id] == rows[i])
                 && (forall d :: d in after.documents && (forall i :: 0 <= i < |rows| ==> rows[i].id != d)
                       ==> d in db.documents && after.documents[d] == db.documents[d])
                 && |after.documents| == |db.documents| + |rows|
  {
    hide Incremented;
    if Insertable(db, rows) {
      ByIdIsRows(rows);
      hide ById;
      assert (db.documents + ById(rows)).Keys == db.documents.Keys + ById(rows).Keys;
      assert |db.documents.Keys + ById(rows).Keys| == |db.documents.Keys| + |ById(rows).Keys|;
    }
  }

  /** An upsert writes one row: a conflicting one keeps its collection, a new one needs its collection to exist. */
  lemma UpsertedDocuments(db: Db, row: Document)
    ensures var after := Exec(db, UpsertDocument(row)).0.documents;
            && (forall d :: d in db.documents && d != row.id ==> d in after && after[d] == db.documents[d])
            && (forall d :: d in after && d != row.id ==> d in db.documents)
            && (row.id in after <==> row.id in db.documents || row.collectionId in db.collections)
            && (row.id in after ==>
                  after[row.id].(id := row.id) ==
                    row.(collectionId :=
                      if row.id in db.documents then db.documents[row.id].collectionId else row.collectionId))
  {
    hide Incremented;
  }

  /** A batch delete removes exactly the listed documents of the named collection, gives them back as they were, and
      touches neither a listed document of another collection nor any other collection's count. */
  lemma BatchDeleteIsExact(db: Db, c: CollectionId, ids: seq<DocumentId>)
    requires CountsExact(db)
    ensures var (after, outcome) := Exec(db, DeleteDocuments(c, ids));
            && outcome.Deleted?
            && (forall d :: d in outcome.removed <==> d in ids && d in db.documents && db.documents[d].collectionId == c)
            && (forall d :: d in db.documents ==>
                  if d in outcome.removed then d !in after.documents && outcome.removed[d] == db.documents[d]
                  else d in after.documents && after.documents[d] == db.documents[d])
            && (forall d :: d in after.documents ==> d in db.documents)
            && (forall b :: b in db.collections && b != c ==>
                  b in after.collections && after.collections[b] == db.collections[b])
            && (c in db.collections ==>
                  after.collections[c].documentCount == db.collections[c].documentCount - |outcome.removed|)
  {
    var gone := Selected(db, c, ids);
    assert OwnedBy(gone, c) == gone.Keys;
    forall b | b in db.collections && b != c
      ensures CountIn(gone, b) == 0
    {
      assert OwnedBy(gone, b) == {};
    }
  }

  lemma InsertedDocuments(db: Db, rows: seq<Document>)
    requires Insertable(db, rows)
    ensures Exec(db, InsertDocuments(rows)).1 == Inserted(|rows|)
    ensures var after := Exec(db, InsertDocuments(rows)).0.documents;
            && (forall d :: d in db.documents ==> d in after && after[d] == db.documents[d])
            && (forall r :: r in rows ==> r.id in after && after[r.id] == r && r.collectionId in db.collections)
            && (forall d :: d in after && d !in db.documents ==> after[d] in rows)
  {
    hide Incremented;
    ByIdIsRows(rows);
    var after := Exec(db, InsertDocuments(rows)).0.documents;
    assert after == db.documents + ById(rows);
    forall r | r in rows
      ensures r.id in after && after[r.id] == r && r.collectionId in db.collections
    {
      var i :| 0 <= i < |rows| && rows[i] == r;
      assert rows[i].id !in db.documents;
    }
  }

  ghost predicate DistinctIds(rows: seq<Document>) {
    forall i, j :: 0 <= i < j < |rows| ==> rows[i].id != rows[j].id
  }

  lemma DistinctTail(rows: seq<Document>)
    requires DistinctIds(rows) && rows != []
    ensures DistinctIds(rows[1..]) && rows[0].id !in ById(rows[1..])
  {
    var tail := rows[1..];
    assert forall i :: 0 <= i < |tail| ==> tail[i] == rows[i + 1];
    assert forall r :: r in tail ==> r.id != rows[0].id;
  }

  lemma OneRowMore(rows: Rows, row: Document)
    requires row.id !in rows
    ensures |rows[row.id := row]| == |rows| + 1
  {
    assert rows[row.id := row].Keys == rows.Keys + {row.id};
  }

  lemma {:induction false} ByIdSize(rows: seq<Document>)
    requires DistinctIds(rows)
    ensures |ById(rows)| == |rows|
  {
    if rows == [] {
    } else {
      DistinctTail(rows);
      ByIdSize(rows[1..]);
      OneRowMore(ById(rows[1..]), rows[0]);
    }
  }

  lemma {:induction false} ByIdAt(rows: seq<Document>, i: nat)
    requires DistinctIds(rows) && i < |rows|
    ensures rows[i].id in ById(rows) && ById(rows)[rows[i].id] == rows[i]
  {
    if i == 0 {
    } else {
      DistinctTail(rows);
      ByIdAt(rows[1..], i - 1);
      assert rows[i] == rows[1..][i - 1];
    }
  }

  lemma ByIdIsRows(rows: seq<Document>)
    requires DistinctIds(rows)
    ensures forall i :: 0 <= i < |rows| ==> rows[i].id in ById(rows) && ById(rows)[rows[i].id] == rows[i]
    ensures |ById(rows)| == |rows|
  {
    ByIdSize(rows);
    forall i | 0 <= i < |rows|
      ensures rows[i].id in ById(rows) && ById(rows)[rows[i].id] == rows[i]
    {
      ByIdAt(rows, i);
    }
  }
}
