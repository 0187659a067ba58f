/**
  Requests, cache fills and the start-up warm-up run concurrently against the database. A request asks for
  the metadata of its collection, from the cache or, on a miss, from the database (and then fills the
  cache); checks its vectors against the dimension; and only then sends its statement. Between any two of
  these steps anything else may happen, the deletion of the collection included; deletion does not touch
  the cache.

  `created` is history: the metadata every collection was created with. Ids are never given out twice
  (gen_random_uuid).
 */
module Interleaving {
  import opened Wrappers
  import opened Models
  import opened Store
  import opened Cache
  import J = Json

  type ThreadId = nat

  /** A request names the collection it is validated against. */
  datatype Request =
    | Read(collectionId: CollectionId)
    | Search(collectionId: CollectionId, query: Vec)
    | Batch(collectionId: CollectionId, rows: seq<Document>)
    | Upsert(collectionId: CollectionId, row: Document)

  datatype Pc =
    | Asked(req: Request)
    | Loaded(req: Request, info: CollectionInfo)   // read from the database, not yet in the cache
    | Have(req: Request, info: CollectionInfo)
    | Checked(req: Request, info: CollectionInfo)  // dimensions validated, statement not yet sent
    | Warming(rows: seq<WarmRow>)                  // warm-up query answered, cache lock not yet taken

  datatype State = State(
    db: Db,
    cache: Entries,
    created: Entries,
    threads: map<ThreadId, Pc>)

  const INIT := State(EMPTY, map[], map[], map[])

  datatype Step =
    | Begin(t: ThreadId, req: Request)
    | Hit(t: ThreadId)
    | Miss(t: ThreadId)
    | Fill(t: ThreadId)
    | Check(t: ThreadId)
    | Send(t: ThreadId)
    | WarmQuery(t: ThreadId, rows: seq<WarmRow>)
    | WarmStore(t: ThreadId, n: nat)               // the rows scanned before an error, or all
    | Direct(statement: Statement)                 // collection creation and the deletions

  /** Every vector has the length the metadata asks for. */
  predicate DimensionsFit(req: Request, info: CollectionInfo) {
    match req
    case Read(_) => true
    case Search(_, query) => |query| == info.dimension
    case Batch(_, rows) => forall r :: r in rows ==> |r.vector| == info.dimension
    case Upsert(_, row) => |row.vector| == info.dimension
  }

  function StatementOf(req: Request): Option<Statement> {
    match req
    case Read(_) => None
    case Search(_, _) => None
    case Batch(_, rows) => Some(InsertDocuments(rows))
    case Upsert(c, row) => Some(UpsertDocument(row.(collectionId := c)))
  }

  /** A row of the warm-up's answer: the columns of a collection as they are in the table now. */
  predicate RowOf(db: Db, r: WarmRow) {
    && r.id in db.collections
    && var c := db.collections[r.id];
       && r.dimension == c.dimension && r.distanceMetric == c.distanceMetric
       && r.embeddingProvider == c.embeddingProvider && r.embeddingModel == c.embeddingModel
  }

  /** The metadata a creation asks for. */
  function Requested(statement: Statement): CollectionInfo
    requires statement.CreateCollection?
  {
    CollectionInfo(statement.dimension, if statement.metric == "" then "cosine" else statement.metric,
                   statement.provider, statement.model)
  }

  predicate Enabled(s: State, step: Step) {
    match step
    case Begin(t, _) => t !in s.threads
    case Hit(t) => t in s.threads && s.threads[t].Asked? && s.threads[t].req.collectionId in s.cache
    case Miss(t) => t in s.threads && s.threads[t].Asked? && s.threads[t].req.collectionId !in s.cache
    case Fill(t) => t in s.threads && s.threads[t].Loaded?
    case Check(t) => t in s.threads && s.threads[t].Have?
    case Send(t) => t in s.threads && s.threads[t].Checked?
    case WarmQuery(t, rows) => t !in s.threads && forall i :: 0 <= i < |rows| ==> RowOf(s.db, rows[i])
    case WarmStore(t, n) => t in s.threads && s.threads[t].Warming? && n <= |s.threads[t].rows|
    case Direct(statement) =>
      !statement.InsertDocuments? && !statement.UpsertDocument?
      && (statement.CreateCollection? ==> statement.id !in s.created)
  }

  function Apply(s: State, step: Step): State
    requires Enabled(s, step)
  {
    match step
    case Begin(t, req) => s.(threads := s.threads[t := Asked(req)])
    case Hit(t) =>
      var req := s.threads[t].req;
      s.(threads := s.threads[t := Have(req, s.cache[req.collectionId])])
    case Miss(t) =>
      var req := s.threads[t].req;
      if req.collectionId in s.db.collections
      then s.(threads := s.threads[t := Loaded(req, InfoOf(s.db.collections[req.collectionId]))])
      else s.(threads := s.threads - {t})          // "collection not found"
    case Fill(t) =>
      var Loaded(req, info) := s.threads[t];
      s.(cache := s.cache[req.collectionId := info], threads := s.threads[t := Have(req, info)])
    case Check(t) =>
      var Have(req, info) := s.threads[t];
      if DimensionsFit(req, info)
      then s.(threads := s.threads[t := Checked(req, info)])
      else s.(threads := s.threads - {t})          // "dimension mismatch"
    case Send(t) =>
      var statement := StatementOf(s.threads[t].req);
      s.(db := if statement.Some? then Exec(s.db, statement.value).0 else s.db, threads := s.threads - {t})
    case WarmQuery(t, rows) => s.(threads := s.threads[t := Warming(rows)])
    case WarmStore(t, n) =>
      s.(cache := Warmed(s.cache, s.threads[t].rows[..n]), threads := s.threads - {t})
    case Direct(statement) =>
      var after := Exec(s.db, statement).0;
      s.(db := after,
         created := if statement.CreateCollection? && statement.id in after.collections
                    then s.created[statement.id := Requested(statement)] else s.created)
  }

  /** The state a run leads to, if each of its steps is enabled when its turn comes. */
  function Run(steps: seq<Step>): Option<State> {
    if steps == [] then Some(INIT)
    else
      var n := |steps| - 1;
      match Run(steps[..n])
      case None => None
      case Some(s) => if Enabled(s, steps[n]) then Some(Apply(s, steps[n])) else None
  }

  lemma RunOneMore(steps: seq<Step>, s: State, step: Step)
    requires Run(steps) == Some(s) && Enabled(s, step)
    ensures Run(steps + [step]) == Some(Apply(s, step))
  {
    assert (steps + [step])[..|steps|] == steps;
  }

  /** A request for a live collection that is not cached gets its metadata, and leaves it in the cache. */
  lemma Fetched(steps: seq<Step>, s: State, t: ThreadId, req: Request) returns (longer: seq<Step>)
    requires Run(steps) == Some(s) && t !in s.threads
    requires req.collectionId in s.db.collections && req.collectionId !in s.cache
    ensures var info := InfoOf(s.db.collections[req.collectionId]);
            Run(longer) == Some(s.(cache := s.cache[req.collectionId := info], threads := s.threads[t := Have(req, info)]))
  {
    hide Run;
    RunOneMore(steps, s, Begin(t, req));
    var asked := Apply(s, Begin(t, req));
    RunOneMore(steps + [Begin(t, req)], asked, Miss(t));
    var loaded := Apply(asked, Miss(t));
    longer := steps + [Begin(t, req)] + [Miss(t)] + [Fill(t)];
    RunOneMore(steps + [Begin(t, req)] + [Miss(t)], loaded, Fill(t));
    var info := InfoOf(s.db.collections[req.collectionId]);
    assert s.threads[t := Asked(req)][t := Loaded(req, info)][t := Have(req, info)] == s.threads[t := Have(req, info)];
  }

  /** If its vectors fit, it passes its check. */
  lemma Validated(steps: seq<Step>, s: State, t: ThreadId, req: Request) returns (longer: seq<Step>)
    requires Run(steps) == Some(s) && t !in s.threads
    requires req.collectionId in s.db.collections && req.collectionId !in s.cache
    requires DimensionsFit(req, InfoOf(s.db.collections[req.collectionId]))
    ensures var info := InfoOf(s.db.collections[req.collectionId]);
            Run(longer) ==
              Some(s.(cache := s.cache[req.collectionId := info], threads := s.threads[t := Checked(req, info)]))
  {
    hide Run;
    var fetched := Fetched(steps, s, t, req);
    var info := InfoOf(s.db.collections[req.collectionId]);
    var have := s.(cache := s.cache[req.collectionId := info], threads := s.threads[t := Have(req, info)]);
    RunOneMore(fetched, have, Check(t));
    longer := fetched + [Check(t)];
    assert s.threads[t := Have(req, info)][t := Checked(req, info)] == s.threads[t := Checked(req, info)];
  }

  // ---------------------------------------------------------------- the cache never lies about a live collection

  ghost predicate Recorded(created: Entries, c: CollectionId, info: CollectionInfo) {
    c in created && created[c] == info
  }

  /** Live collections, cache entries and everything in flight agree with the history. */
  ghost predicate CollectionsRecorded(s: State) {
    forall c :: c in s.db.collections ==> Recorded(s.created, c, InfoOf(s.db.collections[c]))
  }

  ghost predicate CacheRecorded(s: State) {
    forall c :: c in s.cache ==> Recorded(s.created, c, s.cache[c])
  }

  ghost predicate InFlightRecorded(created: Entries, pc: Pc) {
    match pc
    case Asked(_) => true
    case Loaded(req, info) => Recorded(created, req.collectionId, info)
    case Have(req, info) => Recorded(created, req.collectionId, info)
    case Checked(req, info) => Recorded(created, req.collectionId, info) && DimensionsFit(req, info)
    case Warming(rows) => forall i :: 0 <= i < |rows| ==> Recorded(created, rows[i].id, RowInfo(rows[i]))
  }

  ghost predicate Coherent(s: State) {
    CollectionsRecorded(s) && CacheRecorded(s) && forall t :: t in s.threads ==> InFlightRecorded(s.created, s.threads[t])
  }

  /** No statement changes the metadata of a collection; only creation adds one. */
  lemma MetadataIsImmutable(db: Db, statement: Statement, c: CollectionId)
    requires c in Exec(db, statement).0.collections
    ensures if statement.CreateCollection? && c == statement.id then true
            else c in db.collections && InfoOf(Exec(db, statement).0.collections[c]) == InfoOf(db.collections[c])
    ensures c in db.collections ==> InfoOf(Exec(db, statement).0.collections[c]) == InfoOf(db.collections[c])
  {
    hide CountIn;
  }

  lemma StatementKeepsRecord(s: State, statement: Statement)
    requires CollectionsRecorded(s) && !statement.CreateCollection?
    ensures CollectionsRecorded(s.(db := Exec(s.db, statement).0))
  {
    hide Exec;
    forall c | c in Exec(s.db, statement).0.collections
      ensures Recorded(s.created, c, InfoOf(Exec(s.db, statement).0.collections[c]))
    {
      MetadataIsImmutable(s.db, statement, c);
    }
  }

  /** A new collection reads as what its creation asked for. */
  lemma CreatedAsRequested(db: Db, statement: Statement)
    requires statement.CreateCollection? && statement.id !in db.collections
    requires statement.id in Exec(db, statement).0.collections
    ensures InfoOf(Exec(db, statement).0.collections[statement.id]) == Requested(statement)
  {
  }

  lemma CreationKeepsRecord(s: State, step: Step)
    requires CollectionsRecorded(s) && Enabled(s, step) && step.Direct? && step.statement.CreateCollection?
    ensures CollectionsRecorded(Apply(s, step))
    ensures forall c :: c in s.created ==> Recorded(Apply(s, step).created, c, s.created[c])
  {
    hide Exec;
    var after := Apply(s, step);
    forall c | c in after.db.collections
      ensures Recorded(after.created, c, InfoOf(after.db.collections[c]))
    {
      if c == step.statement.id {
        CreatedAsRequested(s.db, step.statement);
      } else {
        MetadataIsImmutable(s.db, step.statement, c);
      }
    }
  }

  lemma WarmStoreKeepsRecord(s: State, t: ThreadId, n: nat)
    requires Coherent(s) && Enabled(s, WarmStore(t, n))
    ensures CacheRecorded(Apply(s, WarmStore(t, n)))
  {
    hide Warmed;
    var rows := s.threads[t].rows[..n];
    assert InFlightRecorded(s.created, s.threads[t]);
    forall c | c in Warmed(s.cache, rows)
      ensures Recorded(s.created, c, Warmed(s.cache, rows)[c])
    {
      WarmedEntries(s.cache, rows, c);
    }
  }

  lemma StepKeepsCoherence(s: State, step: Step)
    requires Coherent(s) && Enabled(s, step)
    ensures Coherent(Apply(s, step))
  {
    hide Exec, Warmed;
    var after := Apply(s, step);
    forall t | t in s.threads
      ensures InFlightRecorded(s.created, s.threads[t])
    {
    }
    match step
    case Send(t) =>
      if StatementOf(s.threads[t].req).Some? {
        StatementKeepsRecord(s, StatementOf(s.threads[t].req).value);
      }
    case WarmStore(t, n) => WarmStoreKeepsRecord(s, t, n);
    case Direct(statement) =>
      if statement.CreateCollection? {
        CreationKeepsRecord(s, step);
      } else {
        StatementKeepsRecord(s, statement);
      }
    case _ =>
  }

  lemma {:induction false} RunsAreCoherent(steps: seq<Step>)
    requires Run(steps).Some?
    ensures Coherent(Run(steps).value)
  {
    if steps == [] {
    } else {
      var n := |steps| - 1;
      RunsAreCoherent(steps[..n]);
      StepKeepsCoherence(Run(steps[..n]).value, steps[n]);
    }
  }

  /** What the database alone would answer. */
  function InDatabase(s: State, c: CollectionId): Option<CollectionInfo> {
    if c in s.db.collections then Some(InfoOf(s.db.collections[c])) else None
  }

  /** In every reachable state a lookup through the cache answers what the database would, unless the collection
      is cached and has been deleted: then, and only then, it still answers what the collection was created with. */
  lemma CacheAgreesIff(steps: seq<Step>, c: CollectionId)
    requires Run(steps).Some?
    ensures var s := Run(steps).value;
            && (Lookup(s.cache, s.db, c) == InDatabase(s, c) <==> c !in s.cache || c in s.db.collections)
            && (Lookup(s.cache, s.db, c).Some? ==> Recorded(s.created, c, Lookup(s.cache, s.db, c).value))
  {
    RunsAreCoherent(steps);
  }

  /** Some step of the run asked for collection `c` with this metadata. */
  ghost predicate AskedFor(steps: seq<Step>, c: CollectionId, info: CollectionInfo) {
    exists k :: 0 <= k < |steps| && Asks(steps[k], c, info)
  }

  ghost predicate Asks(step: Step, c: CollectionId, info: CollectionInfo) {
    match step
    case Direct(CreateCollection(id, _, dimension, metric, provider, model)) =>
      && id == c && info.dimension == dimension && info.distanceMetric == (if metric == "" then "cosine" else metric)
      && info.embeddingProvider == provider && info.embeddingModel == model
    case _ => false
  }

  lemma {:induction false} HistoryIsAskedFor(steps: seq<Step>, c: CollectionId)
    requires Run(steps).Some? && c in Run(steps).value.created
    ensures AskedFor(steps, c, Run(steps).value.created[c])
  {
    hide Exec;
    if steps == [] {
    } else {
      var n := |steps| - 1;
      var before, info := Run(steps[..n]).value, Run(steps).value.created[c];
      if Asks(steps[n], c, info) {
      } else {
        assert c in before.created && before.created[c] == info;
        HistoryIsAskedFor(steps[..n], c);
        var k :| 0 <= k < n && Asks(steps[..n][k], c, info);
        assert steps[..n][k] == steps[k];
      }
    }
  }

  /** Whatever a lookup answers, in any reachable state, is what some creation of the run asked for, field for field;
      and a live collection is always found. */
  lemma LookupAnswersTheRequest(steps: seq<Step>, c: CollectionId)
    requires Run(steps).Some?
    ensures var s := Run(steps).value;
            var info := Lookup(s.cache, s.db, c);
            && (c in s.db.collections ==> info.Some?)
            && (info.Some? ==> AskedFor(steps, c, info.value))
  {
    RunsAreCoherent(steps);
    var s := Run(steps).value;
    if Lookup(s.cache, s.db, c).Some? {
      assert Recorded(s.created, c, Lookup(s.cache, s.db, c).value);
      HistoryIsAskedFor(steps, c);
    }
  }

  const CREATE_ONE := CreateCollection("a", "one", 1, "cosine", "", "")
  const CREATE_TWO := CreateCollection("b", "two", 2, "cosine", "", "")

  lemma OneCreated()
    ensures Run([Direct(CREATE_ONE)]).Some?
    ensures var s := Run([Direct(CREATE_ONE)]).value;
            s.db == Db(map["a" := NewCollection(CREATE_ONE)], map[]) && s.cache == map[] && s.threads == map[]
            && s.created.Keys == {"a"}
  {
    RunOneMore([], INIT, Direct(CREATE_ONE));
    assert [] + [Direct(CREATE_ONE)] == [Direct(CREATE_ONE)];
  }

  /** The warm-up at work: a collection read by its query is served from the cache to a later request. */
  lemma WarmUpServesHits() returns (steps: seq<Step>)
    ensures Run(steps).Some?
    ensures var s := Run(steps).value;
            var info := CollectionInfo(1, "cosine", "", "");
            s.cache == map["a" := info] && s.threads == map[0 := Have(Read("a"), info)]
  {
    OneCreated();
    hide Run;
    var s := Run([Direct(CREATE_ONE)]).value;
    var row := WarmRow("a", 1, "cosine", None, None);
    var query, store, begin, hit := WarmQuery(1, [row]), WarmStore(1, 1), Begin(0, Read("a")), Hit(0);
    RunOneMore([Direct(CREATE_ONE)], s, query);
    var s1 := Apply(s, query);
    RunOneMore([Direct(CREATE_ONE)] + [query], s1, store);
    assert s1.threads[1].rows[..1] == [row] && [row][..0] == [];
    var s2 := Apply(s1, store);
    assert Warmed(map[], []) == map[] && s2.cache == map["a" := RowInfo(row)];
    RunOneMore([Direct(CREATE_ONE)] + [query] + [store], s2, begin);
    var s3 := Apply(s2, begin);
    RunOneMore([Direct(CREATE_ONE)] + [query] + [store] + [begin], s3, hit);
    steps := [Direct(CREATE_ONE)] + [query] + [store] + [begin] + [hit];
  }

  /** The exception occurs: a collection is created, looked up, and deleted; the cache still has it. */
  lemma DeletedCollectionStaysCached() returns (steps: seq<Step>)
    ensures Run(steps).Some?
    ensures var s := Run(steps).value;
            "a" in s.cache && "a" !in s.db.collections && Lookup(s.cache, s.db, "a") != InDatabase(s, "a")
  {
    OneCreated();
    hide Run;
    var s := Run([Direct(CREATE_ONE)]).value;
    var fetched := Fetched([Direct(CREATE_ONE)], s, 0, Read("a"));
    var drop := Direct(DeleteCollection("a"));
    RunOneMore(fetched, Run(fetched).value, drop);
    steps := fetched + [drop];
  }

  /** Whatever a request holds, even fetched long ago, is what the database says now if the collection is live. */
  lemma InFlightIsCurrent(steps: seq<Step>, t: ThreadId)
    requires Run(steps).Some? && t in Run(steps).value.threads
    ensures var s := Run(steps).value;
            var pc := s.threads[t];
            (pc.Loaded? || pc.Have? || pc.Checked?) && pc.req.collectionId in s.db.collections ==>
              pc.info == InfoOf(s.db.collections[pc.req.collectionId])
  {
    RunsAreCoherent(steps);
    var s := Run(steps).value;
    assert InFlightRecorded(s.created, s.threads[t]);
  }

  // ---------------------------------------------------------------- stored dimensions

  /** Every stored vector has the dimension of the collection that owns it. */
  ghost predicate DimensionsStored(db: Db) {
    forall d :: d in db.documents ==>
      db.documents[d].collectionId in db.collections
      && |db.documents[d].vector| == db.collections[db.documents[d].collectionId].dimension
  }

  /** The rows of a batch belong to the collection it was validated against, and an upsert that meets an existing
      document names the collection that owns it. */
  ghost predicate Disciplined(s: State, step: Step) {
    step.Send? && step.t in s.threads && s.threads[step.t].Checked? ==>
      match s.threads[step.t].req
      case Read(_) => true
      case Search(_, _) => true
      case Batch(c, rows) => forall r :: r in rows ==> r.collectionId == c
      case Upsert(c, row) => row.id in s.db.documents ==> s.db.documents[row.id].collectionId == c
  }

  /** The same up to collections of equal dimension, and only where the statement goes through. */
  ghost predicate SameDimension(s: State, step: Step)
    requires Enabled(s, step) && Coherent(s)
  {
    step.Send? ==>
      var Checked(req, info) := s.threads[step.t];
      match req
      case Read(_) => true
      case Search(_, _) => true
      case Batch(c, rows) =>
        Insertable(s.db, rows) ==> forall r :: r in rows ==> s.db.collections[r.collectionId].dimension == info.dimension
      case Upsert(c, row) =>
        row.id in s.db.documents && s.db.documents[row.id].collectionId in s.db.collections ==>
          s.db.collections[s.db.documents[row.id].collectionId].dimension == info.dimension
  }

  lemma DimensionKept(db: Db, statement: Statement, c: CollectionId)
    requires c in db.collections && c in Exec(db, statement).0.collections
    ensures Exec(db, statement).0.collections[c].dimension == db.collections[c].dimension
  {
    MetadataIsImmutable(db, statement, c);
    assert InfoOf(db.collections[c]).dimension == db.collections[c].dimension;
    assert InfoOf(Exec(db, statement).0.collections[c]).dimension == Exec(db, statement).0.collections[c].dimension;
  }

  lemma DirectKeepsDimensions(db: Db, statement: Statement)
    requires Consistent(db) && DimensionsStored(db) && !statement.InsertDocuments? && !statement.UpsertDocument?
    ensures DimensionsStored(Exec(db, statement).0)
  {
    var after := Exec(db, statement).0;
    StatementKeepsForeignKey(db, statement);
    forall d | d in after.documents
      ensures d in db.documents && after.documents[d] == db.documents[d]
    {
    }
    forall d | d in after.documents
      ensures |after.documents[d].vector| == after.collections[after.documents[d].collectionId].dimension
    {
      DimensionKept(db, statement, after.documents[d].collectionId);
    }
  }

  lemma InsertKeepsDimensionsIff(db: Db, rows: seq<Document>, dimension: int)
    requires Consistent(db) && DimensionsStored(db) && Insertable(db, rows)
    requires forall r :: r in rows ==> |r.vector| == dimension
    ensures forall r :: r in rows ==> r.collectionId in db.collections
    ensures DimensionsStored(Exec(db, InsertDocuments(rows)).0)
            <==> forall r :: r in rows ==> db.collections[r.collectionId].dimension == dimension
  {
    hide Exec, Insertable;
    var after := Exec(db, InsertDocuments(rows)).0;
    InsertedDocuments(db, rows);
    forall c | c in db.collections
      ensures c in after.collections && after.collections[c].dimension == db.collections[c].dimension
    {
      DocumentStatementsKeepCollections(db, InsertDocuments(rows));
      DimensionKept(db, InsertDocuments(rows), c);
    }
    forall r | r in rows
      ensures r.collectionId in db.collections
      ensures |after.documents[r.id].vector| == dimension && after.documents[r.id].collectionId == r.collectionId
    {
    }
  }

  lemma UpsertKeepsDimensionsIff(db: Db, row: Document)
    requires Consistent(db) && DimensionsStored(db)
    requires row.collectionId in db.collections && row.id !in db.documents ==>
               |row.vector| == db.collections[row.collectionId].dimension
    ensures DimensionsStored(Exec(db, UpsertDocument(row)).0)
            <==> (row.id in db.documents ==>
                    |row.vector| == db.collections[db.documents[row.id].collectionId].dimension)
  {
    hide Exec;
    var after := Exec(db, UpsertDocument(row)).0;
    UpsertedDocuments(db, row);
    forall c | c in db.collections
      ensures c in after.collections && after.collections[c].dimension == db.collections[c].dimension
    {
      DocumentStatementsKeepCollections(db, UpsertDocument(row));
      DimensionKept(db, UpsertDocument(row), c);
    }
    if row.id in db.documents {
      assert |after.documents[row.id].vector| == |row.vector|;
    }
  }

  /** One step keeps every stored dimension right exactly when it is not a write whose validated dimension differs from
      that of the collection the vectors end up in. */
  lemma StepKeepsDimensionsIff(s: State, step: Step)
    requires Coherent(s) && Enabled(s, step) && Consistent(s.db) && DimensionsStored(s.db)
    ensures DimensionsStored(Apply(s, step).db) <==> SameDimension(s, step)
  {
    hide Exec;
    match step
    case Send(t) =>
      var Checked(req, info) := s.threads[t];
      assert InFlightRecorded(s.created, s.threads[t]);
      if req.Batch? {
        if Insertable(s.db, req.rows) {
          InsertKeepsDimensionsIff(s.db, req.rows, info.dimension);
        } else {
          ViolationChangesNothing(s.db, req.rows);
        }
      } else if req.Upsert? {
        UpsertKeepsDimensionsIff(s.db, req.row.(collectionId := req.collectionId));
      }
    case Direct(statement) => DirectKeepsDimensions(s.db, statement);
    case _ =>
  }

  lemma OneStored() returns (steps: seq<Step>)
    ensures Run(steps).Some?
    ensures var s := Run(steps).value;
            && s.db.collections.Keys == {"a"} && s.db.documents == map["d" := ONE_DIMENSIONAL]
            && s.db.collections["a"].dimension == 1 && s.db.collections["a"].name == "one"
            && "b" !in s.cache && s.threads == map[] && s.created.Keys == {"a"}
  {
    OneCreated();
    hide Run;
    var s := Run([Direct(CREATE_ONE)]).value;
    var req := Batch("a", [ONE_DIMENSIONAL]);
    var checked := Validated([Direct(CREATE_ONE)], s, 0, req);
    var t := Run(checked).value;
    RunOneMore(checked, t, Send(0));
    steps := checked + [Send(0)];
    assert Insertable(t.db, [ONE_DIMENSIONAL]);
    assert [ONE_DIMENSIONAL][1..] == [] && ById([ONE_DIMENSIONAL]) == map["d" := ONE_DIMENSIONAL];
  }

  const ONE_DIMENSIONAL := Document("d", "a", [1.0], J.Null, [])
  const TWO_DIMENSIONAL := Document("d", "b", [1.0, 2.0], J.Null, [])

  lemma TwoCreated() returns (steps: seq<Step>)
    ensures Run(steps).Some?
    ensures var s := Run(steps).value;
            && "b" in s.db.collections && s.db.collections["b"].dimension == 2 && "b" !in s.cache && s.threads == map[]
            && "a" in s.db.collections && s.db.collections["a"].dimension == 1
            && s.db.documents == map["d" := ONE_DIMENSIONAL]
  {
    var stored := OneStored();
    hide Run;
    RunOneMore(stored, Run(stored).value, Direct(CREATE_TWO));
    steps := stored + [Direct(CREATE_TWO)];
  }

  /** The discipline is needed. Collection "a" holds one-dimensional vectors, "b" two-dimensional ones; a
      two-dimensional upsert that is validated against "b" but meets a document of "a" goes through, and stays there. */
  lemma UpsertCanStoreTheWrongDimension() returns (steps: seq<Step>, upsert: Step)
    ensures Run(steps).Some? && Enabled(Run(steps).value, upsert)
    ensures Run(steps + [upsert]) == Some(Apply(Run(steps).value, upsert))
    ensures DimensionsStored(Run(steps).value.db) && !DimensionsStored(Run(steps + [upsert]).value.db)
  {
    var created := TwoCreated();
    hide Run;
    steps := Validated(created, Run(created).value, 0, Upsert("b", TWO_DIMENSIONAL));
    upsert := Send(0);
    var s := Run(steps).value;
    RunOneMore(steps, s, upsert);
    RunsAreCoherent(steps);
    ConsistentRuns(steps);
    StepKeepsDimensionsIff(s, upsert);
  }

  lemma ViolationChangesNothing(db: Db, rows: seq<Document>)
    requires !Insertable(db, rows)
    ensures Exec(db, InsertDocuments(rows)).0 == db
  {
  }

  lemma DisciplineSuffices(s: State, step: Step)
    requires Coherent(s) && Enabled(s, step) && Disciplined(s, step)
    ensures SameDimension(s, step)
  {
    if step.Send? {
      assert InFlightRecorded(s.created, s.threads[step.t]);
    }
  }

  /** All steps of the run are disciplined when their turn comes. */
  ghost predicate DisciplinedRun(steps: seq<Step>)
    requires Run(steps).Some?
  {
    steps == [] ||
    (DisciplinedRun(steps[..|steps| - 1]) && Disciplined(Run(steps[..|steps| - 1]).value, steps[|steps| - 1]))
  }

  lemma StepKeepsConsistency(s: State, step: Step)
    requires Consistent(s.db) && Enabled(s, step)
    ensures Consistent(Apply(s, step).db)
  {
    hide Exec;
    var statement := if step.Send? then StatementOf(s.threads[step.t].req)
                     else if step.Direct? then Some(step.statement) else None;
    if statement.Some? {
      StatementKeepsCounts(s.db, statement.value);
      StatementKeepsForeignKey(s.db, statement.value);
      StatementKeepsCollections(s.db, statement.value);
    }
  }

  lemma {:induction false} ConsistentRuns(steps: seq<Step>)
    requires Run(steps).Some?
    ensures Consistent(Run(steps).value.db)
  {
    if steps == [] {
    } else {
      var n := |steps| - 1;
      ConsistentRuns(steps[..n]);
      StepKeepsConsistency(Run(steps[..n]).value, steps[n]);
    }
  }

  /** In every reachable state of every disciplined run, each document belongs to an existing collection and its vector
      has that collection's dimension, although the dimension was checked against a possibly stale cache. */
  lemma {:induction false} StoredDimensionsAreRight(steps: seq<Step>)
    requires Run(steps).Some? && DisciplinedRun(steps)
    ensures Consistent(Run(steps).value.db) && DimensionsStored(Run(steps).value.db)
  {
    if steps == [] {
    } else {
      var n := |steps| - 1;
      var s := Run(steps[..n]).value;
      StoredDimensionsAreRight(steps[..n]);
      RunsAreCoherent(steps[..n]);
      DisciplineSuffices(s, steps[n]);
      StepKeepsDimensionsIff(s, steps[n]);
      StepKeepsConsistency(s, steps[n]);
    }
  }

  /** When a search that passed its check reaches the database of a disciplined run, every document of its collection has
      the dimension of the query, however stale the metadata was that it was checked against. */
  lemma SearchMeetsOneDimension(steps: seq<Step>, t: ThreadId, d: DocumentId)
    requires Run(steps).Some? && DisciplinedRun(steps)
    requires var s := Run(steps).value;
             t in s.threads && s.threads[t].Checked? && s.threads[t].req.Search?
             && d in s.db.documents && s.db.documents[d].collectionId == s.threads[t].req.collectionId
    ensures var s := Run(steps).value;
            |s.db.documents[d].vector| == |s.threads[t].req.query|
  {
    StoredDimensionsAreRight(steps);
    RunsAreCoherent(steps);
    var s := Run(steps).value;
    assert InFlightRecorded(s.created, s.threads[t]);
    var c := s.threads[t].req.collectionId;
    assert Recorded(s.created, c, InfoOf(s.db.collections[c]));
  }
}
