/**
  The search queries of the document repository as an abstract syntax with numbered placeholders, the loops
  that number them, and what the database makes of query and arguments on an exact scan of the documents.
 */
module Search {
  import opened Wrappers
  import opened Ranking
  import opened Models
  import opened Texts
  import J = Json

  datatype Hit = Hit(doc: Document, score: real)

  /** The pgvector operators `<->`, `<#>` and `<=>`. */
  datatype Op = L2 | NegInner | Cosine

  /** What is computed by PostgreSQL and its extension: distances, full-text matching and rank. */
  datatype Engine = Engine(
    dist: (Op, Vec, Vec) -> real,
    matches: (string, Text) -> bool,
    rank: (string, Text) -> real)
  {
    ghost predicate Valid() {
      forall a, b :: dist(L2, a, b) >= 0.0
    }
  }

  function DistanceOperator(metric: string): Op {
    if metric == "euclidean" then L2 else if metric == "inner_product" then NegInner else Cosine
  }

  /** `vector <op> $k::vector` */
  datatype DistExpr = DistExpr(op: Op, vec: nat)

  /** `1.0 / (1.0 + (d))`, `(d) * -1` and `1 - (d)` */
  datatype SimExpr = Inverse(d: DistExpr) | Negated(d: DistExpr) | OneMinus(d: DistExpr)

  function SimilarityExpression(metric: string, d: DistExpr): SimExpr {
    if metric == "euclidean" then Inverse(d) else if metric == "inner_product" then Negated(d) else OneMinus(d)
  }

  datatype Arg = VecArg(v: Vec) | StrArg(s: string) | JsonArg(j: J.Json) | RealArg(r: real) | IntArg(i: int)

  datatype SearchQuery = SearchQuery(
    sim: SimExpr,
    collection: nat,
    filters: seq<nat>,
    threshold: Option<nat>,
    orderBy: DistExpr,
    limit: nat)

  // ---------------------------------------------------------------- building a search

  function FilterArgs(filter: map<string, J.Json>, keys: seq<string>): (args: seq<Arg>)
    requires forall k :: k in keys ==> k in filter
    ensures |args| == |keys|
    ensures forall i :: 0 <= i < |keys| ==> keys[i] in filter && args[i] == JsonArg(J.Obj(map[keys[i] := filter[keys[i]]]))
  {
    seq(|keys|, i requires 0 <= i < |keys| => JsonArg(J.Obj(map[keys[i] := filter[keys[i]]])))
  }

  /** `n` consecutive placeholder numbers. */
  function Numbers(first: nat, n: nat): (ks: seq<nat>)
    ensures |ks| == n && forall i :: 0 <= i < n ==> ks[i] == first + i
  {
    seq(n, i requires 0 <= i => first + i)
  }

  /** What a search call asks for; `keys` is the order in which the filter map happens to be visited. */
  datatype Request = Request(
    collectionId: string,
    vector: Vec,
    topK: int,
    filter: map<string, J.Json>,
    keys: seq<string>,
    minThreshold: real,
    metric: string)
  {
    ghost predicate Valid() {
      J.IterationOrder(keys, filter)
    }
  }

  function SearchQueryOf(r: Request): SearchQuery {
    var d, next := DistExpr(DistanceOperator(r.metric), 1), 3 + |r.keys|;
    SearchQuery(SimilarityExpression(r.metric, d), 2, Numbers(3, |r.keys|),
                if r.minThreshold > 0.0 then Some(next) else None, d,
                if r.minThreshold > 0.0 then next + 1 else next)
  }

  function SearchArgsOf(r: Request): seq<Arg>
    requires forall k :: k in r.keys ==> k in r.filter
  {
    [VecArg(r.vector), StrArg(r.collectionId)] + FilterArgs(r.filter, r.keys)
    + (if r.minThreshold > 0.0 then [RealArg(r.minThreshold)] else []) + [IntArg(r.topK)]
  }

  method BuildSearch(r: Request) returns (query: SearchQuery, args: seq<Arg>)
    requires r.Valid()
    ensures query == SearchQueryOf(r) && args == SearchArgsOf(r)
  {
    var op := DistanceOperator(r.metric);
    var distExpr := DistExpr(op, 1);
    var simExpr := SimilarityExpression(r.metric, distExpr);
    args := [VecArg(r.vector), StrArg(r.collectionId)];
    var argIndex := 3;
    var filters: seq<nat> := [];
    for i := 0 to |r.keys|
      invariant argIndex == 3 + i
      invariant filters == Numbers(3, i)
      invariant args == [VecArg(r.vector), StrArg(r.collectionId)] + FilterArgs(r.filter, r.keys)[..i]
    {
      var key := r.keys[i];
      filters := filters + [argIndex];
      args := args + [JsonArg(J.Obj(map[key := r.filter[key]]))];
      argIndex := argIndex + 1;
    }
    assert FilterArgs(r.filter, r.keys)[..|r.keys|] == FilterArgs(r.filter, r.keys);
    var threshold: Option<nat> := None;
    if r.minThreshold > 0.0 {
      threshold := Some(argIndex);
      args := args + [RealArg(r.minThreshold)];
      argIndex := argIndex + 1;
    }
    query := SearchQuery(simExpr, 2, filters, threshold, distExpr, argIndex);
    args := args + [IntArg(r.topK)];
  }

  // ---------------------------------------------------------------- running a query

  function VecAt(args: seq<Arg>, k: nat): Option<Vec> {
    if 1 <= k <= |args| && args[k - 1].VecArg? then Some(args[k - 1].v) else None
  }

  function StrAt(args: seq<Arg>, k: nat): Option<string> {
    if 1 <= k <= |args| && args[k - 1].StrArg? then Some(args[k - 1].s) else None
  }

  function RealAt(args: seq<Arg>, k: nat): Option<real> {
    if 1 <= k <= |args| && args[k - 1].RealArg? then Some(args[k - 1].r) else None
  }

  function IntAt(args: seq<Arg>, k: nat): Option<int> {
    if 1 <= k <= |args| && args[k - 1].IntArg? then Some(args[k - 1].i) else None
  }

  function JsonsAt(args: seq<Arg>, ks: seq<nat>): (r: Option<seq<J.Json>>) {
    if ks == [] then Some([])
    else if 1 <= ks[0] <= |args| && args[ks[0] - 1].JsonArg? then
      match JsonsAt(args, ks[1..])
      case None => None
      case Some(js) => Some([args[ks[0] - 1].j] + js)
    else None
  }

  function Similarity(sim: SimExpr, d: real): real {
    match sim
    case Inverse(_) => if 1.0 + d == 0.0 then 0.0 else 1.0 / (1.0 + d)
    case Negated(_) => d * -1.0
    case OneMinus(_) => 1.0 - d
  }

  predicate HasAll(metadata: J.Json, objects: seq<J.Json>) {
    forall i :: 0 <= i < |objects| ==> J.Contains(metadata, objects[i])
  }

  /** Documents of the collection that contain every filter object and, with a threshold, score at least that. */
  function Selected(e: Engine, collectionId: string, objects: seq<J.Json>, sim: SimExpr, v: Vec, t: Option<real>)
    : Document -> bool
  {
    (doc: Document) =>
      doc.collectionId == collectionId && HasAll(doc.metadata, objects)
      && (t.Some? ==> Similarity(sim, e.dist(sim.d.op, doc.vector, v)) >= t.value)
  }

  function DistanceTo(e: Engine, op: Op, v: Vec): Document -> real {
    (doc: Document) => e.dist(op, doc.vector, v)
  }

  function Scored(e: Engine, sim: SimExpr, v: Vec): Document -> Hit {
    (doc: Document) => Hit(doc, Similarity(sim, e.dist(sim.d.op, doc.vector, v)))
  }

  /** The answer of the database, or None if a placeholder names no argument or one of the wrong type. */
  function RunSearch(e: Engine, q: SearchQuery, args: seq<Arg>, docs: seq<Document>): Option<seq<Hit>> {
    var t := if q.threshold.None? then Some(None) else
               match RealAt(args, q.threshold.value) case None => None case Some(x) => Some(Some(x));
    match (VecAt(args, q.sim.d.vec), VecAt(args, q.orderBy.vec), StrAt(args, q.collection),
           JsonsAt(args, q.filters), t, IntAt(args, q.limit))
    case (Some(v), Some(o), Some(c), Some(objects), Some(threshold), Some(k)) =>
      Some(Map(Take(Sort(Filter(docs, Selected(e, c, objects, q.sim, v, threshold)), DistanceTo(e, q.orderBy.op, o)), k),
               Scored(e, q.sim, v)))
    case _ => None
  }

  // ---------------------------------------------------------------- what a search should answer

  /** In the collection, and metadata contains the whole filter object; no filter, no test. */
  function Wanted(collectionId: string, filter: map<string, J.Json>): Document -> bool {
    (doc: Document) => doc.collectionId == collectionId && (filter == map[] || J.Contains(doc.metadata, J.Obj(filter)))
  }

  function MetricDistance(e: Engine, metric: string, v: Vec): Document -> real {
    DistanceTo(e, DistanceOperator(metric), v)
  }

  /** The score of a metric; anything but the two named ones counts as cosine. */
  function Score(metric: string, d: real): (s: real)
    ensures metric == "euclidean" && d >= 0.0 ==> s * (1.0 + d) == 1.0
    ensures metric == "inner_product" ==> s == -d
    ensures metric != "euclidean" && metric != "inner_product" ==> s + d == 1.0
  {
    Similarity(SimilarityExpression(metric, DistExpr(DistanceOperator(metric), 0)), d)
  }

  function AsHit(e: Engine, metric: string, v: Vec): Document -> Hit {
    (doc: Document) => Hit(doc, Score(metric, MetricDistance(e, metric, v)(doc)))
  }

  function AtLeast(e: Engine, metric: string, v: Vec, t: real): Document -> bool {
    (doc: Document) => Score(metric, MetricDistance(e, metric, v)(doc)) >= t
  }

  /** The wanted documents at or above the threshold, in table order. */
  function Matching(e: Engine, r: Request, docs: seq<Document>): seq<Document> {
    var wanted := Filter(docs, Wanted(r.collectionId, r.filter));
    if r.minThreshold > 0.0 then Filter(wanted, AtLeast(e, r.metric, r.vector, r.minThreshold)) else wanted
  }

  /** The matching documents, nearest first, at most `topK` of them. */
  function Answer(e: Engine, r: Request, docs: seq<Document>): seq<Hit> {
    var nearest := Sort(Matching(e, r, docs), MetricDistance(e, r.metric, r.vector));
    Map(Take(nearest, r.topK), AsHit(e, r.metric, r.vector))
  }

  // ---------------------------------------------------------------- placeholders line up

  function SearchPlaceholders(q: SearchQuery): seq<nat> {
    [q.sim.d.vec, q.collection] + q.filters
    + (match q.threshold case None => [] case Some(k) => [k]) + [q.limit]
  }

  /** The placeholders, in the order of the text, are exactly 1 to the number of arguments. */
  lemma SearchPlaceholdersInOrder(r: Request)
    requires r.Valid()
    ensures SearchPlaceholders(SearchQueryOf(r)) == Numbers(1, |SearchArgsOf(r)|)
    ensures SearchQueryOf(r).orderBy.vec == SearchQueryOf(r).sim.d.vec
  {
  }

  lemma {:induction false} JsonsFound(args: seq<Arg>, ks: seq<nat>, objects: seq<J.Json>)
    requires |ks| == |objects|
    requires forall i :: 0 <= i < |ks| ==> 1 <= ks[i] <= |args| && args[ks[i] - 1] == JsonArg(objects[i])
    ensures JsonsAt(args, ks) == Some(objects)
  {
    if ks == [] {
    } else {
      JsonsFound(args, ks[1..], objects[1..]);
      assert objects == [objects[0]] + objects[1..];
    }
  }

  lemma JsonsOf(before: seq<Arg>, filter: map<string, J.Json>, keys: seq<string>, after: seq<Arg>)
    requires forall k :: k in keys ==> k in filter
    ensures var js := JsonsAt(before + FilterArgs(filter, keys) + after, Numbers(|before| + 1, |keys|));
            js.Some? && |js.value| == |keys|
            && forall i :: 0 <= i < |keys| ==> keys[i] in filter && js.value[i] == J.Obj(map[keys[i] := filter[keys[i]]])
  {
    hide JsonsAt;
    var args, ks := before + FilterArgs(filter, keys) + after, Numbers(|before| + 1, |keys|);
    var objects := seq(|keys|, i requires 0 <= i < |keys| => J.Obj(map[keys[i] := filter[keys[i]]]));
    JsonsFound(args, ks, objects);
  }

  lemma {:induction false} FilterAgrees(docs: seq<Document>, p: Document -> bool, q: Document -> bool)
    requires forall d :: d in docs ==> p(d) == q(d)
    ensures Filter(docs, p) == Filter(docs, q)
  {
    if docs == [] {
    } else {
      FilterAgrees(docs[1..], p, q);
    }
  }

  lemma {:induction false} FilterTwice(docs: seq<Document>, p: Document -> bool, q: Document -> bool, both: Document -> bool)
    requires forall d :: both(d) <==> p(d) && q(d)
    ensures Filter(Filter(docs, p), q) == Filter(docs, both)
  {
    if docs == [] {
    } else {
      FilterTwice(docs[1..], p, q, both);
      if p(docs[0]) {
        assert Filter(docs, p)[1..] == Filter(docs[1..], p);
      } else {
        assert Filter(docs, p) == Filter(docs[1..], p);
      }
    }
  }

  lemma HasAllIsFilter(metadata: J.Json, filter: map<string, J.Json>, keys: seq<string>, objects: seq<J.Json>)
    requires J.IterationOrder(keys, filter) && |objects| == |keys|
    requires forall i :: 0 <= i < |keys| ==> keys[i] in filter && objects[i] == J.Obj(map[keys[i] := filter[keys[i]]])
    ensures HasAll(metadata, objects) <==> filter == map[] || J.Contains(metadata, J.Obj(filter))
  {
    J.PerKeyIsWholeFilter(metadata, filter, keys);
    assert HasAll(metadata, objects) <==> J.ContainsPerKey(metadata, filter, keys);
    if filter == map[] {
      assert keys != [] ==> keys[0] in filter;
    }
  }

  lemma SimilarityIsScore(metric: string, vec: nat, d: real)
    ensures var sim := SimilarityExpression(metric, DistExpr(DistanceOperator(metric), vec));
            sim.d.op == DistanceOperator(metric) && Similarity(sim, d) == Score(metric, d)
  {
  }

  /** Each placeholder of the built query finds the argument it was meant for. */
  lemma ArgumentsFound(r: Request)
    requires r.Valid()
    ensures var q, args := SearchQueryOf(r), SearchArgsOf(r);
            && VecAt(args, 1) == Some(r.vector) && StrAt(args, 2) == Some(r.collectionId)
            && IntAt(args, q.limit) == Some(r.topK)
            && (q.threshold.Some? <==> r.minThreshold > 0.0)
            && (q.threshold.Some? ==> RealAt(args, q.threshold.value) == Some(r.minThreshold))
            && var js := JsonsAt(args, q.filters);
               js.Some? && |js.value| == |r.keys|
               && forall i :: 0 <= i < |r.keys| ==>
                    r.keys[i] in r.filter && js.value[i] == J.Obj(map[r.keys[i] := r.filter[r.keys[i]]])
  {
    var before := [VecArg(r.vector), StrArg(r.collectionId)];
    var after := (if r.minThreshold > 0.0 then [RealArg(r.minThreshold)] else []) + [IntArg(r.topK)];
    assert SearchArgsOf(r) == before + FilterArgs(r.filter, r.keys) + after;
    JsonsOf(before, r.filter, r.keys, after);
  }

  /** Numbering, filter conjunction and threshold come together: whatever order the filter map is visited in,
      the built query with its arguments answers what was asked. */
  lemma SearchAnswers(e: Engine, r: Request, docs: seq<Document>)
    requires r.Valid()
    ensures RunSearch(e, SearchQueryOf(r), SearchArgsOf(r), docs) == Some(Answer(e, r, docs))
  {
    hide SearchArgsOf, JsonsAt, VecAt, StrAt, IntAt, RealAt, Selected, Sort, Take, Filter;
    var q, args := SearchQueryOf(r), SearchArgsOf(r);
    ArgumentsFound(r);
    var objects := JsonsAt(args, q.filters).value;
    var t := if r.minThreshold > 0.0 then Some(r.minThreshold) else None;
    SelectedIsWanted(e, r, docs, objects, t);
    var selected := Filter(docs, Selected(e, r.collectionId, objects, q.sim, r.vector, t));
    var shown := Take(Sort(selected, MetricDistance(e, r.metric, r.vector)), r.topK);
    forall d: Document
      ensures Scored(e, q.sim, r.vector)(d) == AsHit(e, r.metric, r.vector)(d)
    {
      SimilarityIsScore(r.metric, 1, MetricDistance(e, r.metric, r.vector)(d));
    }
    assert Map(shown, Scored(e, q.sim, r.vector)) == Map(shown, AsHit(e, r.metric, r.vector));
  }

  lemma SelectedIsWanted(e: Engine, r: Request, docs: seq<Document>, objects: seq<J.Json>, t: Option<real>)
    requires r.Valid() && |objects| == |r.keys| && (forall k :: k in r.keys ==> k in r.filter)
    requires forall i :: 0 <= i < |r.keys| ==>
      r.keys[i] in r.filter && objects[i] == J.Obj(map[r.keys[i] := r.filter[r.keys[i]]])
    requires t == if r.minThreshold > 0.0 then Some(r.minThreshold) else None
    ensures var wanted := Filter(docs, Wanted(r.collectionId, r.filter));
            Filter(docs, Selected(e, r.collectionId, objects, SearchQueryOf(r).sim, r.vector, t))
            == if t.Some? then Filter(wanted, AtLeast(e, r.metric, r.vector, t.value)) else wanted
  {
    var selected := Selected(e, r.collectionId, objects, SearchQueryOf(r).sim, r.vector, t);
    var wanted := Wanted(r.collectionId, r.filter);
    forall d: Document
      ensures selected(d) <==> wanted(d) && (t.Some? ==> AtLeast(e, r.metric, r.vector, t.value)(d))
    {
      var x := MetricDistance(e, r.metric, r.vector)(d);
      HasAllIsFilter(d.metadata, r.filter, r.keys, objects);
      SimilarityIsScore(r.metric, 1, x);
      assert x == e.dist(SearchQueryOf(r).sim.d.op, d.vector, r.vector);
      assert t.Some? ==> (AtLeast(e, r.metric, r.vector, t.value)(d) <==> Score(r.metric, x) >= t.value);
    }
    if t.Some? {
      FilterTwice(docs, wanted, AtLeast(e, r.metric, r.vector, t.value), selected);
    } else {
      FilterAgrees(docs, selected, wanted);
    }
  }

  // ---------------------------------------------------------------- scores and thresholds

  lemma InverseDecreases(x: real, y: real)
    requires 0.0 < x < y
    ensures 1.0 / y < 1.0 / x
  {
    var a, b := 1.0 / x, 1.0 / y;
    assert a * x == 1.0 && b * y == 1.0;
    assert (a - b) * (x * y) == (a * x) * y - (b * y) * x == y - x;
    assert x * y > 0.0;
  }

  /** Every metric turns a smaller distance into a strictly better score. */
  lemma ScoreDecreases(metric: string, c: real, d: real)
    requires DistanceOperator(metric) == L2 ==> c >= 0.0 && d >= 0.0
    ensures c < d <==> Score(metric, c) > Score(metric, d)
  {
    if metric == "euclidean" {
      if c < d {
        InverseDecreases(1.0 + c, 1.0 + d);
      } else if d < c {
        InverseDecreases(1.0 + d, 1.0 + c);
      }
    }
  }

  lemma DistanceIsSane(e: Engine, metric: string, v: Vec, d: Document)
    requires e.Valid()
    ensures DistanceOperator(metric) == L2 ==> MetricDistance(e, metric, v)(d) >= 0.0
  {
    assert e.dist(L2, d.vector, v) >= 0.0;
  }

  lemma AtLeastIsDownwardClosed(e: Engine, metric: string, v: Vec, t: real)
    requires e.Valid()
    ensures DownwardClosed(MetricDistance(e, metric, v), AtLeast(e, metric, v, t))
  {
    var key, p := MetricDistance(e, metric, v), AtLeast(e, metric, v, t);
    forall x, y | p(y) && key(x) <= key(y)
      ensures p(x)
    {
      DistanceIsSane(e, metric, v, x);
      DistanceIsSane(e, metric, v, y);
      ScoreDecreases(metric, key(x), key(y));
      ScoreDecreases(metric, key(y), key(x));
      assert p(y) <==> Score(metric, key(y)) >= t;
      assert p(x) <==> Score(metric, key(x)) >= t;
    }
  }

  function ScoresAtLeast(t: real): Hit -> bool {
    (h: Hit) => h.score >= t
  }

  lemma LeadingHits(docs: seq<Document>, e: Engine, metric: string, v: Vec, t: real)
    ensures Leading(Map(docs, AsHit(e, metric, v)), ScoresAtLeast(t))
         == Map(Leading(docs, AtLeast(e, metric, v, t)), AsHit(e, metric, v))
  {
    hide Leading, Map, Score;
    LeadingMap(docs, AsHit(e, metric, v), AtLeast(e, metric, v, t), ScoresAtLeast(t));
  }

  /** A search with a positive threshold answers the leading part, down to that score, of what the same search
      answers without one. */
  lemma ThresholdedSearchIsLeadingPart(e: Engine, r: Request, docs: seq<Document>)
    requires e.Valid() && r.minThreshold > 0.0
    ensures Answer(e, r, docs)
         == Leading(Answer(e, r.(minThreshold := 0.0), docs), ScoresAtLeast(r.minThreshold))
  {
    var wanted := Filter(docs, Wanted(r.collectionId, r.filter));
    var key, p := MetricDistance(e, r.metric, r.vector), AtLeast(e, r.metric, r.vector, r.minThreshold);
    AtLeastIsDownwardClosed(e, r.metric, r.vector, r.minThreshold);
    ThresholdIsLeadingPart(wanted, key, p, r.topK);
    LeadingHits(Take(Sort(wanted, key), r.topK), e, r.metric, r.vector, r.minThreshold);
  }

  /** The same of the queries sent to the database, even when the two calls visit the filter map differently. */
  lemma ThresholdedQueryIsLeadingPart(e: Engine, r: Request, keys: seq<string>, docs: seq<Document>)
    requires e.Valid() && r.Valid() && r.minThreshold > 0.0 && J.IterationOrder(keys, r.filter)
    ensures var plain := r.(minThreshold := 0.0, keys := keys);
            var hits := RunSearch(e, SearchQueryOf(plain), SearchArgsOf(plain), docs);
            hits.Some? && RunSearch(e, SearchQueryOf(r), SearchArgsOf(r), docs)
                          == Some(Leading(hits.value, ScoresAtLeast(r.minThreshold)))
  {
    SearchAnswers(e, r, docs);
    SearchAnswers(e, r.(minThreshold := 0.0, keys := keys), docs);
    ThresholdedSearchIsLeadingPart(e, r, docs);
  }

  /** With any threshold or none: no matching document that a search leaves out scores better than one it returns,
      scores never rise down the list nor fall below a positive threshold, and matching documents are left out only
      when `topK` is used up. */
  lemma SearchReturnsTheBest(e: Engine, r: Request, docs: seq<Document>) returns (omitted: seq<Document>)
    requires e.Valid() && r.topK >= 0
    ensures var hits := Answer(e, r, docs);
            && (forall i, j :: 0 <= i < j < |hits| ==> hits[i].score >= hits[j].score)
            && (forall i, x :: 0 <= i < |hits| && x in omitted ==>
                  hits[i].score >= AsHit(e, r.metric, r.vector)(x).score)
            && (forall i :: 0 <= i < |hits| && r.minThreshold > 0.0 ==> hits[i].score >= r.minThreshold)
            && multiset(Matching(e, r, docs)) == multiset(Map(hits, (h: Hit) => h.doc)) + multiset(omitted)
            && (omitted != [] ==> |hits| == r.topK)
  {
    hide Sort, Take, Score, MetricDistance, Matching;
    var matching, key, f := Matching(e, r, docs), MetricDistance(e, r.metric, r.vector), AsHit(e, r.metric, r.vector);
    omitted := TakeKeepsTheBest(matching, key, r.topK);
    var kept := Take(Sort(matching, key), r.topK);
    assert Answer(e, r, docs) == Map(kept, f);
    assert Map(Map(kept, f), (h: Hit) => h.doc) == kept;
    forall i, j | 0 <= i < j < |kept|
      ensures f(kept[i]).score >= f(kept[j]).score
    {
      SortAscending(matching, key);
      TakeIsPrefix(Sort(matching, key), r.topK);
      NearerScoresHigher(e, r.metric, r.vector, kept[i], kept[j]);
    }
    forall i, x | 0 <= i < |kept| && x in omitted
      ensures f(kept[i]).score >= f(x).score
    {
      assert kept[i] in kept;
      NearerScoresHigher(e, r.metric, r.vector, kept[i], x);
    }
    forall i | 0 <= i < |kept| && r.minThreshold > 0.0
      ensures f(kept[i]).score >= r.minThreshold
    {
      assert kept[i] in multiset(kept) + multiset(omitted);
      MatchingMeetsThreshold(e, r, docs, kept[i]);
    }
  }

  lemma NearerScoresHigher(e: Engine, metric: string, v: Vec, x: Document, y: Document)
    requires e.Valid() && MetricDistance(e, metric, v)(x) <= MetricDistance(e, metric, v)(y)
    ensures AsHit(e, metric, v)(x).score >= AsHit(e, metric, v)(y).score
  {
    hide Score;
    DistanceIsSane(e, metric, v, x);
    DistanceIsSane(e, metric, v, y);
    ScoreDecreases(metric, MetricDistance(e, metric, v)(y), MetricDistance(e, metric, v)(x));
  }

  lemma MatchingMeetsThreshold(e: Engine, r: Request, docs: seq<Document>, x: Document)
    requires x in Matching(e, r, docs) && r.minThreshold > 0.0
    ensures AsHit(e, r.metric, r.vector)(x).score >= r.minThreshold
  {
    assert AtLeast(e, r.metric, r.vector, r.minThreshold)(x);
  }

  // ---------------------------------------------------------------- the answer in the engine's own terms

  /** `<#>` for inner product, `<->` for euclidean, `<=>` for every other metric. */
  ghost function Measured(e: Engine, metric: string, a: Vec, v: Vec): real {
    match metric
    case "inner_product" => e.dist(NegInner, a, v)
    case "euclidean" => e.dist(L2, a, v)
    case _ => e.dist(Cosine, a, v)
  }

  ghost function MeasuredScore(e: Engine, metric: string, a: Vec, v: Vec): real
    requires e.Valid()
  {
    match metric
    case "inner_product" => -e.dist(NegInner, a, v)
    case "euclidean" => 1.0 / (1.0 + e.dist(L2, a, v))
    case _ => 1.0 - e.dist(Cosine, a, v)
  }

  ghost predicate Qualifies(e: Engine, r: Request, d: Document)
    requires e.Valid()
  {
    && d.collectionId == r.collectionId
    && (r.filter == map[] || J.Contains(d.metadata, J.Obj(r.filter)))
    && (r.minThreshold > 0.0 ==> MeasuredScore(e, r.metric, d.vector, r.vector) >= r.minThreshold)
  }

  lemma MeasuredIsUsed(e: Engine, metric: string, v: Vec, d: Document)
    requires e.Valid()
    ensures MetricDistance(e, metric, v)(d) == Measured(e, metric, d.vector, v)
    ensures Score(metric, MetricDistance(e, metric, v)(d)) == MeasuredScore(e, metric, d.vector, v)
  {
    assert e.dist(L2, d.vector, v) >= 0.0;
  }

  lemma MatchingIff(e: Engine, r: Request, docs: seq<Document>, d: Document)
    requires e.Valid()
    ensures d in Matching(e, r, docs) <==> d in docs && Qualifies(e, r, d)
  {
    hide Filter, Score, MetricDistance, MeasuredScore;
    FilterHolds(docs, Wanted(r.collectionId, r.filter), d);
    if r.minThreshold > 0.0 {
      var p := AtLeast(e, r.metric, r.vector, r.minThreshold);
      FilterHolds(Filter(docs, Wanted(r.collectionId, r.filter)), p, d);
      MeasuredIsUsed(e, r.metric, r.vector, d);
      assert p(d) <==> Score(r.metric, MetricDistance(e, r.metric, r.vector)(d)) >= r.minThreshold;
    }
  }

  /** The query sent, with its arguments, means this: every hit is a qualifying document with the score of the metric,
      nearest first and at most `topK`; and every qualifying document is among the hits, or the limit is used up by hits
      that are not farther. */
  lemma SearchMeans(e: Engine, r: Request, docs: seq<Document>) returns (hits: seq<Hit>)
    requires e.Valid() && r.Valid() && r.topK >= 0
    ensures RunSearch(e, SearchQueryOf(r), SearchArgsOf(r), docs) == Some(hits) && |hits| <= r.topK
    ensures forall h :: h in hits ==> h.doc in docs && Qualifies(e, r, h.doc)
    ensures forall h :: h in hits ==> h.score == MeasuredScore(e, r.metric, h.doc.vector, r.vector)
    ensures forall i, j :: 0 <= i < j < |hits| ==>
              Measured(e, r.metric, hits[i].doc.vector, r.vector) <= Measured(e, r.metric, hits[j].doc.vector, r.vector)
    ensures forall d :: d in docs && Qualifies(e, r, d) ==>
              || (exists h :: h in hits && h.doc == d)
              || (|hits| == r.topK && forall h :: h in hits ==>
                    Measured(e, r.metric, h.doc.vector, r.vector) <= Measured(e, r.metric, d.vector, r.vector))
  {
    hide Sort, Take, Score, MetricDistance, Matching, Measured, MeasuredScore, Qualifies;
    hide RunSearch, SearchQueryOf, SearchArgsOf;
    var matching, key := Matching(e, r, docs), MetricDistance(e, r.metric, r.vector);
    var shown := Take(Sort(matching, key), r.topK);
    hits := Answer(e, r, docs);
    SearchAnswers(e, r, docs);
    ShownOrBeaten(matching, key, r.topK);
    forall d
      ensures key(d) == Measured(e, r.metric, d.vector, r.vector)
      ensures AsHit(e, r.metric, r.vector)(d) == Hit(d, MeasuredScore(e, r.metric, d.vector, r.vector))
      ensures d in matching <==> d in docs && Qualifies(e, r, d)
    {
      MeasuredIsUsed(e, r.metric, r.vector, d);
      MatchingIff(e, r, docs, d);
    }
    assert |hits| == |shown|;
    assert forall i :: 0 <= i < |hits| ==> hits[i].doc == shown[i];
    forall d | d in shown
      ensures exists h :: h in hits && h.doc == d
    {
      var i :| 0 <= i < |shown| && shown[i] == d;
      assert hits[i] in hits;
    }
  }
}
