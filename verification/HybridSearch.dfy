/** Hybrid search: a weighted sum of full-text rank and vector similarity, with and without a query text. */
module HybridSearch {
  import opened Wrappers
  import opened Ranking
  import opened Search
  import opened Models
  import J = Json

  /** The combined score is `$textWeight * fts_score + $vectorWeight * vector_score`. */
  datatype HybridQuery = HybridQuery(
    text: Option<nat>,
    sim: SimExpr,
    collection: nat,
    filters: seq<nat>,
    textWeight: nat,
    vectorWeight: nat,
    limit: nat)

  /** A hybrid search is a search (without threshold) and a text, with two weights. */
  datatype HybridRequest = HybridRequest(r: Request, queryText: string, vectorWeight: real, textWeight: real)

  function Prefix(h: HybridRequest): seq<Arg> {
    if h.queryText != "" then [StrArg(h.queryText), StrArg(h.r.collectionId), VecArg(h.r.vector)]
    else [StrArg(h.r.collectionId), VecArg(h.r.vector)]
  }

  function HybridQueryOf(h: HybridRequest): HybridQuery {
    var n, m := |Prefix(h)|, |h.r.keys|;
    var d := DistExpr(DistanceOperator(h.r.metric), n);
    HybridQuery(if h.queryText != "" then Some(1) else None, SimilarityExpression(h.r.metric, d),
                n - 1, Numbers(n + 1, m), n + m + 1, n + m + 2, n + m + 3)
  }

  function HybridArgsOf(h: HybridRequest): seq<Arg>
    requires forall k :: k in h.r.keys ==> k in h.r.filter
  {
    Prefix(h) + FilterArgs(h.r.filter, h.r.keys) + [RealArg(h.textWeight), RealArg(h.vectorWeight), IntArg(h.r.topK)]
  }

  method BuildHybrid(h: HybridRequest) returns (query: HybridQuery, args: seq<Arg>)
    requires h.r.Valid()
    ensures query == HybridQueryOf(h) && args == HybridArgsOf(h)
  {
    var op := DistanceOperator(h.r.metric);
    var simExpr, argIndex, text, collection;
    if h.queryText != "" {
      simExpr := SimilarityExpression(h.r.metric, DistExpr(op, 3));
      text, collection := Some(1), 2;
      args := [StrArg(h.queryText), StrArg(h.r.collectionId), VecArg(h.r.vector)];
      argIndex := 4;
    } else {
      simExpr := SimilarityExpression(h.r.metric, DistExpr(op, 2));
      text, collection := None, 1;
      args := [StrArg(h.r.collectionId), VecArg(h.r.vector)];
      argIndex := 3;
    }
    var filters: seq<nat> := [];
    for i := 0 to |h.r.keys|
      invariant argIndex == |Prefix(h)| + 1 + i
      invariant filters == Numbers(|Prefix(h)| + 1, i)
      invariant args == Prefix(h) + FilterArgs(h.r.filter, h.r.keys)[..i]
    {
      var key := h.r.keys[i];
      filters := filters + [argIndex];
      args := args + [JsonArg(J.Obj(map[key := h.r.filter[key]]))];
      argIndex := argIndex + 1;
    }
    assert FilterArgs(h.r.filter, h.r.keys)[..|h.r.keys|] == FilterArgs(h.r.filter, h.r.keys);
    query := HybridQuery(text, simExpr, collection, filters, argIndex, argIndex + 1, argIndex + 2);
    args := args + [RealArg(h.textWeight), RealArg(h.vectorWeight), IntArg(h.r.topK)];
  }

  // ---------------------------------------------------------------- running and meaning

  function TextMatches(e: Engine, text: Option<string>, doc: Document): bool {
    text.Some? ==> e.matches(text.value, doc.content)
  }

  function TextRank(e: Engine, text: Option<string>, doc: Document): real {
    if text.Some? then e.rank(text.value, doc.content) else 0.0
  }

  function Candidates(e: Engine, text: Option<string>, collectionId: string, objects: seq<J.Json>): Document -> bool {
    (doc: Document) => doc.collectionId == collectionId && TextMatches(e, text, doc) && HasAll(doc.metadata, objects)
  }

  function Combined(e: Engine, text: Option<string>, sim: SimExpr, v: Vec, tw: real, vw: real): Document -> Hit {
    (doc: Document) => Hit(doc, tw * TextRank(e, text, doc) + vw * Similarity(sim, e.dist(sim.d.op, doc.vector, v)))
  }

  /** `ORDER BY combined_score DESC` as an ascending key. */
  function Descending(f: Document -> Hit): Document -> real {
    (doc: Document) => -f(doc).score
  }

  function RunHybrid(e: Engine, q: HybridQuery, args: seq<Arg>, docs: seq<Document>): Option<seq<Hit>> {
    var t := if q.text.None? then Some(None) else
               match StrAt(args, q.text.value) case None => None case Some(x) => Some(Some(x));
    match (t, VecAt(args, q.sim.d.vec), StrAt(args, q.collection), JsonsAt(args, q.filters),
           RealAt(args, q.textWeight), RealAt(args, q.vectorWeight))
    case (Some(text), Some(v), Some(c), Some(objects), Some(tw), Some(vw)) =>
      (match IntAt(args, q.limit)
       case None => None
       case Some(k) =>
         var f := Combined(e, text, q.sim, v, tw, vw);
         Some(Map(Take(Sort(Filter(docs, Candidates(e, text, c, objects)), Descending(f)), k), f)))
    case _ => None
  }

  function QueryText(h: HybridRequest): Option<string> {
    if h.queryText != "" then Some(h.queryText) else None
  }

  function HybridWanted(e: Engine, h: HybridRequest): Document -> bool {
    (doc: Document) =>
      doc.collectionId == h.r.collectionId && (h.r.filter == map[] || J.Contains(doc.metadata, J.Obj(h.r.filter)))
      && TextMatches(e, QueryText(h), doc)
  }

  /** Text weight times rank plus vector weight times the metric's score. */
  function HybridHit(e: Engine, h: HybridRequest): Document -> Hit {
    (doc: Document) => Hit(doc, h.textWeight * TextRank(e, QueryText(h), doc)
                           + h.vectorWeight * Score(h.r.metric, MetricDistance(e, h.r.metric, h.r.vector)(doc)))
  }

  function HybridAnswer(e: Engine, h: HybridRequest, docs: seq<Document>): seq<Hit> {
    Map(Take(Sort(Filter(docs, HybridWanted(e, h)), Descending(HybridHit(e, h))), h.r.topK), HybridHit(e, h))
  }

  function HybridPlaceholders(q: HybridQuery): seq<nat> {
    (match q.text case None => [] case Some(k) => [k])
    + [q.collection, q.sim.d.vec] + q.filters + [q.textWeight, q.vectorWeight, q.limit]
  }

  /** In both arms the placeholders are exactly 1 to the number of arguments. */
  lemma HybridPlaceholdersInOrder(h: HybridRequest)
    requires h.r.Valid()
    ensures HybridPlaceholders(HybridQueryOf(h)) == Numbers(1, |HybridArgsOf(h)|)
  {
  }

  lemma HybridArgumentsFound(h: HybridRequest)
    requires h.r.Valid()
    ensures var q, args := HybridQueryOf(h), HybridArgsOf(h);
            && (q.text.Some? <==> h.queryText != "") && (q.text.Some? ==> StrAt(args, q.text.value) == Some(h.queryText))
            && VecAt(args, q.sim.d.vec) == Some(h.r.vector) && StrAt(args, q.collection) == Some(h.r.collectionId)
            && RealAt(args, q.textWeight) == Some(h.textWeight) && RealAt(args, q.vectorWeight) == Some(h.vectorWeight)
            && IntAt(args, q.limit) == Some(h.r.topK)
            && var js := JsonsAt(args, q.filters);
               js.Some? && |js.value| == |h.r.keys|
               && forall i :: 0 <= i < |h.r.keys| ==>
                    h.r.keys[i] in h.r.filter && js.value[i] == J.Obj(map[h.r.keys[i] := h.r.filter[h.r.keys[i]]])
  {
    JsonsOf(Prefix(h), h.r.filter, h.r.keys, [RealArg(h.textWeight), RealArg(h.vectorWeight), IntArg(h.r.topK)]);
  }

  lemma {:induction false} SortByAgrees(docs: seq<Document>, f: Document -> Hit, g: Document -> Hit)
    requires forall d :: f(d) == g(d)
    ensures Sort(docs, Descending(f)) == Sort(docs, Descending(g))
  {
    SortSameOrder(docs, Descending(f), Descending(g));
  }

  /** Both arms of the hybrid query, with their arguments, answer what was asked, for every order in which the filter
      map is visited. */
  lemma HybridAnswers(e: Engine, h: HybridRequest, docs: seq<Document>)
    requires h.r.Valid()
    ensures RunHybrid(e, HybridQueryOf(h), HybridArgsOf(h), docs) == Some(HybridAnswer(e, h, docs))
  {
    hide HybridArgsOf, JsonsAt, VecAt, StrAt, IntAt, RealAt, Sort, Take, Filter, Score, Similarity, TextMatches, TextRank;
    var q, args := HybridQueryOf(h), HybridArgsOf(h);
    HybridArgumentsFound(h);
    var objects := JsonsAt(args, q.filters).value;
    var text := QueryText(h);
    var f, g := Combined(e, text, q.sim, h.r.vector, h.textWeight, h.vectorWeight), HybridHit(e, h);
    forall d: Document
      ensures Candidates(e, text, h.r.collectionId, objects)(d) == HybridWanted(e, h)(d)
    {
      HasAllIsFilter(d.metadata, h.r.filter, h.r.keys, objects);
    }
    FilterAgrees(docs, Candidates(e, text, h.r.collectionId, objects), HybridWanted(e, h));
    forall d: Document
      ensures f(d) == g(d)
    {
      SimilarityIsScore(h.r.metric, |Prefix(h)|, MetricDistance(e, h.r.metric, h.r.vector)(d));
    }
    var wanted := Filter(docs, HybridWanted(e, h));
    SortByAgrees(wanted, f, g);
    assert Map(Take(Sort(wanted, Descending(g)), h.r.topK), f) == HybridAnswer(e, h, docs);
  }

  // ---------------------------------------------------------------- weights

  /** The service's weights: both zero means half and half, otherwise each is divided by their sum. */
  function NormaliseWeights(vectorWeight: real, textWeight: real): (w: (real, real))
    requires 0.0 <= vectorWeight <= 1.0 && 0.0 <= textWeight <= 1.0
    ensures w.0 + w.1 == 1.0 && 0.0 <= w.0 <= 1.0 && 0.0 <= w.1 <= 1.0
    ensures vectorWeight > 0.0 ==> w.0 > 0.0
    ensures w.0 * (vectorWeight + textWeight) == vectorWeight && w.1 * (vectorWeight + textWeight) == textWeight
    ensures vectorWeight == textWeight ==> w.0 == w.1
  {
    var sum := vectorWeight + textWeight;
    if vectorWeight == 0.0 && textWeight == 0.0 then (0.5, 0.5)
    else
      Shares(vectorWeight, textWeight);
      (vectorWeight / sum, textWeight / sum)
  }

  lemma Shares(a: real, b: real)
    requires a >= 0.0 && b >= 0.0 && a + b > 0.0
    ensures a / (a + b) + b / (a + b) == 1.0 && a / (a + b) >= 0.0 && b / (a + b) >= 0.0
    ensures a > 0.0 ==> a / (a + b) > 0.0
  {
    var s, c := a + b, 1.0 / (a + b);
    assert c * s == 1.0;
    assert a / s == c * a && b / s == c * b;
    assert c * a + c * b == c * s;
  }

  function Scaled(factor: real): Hit -> Hit {
    (hit: Hit) => hit.(score := factor * hit.score)
  }

  lemma ScalingKeepsOrder(factor: real, a: real, b: real)
    requires factor > 0.0
    ensures a <= b <==> factor * a <= factor * b
  {
    if a < b {
      assert factor * (b - a) > 0.0;
    } else if b < a {
      assert factor * (a - b) > 0.0;
    }
  }

  lemma ScaledOrder(docs: seq<Document>, f: Document -> Hit, g: Document -> Hit, factor: real)
    requires factor > 0.0 && forall d :: g(d).score == factor * f(d).score
    ensures Sort(docs, Descending(g)) == Sort(docs, Descending(f))
  {
    hide Sort;
    var key, other := Descending(f), Descending(g);
    forall x, y | x in docs && y in docs
      ensures key(x) <= key(y) <==> other(x) <= other(y)
    {
      ScalingKeepsOrder(factor, f(y).score, f(x).score);
      assert other(x) == -(factor * f(x).score) && other(y) == -(factor * f(y).score);
    }
    SortSameOrder(docs, key, other);
  }

  /** Normalising the weights changes neither the documents nor their order; scores are divided by the sum. */
  lemma NormalisingKeepsTheRanking(e: Engine, h: HybridRequest, docs: seq<Document>)
    requires 0.0 <= h.vectorWeight <= 1.0 && 0.0 <= h.textWeight <= 1.0 && h.vectorWeight + h.textWeight > 0.0
    ensures var w := NormaliseWeights(h.vectorWeight, h.textWeight);
            HybridAnswer(e, h.(vectorWeight := w.0, textWeight := w.1), docs)
            == Map(HybridAnswer(e, h, docs), Scaled(1.0 / (h.vectorWeight + h.textWeight)))
  {
    hide Filter, Sort, Take, TextRank, Score, TextMatches, MetricDistance, NormaliseWeights;
    var w, factor := NormaliseWeights(h.vectorWeight, h.textWeight), 1.0 / (h.vectorWeight + h.textWeight);
    var n := h.(vectorWeight := w.0, textWeight := w.1);
    var f, g := HybridHit(e, h), HybridHit(e, n);
    assert QueryText(n) == QueryText(h);
    assert forall d: Document :: HybridWanted(e, n)(d) == HybridWanted(e, h)(d);
    FilterAgrees(docs, HybridWanted(e, n), HybridWanted(e, h));
    Reciprocal(h.vectorWeight + h.textWeight);
    forall d: Document
      ensures g(d) == Scaled(factor)(f(d))
    {
      var a, b := TextRank(e, QueryText(h), d), Score(h.r.metric, MetricDistance(e, h.r.metric, h.r.vector)(d));
      WeightedSum(h.vectorWeight, h.textWeight, a, b);
      assert f(d).score == h.textWeight * a + h.vectorWeight * b;
      assert g(d).score == w.1 * a + w.0 * b;
    }
    ScaledOrder(Filter(docs, HybridWanted(e, h)), f, g, factor);
  }

  lemma Reciprocal(s: real)
    requires s > 0.0
    ensures 1.0 / s > 0.0
  {
    assert (1.0 / s) * s == 1.0;
  }

  lemma WeightedSum(v: real, t: real, a: real, b: real)
    requires v + t > 0.0
    ensures (t / (v + t)) * a + (v / (v + t)) * b == (1.0 / (v + t)) * (t * a + v * b)
  {
    var s, c := v + t, 1.0 / (v + t);
    assert c * s == 1.0;
    assert t / s == c * t && v / s == c * v;
    assert (c * t) * a == c * (t * a) && (c * v) * b == c * (v * b);
  }

  /** Without a query text and without vector weight every score is zero, and the answer is the wanted documents in
      table order, whatever their distance. */
  lemma HybridWithoutTextOrWeight(e: Engine, h: HybridRequest, docs: seq<Document>)
    requires h.queryText == "" && h.vectorWeight == 0.0
    ensures HybridAnswer(e, h, docs)
         == Map(Take(Filter(docs, Wanted(h.r.collectionId, h.r.filter)), h.r.topK), (d: Document) => Hit(d, 0.0))
  {
    hide Filter, Sort, Take, Score;
    var wanted := Filter(docs, Wanted(h.r.collectionId, h.r.filter));
    FilterAgrees(docs, HybridWanted(e, h), Wanted(h.r.collectionId, h.r.filter));
    forall d: Document
      ensures HybridHit(e, h)(d) == Hit(d, 0.0)
    {
      assert TextRank(e, QueryText(h), d) == 0.0;
    }
    SortTies(wanted, Descending(HybridHit(e, h)));
  }

  /** Without a query text and with a positive vector weight, hybrid search is vector search without a threshold: same
      documents, same order, each score multiplied by the vector weight. */
  lemma HybridWithoutTextIsSearch(e: Engine, h: HybridRequest, docs: seq<Document>)
    requires e.Valid() && h.queryText == "" && h.vectorWeight > 0.0 && h.r.minThreshold <= 0.0
    ensures HybridAnswer(e, h, docs) == Map(Answer(e, h.r, docs), Scaled(h.vectorWeight))
  {
    hide Filter, Sort, Take, Score;
    var f, g, key := AsHit(e, h.r.metric, h.r.vector), HybridHit(e, h), MetricDistance(e, h.r.metric, h.r.vector);
    var wanted := Filter(docs, Wanted(h.r.collectionId, h.r.filter));
    FilterAgrees(docs, HybridWanted(e, h), Wanted(h.r.collectionId, h.r.filter));
    forall d: Document
      ensures g(d) == Scaled(h.vectorWeight)(f(d))
    {
      assert TextRank(e, QueryText(h), d) == 0.0;
    }
    ScaledOrder(wanted, f, g, h.vectorWeight);
    forall x, y | x in wanted && y in wanted
      ensures key(x) <= key(y) <==> Descending(f)(x) <= Descending(f)(y)
    {
      DistanceIsSane(e, h.r.metric, h.r.vector, x);
      DistanceIsSane(e, h.r.metric, h.r.vector, y);
      ScoreDecreases(h.r.metric, key(x), key(y));
      ScoreDecreases(h.r.metric, key(y), key(x));
      assert f(x).score == Score(h.r.metric, key(x)) && f(y).score == Score(h.r.metric, key(y));
    }
    SortSameOrder(wanted, key, Descending(f));
    var shown := Take(Sort(wanted, key), h.r.topK);
    assert Map(shown, g) == Map(Map(shown, f), Scaled(h.vectorWeight));
  }

  // ---------------------------------------------------------------- the answer in the engine's own terms

  ghost predicate HybridQualifies(e: Engine, h: HybridRequest, d: Document) {
    && d.collectionId == h.r.collectionId
    && (h.r.filter == map[] || J.Contains(d.metadata, J.Obj(h.r.filter)))
    && (h.queryText != "" ==> e.matches(h.queryText, d.content))
  }

  /** Text weight times the rank of the text, nothing without a text, plus vector weight times the metric's score. */
  ghost function Weighed(e: Engine, h: HybridRequest, d: Document): real
    requires e.Valid()
  {
    (if h.queryText != "" then h.textWeight * e.rank(h.queryText, d.content) else 0.0)
    + h.vectorWeight * MeasuredScore(e, h.r.metric, d.vector, h.r.vector)
  }

  lemma WeighedIsUsed(e: Engine, h: HybridRequest, d: Document)
    requires e.Valid()
    ensures HybridHit(e, h)(d) == Hit(d, Weighed(e, h, d))
    ensures HybridWanted(e, h)(d) <==> HybridQualifies(e, h, d)
  {
    hide Score, MetricDistance, MeasuredScore;
    MeasuredIsUsed(e, h.r.metric, h.r.vector, d);
    assert HybridHit(e, h)(d).score == h.textWeight * TextRank(e, QueryText(h), d)
      + h.vectorWeight * Score(h.r.metric, MetricDistance(e, h.r.metric, h.r.vector)(d));
  }

  /** The query sent, with its arguments, means this: every hit is a qualifying document, matching the text if there is
      one, with the weighed score; best first and at most `topK`; and every qualifying document is among the hits, or
      the limit is used up by hits that score at least as well. */
  lemma HybridMeans(e: Engine, h: HybridRequest, docs: seq<Document>) returns (hits: seq<Hit>)
    requires e.Valid() && h.r.Valid() && h.r.topK >= 0
    ensures RunHybrid(e, HybridQueryOf(h), HybridArgsOf(h), docs) == Some(hits) && |hits| <= h.r.topK
    ensures forall x :: x in hits ==> x.doc in docs && HybridQualifies(e, h, x.doc) && x.score == Weighed(e, h, x.doc)
    ensures forall i, j :: 0 <= i < j < |hits| ==> hits[i].score >= hits[j].score
    ensures forall d :: d in docs && HybridQualifies(e, h, d) ==>
              || (exists x :: x in hits && x.doc == d)
              || (|hits| == h.r.topK && forall x :: x in hits ==> x.score >= Weighed(e, h, d))
  {
    hide Sort, Take, Filter, Weighed, HybridHit, HybridWanted, HybridQualifies, RunHybrid, HybridQueryOf, HybridArgsOf;
    var wanted, f := Filter(docs, HybridWanted(e, h)), HybridHit(e, h);
    var shown := Take(Sort(wanted, Descending(f)), h.r.topK);
    hits := HybridAnswer(e, h, docs);
    HybridAnswers(e, h, docs);
    ShownOrBeaten(wanted, Descending(f), h.r.topK);
    forall d
      ensures f(d) == Hit(d, Weighed(e, h, d)) && Descending(f)(d) == -Weighed(e, h, d)
      ensures d in wanted <==> d in docs && HybridQualifies(e, h, d)
    {
      WeighedIsUsed(e, h, d);
      FilterHolds(docs, HybridWanted(e, h), d);
    }
    assert |hits| == |shown|;
    assert forall i :: 0 <= i < |hits| ==> hits[i].doc == shown[i];
    forall d | d in shown
      ensures exists x :: x in hits && x.doc == d
    {
      var i :| 0 <= i < |shown| && shown[i] == d;
      assert hits[i] in hits;
    }
  }
}
