/** JSONB values and the containment operator `@>` (section 8.14.3 of the PostgreSQL documentation). */
module Json {
  datatype Json =
    | Null
    | Bool(b: bool)
    | Num(n: real)
    | Str(s: string)
    | Arr(items: seq<Json>)
    | Obj(fields: map<string, Json>)

  /** `a @> b`. (That a top-level array contains a bare scalar is not needed: filters are objects.) */
  predicate Contains(a: Json, b: Json)
    decreases b
  {
    match (a, b)
    case (Obj(f), Obj(g)) => forall k :: k in g ==> k in f && Contains(f[k], g[k])
    case (Arr(xs), Arr(ys)) => forall y :: y in ys ==> exists x :: x in xs && Contains(x, y)
    case (Arr(_), _) => false
    case (_, Arr(_)) => false
    case (Obj(_), _) => false
    case (_, Obj(_)) => false
    case (_, _) => a == b
  }

  /** One test per key of the filter, each against an object of that key alone. */
  predicate ContainsPerKey(metadata: Json, filter: map<string, Json>, keys: seq<string>)
    requires forall k :: k in keys ==> k in filter
  {
    forall i :: 0 <= i < |keys| ==> keys[i] in filter && Contains(metadata, Obj(map[keys[i] := filter[keys[i]]]))
  }

  /** An order in which a Go map may be visited: every key once. */
  ghost predicate IterationOrder(keys: seq<string>, filter: map<string, Json>) {
    && (forall k :: k in keys <==> k in filter)
    && (forall i, j :: 0 <= i < j < |keys| ==> keys[i] != keys[j])
  }

  /** Whatever the order, the per-key tests together are containment of the whole filter object; the two differ
      only for an empty filter on metadata that is no object. */
  lemma PerKeyIsWholeFilter(metadata: Json, filter: map<string, Json>, keys: seq<string>)
    requires IterationOrder(keys, filter)
    ensures ContainsPerKey(metadata, filter, keys)
            <==> Contains(metadata, Obj(filter)) || (filter == map[] && !metadata.Obj?)
  {
    if ContainsPerKey(metadata, filter, keys) {
      forall k | k in filter
        ensures metadata.Obj? && k in metadata.fields && Contains(metadata.fields[k], filter[k])
      {
        var i :| 0 <= i < |keys| && keys[i] == k;
        assert k in map[k := filter[k]];
      }
      if filter != map[] {
        var k :| k in filter;
        assert metadata.Obj?;
      }
    }
  }

  /** Everything contains itself, and what its contents contain. */
  lemma {:induction false} ContainsItself(a: Json)
    ensures Contains(a, a)
    decreases a
  {
    match a
    case Arr(xs) =>
      forall y | y in xs
        ensures exists x :: x in xs && Contains(x, y)
      {
        ContainsItself(y);
      }
    case Obj(f) =>
      forall k | k in f
        ensures Contains(f[k], f[k])
      {
        ContainsItself(f[k]);
      }
    case _ =>
  }

  lemma {:induction false} ContainsOnwards(a: Json, b: Json, c: Json)
    requires Contains(a, b) && Contains(b, c)
    ensures Contains(a, c)
    decreases c
  {
    match c
    case Arr(zs) =>
      forall z | z in zs
        ensures exists x :: x in a.items && Contains(x, z)
      {
        var y :| y in b.items && Contains(y, z);
        var x :| x in a.items && Contains(x, y);
        ContainsOnwards(x, y, z);
      }
    case Obj(h) =>
      forall k | k in h
        ensures Contains(a.fields[k], h[k])
      {
        ContainsOnwards(a.fields[k], b.fields[k], h[k]);
      }
    case _ =>
  }

  /** In arrays order and repetition do not matter. */
  lemma ArrayContainsItsItems(xs: seq<Json>, ys: seq<Json>)
    requires forall y :: y in ys ==> y in xs
    ensures Contains(Arr(xs), Arr(ys))
  {
    forall y | y in ys
      ensures Contains(y, y)
    {
      ContainsItself(y);
    }
  }

  /** A scalar is contained where it is an item itself; deeper arrays are not looked into. */
  lemma ScalarIsContainedIff(xs: seq<Json>, c: Json)
    requires !c.Arr? && !c.Obj?
    ensures Contains(Arr(xs), Arr([c])) <==> c in xs
  {
    assert forall x :: Contains(x, c) <==> x == c;
    if Contains(Arr(xs), Arr([c])) {
      assert c in [c];
      var x :| x in xs && Contains(x, c);
    }
  }

  /** An object contains what is part of it at the same place, and at no other. */
  lemma ObjectExamples(baz: Json, bar: Json, foo: Json)
    requires baz == Str("baz") && bar == Obj(map["bar" := baz]) && foo == Obj(map["foo" := bar])
    ensures !Contains(foo, bar) && Contains(foo, Obj(map["foo" := Obj(map[])])) && !Contains(foo, Obj(map["foo" := baz]))
  {
    assert "bar" in bar.fields && "bar" !in foo.fields;
    assert Contains(bar, Obj(map[]));
    assert !Contains(bar, baz);
    assert "foo" in map["foo" := baz];
  }
}
