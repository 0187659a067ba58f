/** Placing the embeddings of an OpenAI response, which may come in any order, by their index. */
module Embedding {
  import opened Wrappers
  import opened Models

  datatype Item = Item(embedding: Vec, index: int)

  /** The embedding the response gives for input `i`: the last one wins, none reads as empty. */
  function At(data: seq<Item>, i: int): Vec {
    if data == [] then []
    else if data[|data| - 1].index == i then data[|data| - 1].embedding
    else At(data[..|data| - 1], i)
  }

  function Placement(n: nat, data: seq<Item>): (r: seq<Vec>)
    ensures |r| == n
  {
    seq(n, i => At(data, i))
  }

  predicate Populated(results: seq<Vec>) {
    forall i :: 0 <= i < |results| ==> results[i] != []
  }

  /** `n` is the number of input texts; the error is the first input without an embedding. */
  method Place(n: nat, data: seq<Item>) returns (r: Result<seq<Vec>, nat>)
    ensures r.Ok? <==> Populated(Placement(n, data))
    ensures r.Ok? ==> r.value == Placement(n, data)
    ensures r.Err? ==> r.error < n && At(data, r.error) == [] && forall i :: 0 <= i < r.error ==> At(data, i) != []
  {
    if n == 0 {
      return Ok([]);
    }
    var results := new Vec[n](_ => []);
    for k := 0 to |data|
      invariant forall i :: 0 <= i < n ==> results[i] == At(data[..k], i)
    {
      var item := data[k];
      assert data[..k + 1][..k] == data[..k];
      if 0 <= item.index < n {
        results[item.index] := item.embedding;
      }
    }
    assert data[..|data|] == data;
    for i := 0 to n
      invariant forall j :: 0 <= j < i ==> results[j] != []
    {
      if |results[i]| == 0 {
        assert Placement(n, data)[i] == [];
        return Err(i);
      }
    }
    assert results[..] == Placement(n, data);
    r := Ok(results[..]);
  }

  /** No two items give different embeddings for the same input; what lies outside the inputs is not looked at. */
  ghost predicate Unambiguous(n: nat, data: seq<Item>) {
    forall j, k :: 0 <= j < |data| && 0 <= k < |data| && data[j].index == data[k].index && 0 <= data[j].index < n ==>
      data[j].embedding == data[k].embedding
  }

  lemma {:induction false} AtFinds(n: nat, data: seq<Item>, k: nat)
    requires Unambiguous(n, data) && k < |data| && 0 <= data[k].index < n
    ensures At(data, data[k].index) == data[k].embedding
  {
    var last := |data| - 1;
    if data[last].index == data[k].index {
    } else {
      AtFinds(n, data[..last], k);
    }
  }

  lemma {:induction false} AtMisses(data: seq<Item>, i: int)
    requires forall k :: 0 <= k < |data| ==> data[k].index != i
    ensures At(data, i) == []
  {
    if data == [] {
    } else {
      AtMisses(data[..|data| - 1], i);
    }
  }

  lemma SameItems(data: seq<Item>, other: seq<Item>, k: nat) returns (j: nat)
    requires multiset(data) == multiset(other) && k < |data|
    ensures j < |other| && other[j] == data[k]
  {
    assert data[k] in multiset(data);
    j :| 0 <= j < |other| && other[j] == data[k];
  }

  lemma UnambiguousInAnyOrder(n: nat, data: seq<Item>, other: seq<Item>)
    requires Unambiguous(n, data) && multiset(data) == multiset(other)
    ensures Unambiguous(n, other)
  {
    forall j, k | 0 <= j < |other| && 0 <= k < |other| && other[j].index == other[k].index && 0 <= other[j].index < n
      ensures other[j].embedding == other[k].embedding
    {
      var a := SameItems(other, data, j);
      var b := SameItems(other, data, k);
    }
  }

  /** Any two orders of an unambiguous response are placed alike. */
  lemma PlacementIgnoresOrder(n: nat, data: seq<Item>, other: seq<Item>)
    requires Unambiguous(n, data) && multiset(data) == multiset(other)
    ensures Placement(n, data) == Placement(n, other)
  {
    UnambiguousInAnyOrder(n, data, other);
    forall i | 0 <= i < n
      ensures At(data, i) == At(other, i)
    {
      if k :| 0 <= k < |data| && data[k].index == i {
        var j := SameItems(data, other, k);
        AtFinds(n, data, k);
        AtFinds(n, other, j);
      } else {
        forall j | 0 <= j < |other|
          ensures other[j].index != i
        {
          var k := SameItems(other, data, j);
        }
        AtMisses(data, i);
        AtMisses(other, i);
      }
    }
  }

  /** The other direction: of two items with different embeddings for one input the later one wins, so a response
      that has them can be reordered to be placed differently. */
  lemma AmbiguityShowsOrder(n: nat, data: seq<Item>) returns (other: seq<Item>)
    requires !Unambiguous(n, data)
    ensures multiset(other) == multiset(data) && Placement(n, other) != Placement(n, data)
  {
    var j, k :| 0 <= j < |data| && 0 <= k < |data| && data[j].index == data[k].index && 0 <= data[j].index < n
                && data[j].embedding != data[k].embedding;
    var i := data[j].index;
    var first := if At(data, i) == data[j].embedding then j else k;
    var last := if first == j then k else j;
    other := MovedToEnd(data, last);
    assert At(other, i) == data[last].embedding != At(data, i);
    assert Placement(n, other)[i] != Placement(n, data)[i];
  }

  lemma MovedToEnd(data: seq<Item>, k: nat) returns (other: seq<Item>)
    requires k < |data|
    ensures multiset(other) == multiset(data) && other != [] && other[|other| - 1] == data[k]
  {
    other := data[..k] + data[k + 1..] + [data[k]];
    assert data == data[..k] + [data[k]] + data[k + 1..];
  }

  /** Placement depends on the order of the response exactly when the response is ambiguous. */
  lemma OrderIsIgnoredIff(n: nat, data: seq<Item>)
    ensures Unambiguous(n, data)
            <==> forall other :: multiset(other) == multiset(data) ==> Placement(n, other) == Placement(n, data)
  {
    if Unambiguous(n, data) {
      forall other | multiset(other) == multiset(data)
        ensures Placement(n, other) == Placement(n, data)
      {
        PlacementIgnoresOrder(n, data, other);
      }
    } else {
      var other := AmbiguityShowsOrder(n, data);
    }
  }

  /** Of several items for one input the last counts. */
  lemma LastItemWins(n: nat, data: seq<Item>, item: Item)
    requires 0 <= item.index < n
    ensures Placement(n, data + [item]) == Placement(n, data)[item.index := item.embedding]
  {
    assert (data + [item])[..|data|] == data;
  }

  /** The response holds a non-empty embedding for input `i`. */
  predicate Answers(data: seq<Item>, i: int) {
    exists k :: 0 <= k < |data| && data[k].index == i && data[k].embedding != []
  }

  lemma AnswersIff(n: nat, data: seq<Item>, i: int)
    requires Unambiguous(n, data) && 0 <= i < n
    ensures At(data, i) != [] <==> Answers(data, i)
  {
    if k :| 0 <= k < |data| && data[k].index == i {
      AtFinds(n, data, k);
    } else {
      AtMisses(data, i);
    }
  }

  /** An unambiguous response is accepted exactly when it holds a non-empty embedding for every input, and each input
      gets its own. */
  lemma AcceptedIffComplete(n: nat, data: seq<Item>)
    requires Unambiguous(n, data)
    ensures Populated(Placement(n, data)) <==> forall i :: 0 <= i < n ==> Answers(data, i)
    ensures forall k :: 0 <= k < |data| && 0 <= data[k].index < n ==>
              Placement(n, data)[data[k].index] == data[k].embedding
  {
    forall k | 0 <= k < |data| && 0 <= data[k].index < n
      ensures At(data, data[k].index) == data[k].embedding
    {
      AtFinds(n, data, k);
    }
    forall i | 0 <= i < n
      ensures Placement(n, data)[i] != [] <==> Answers(data, i)
    {
      AnswersIff(n, data, i);
    }
  }
}
