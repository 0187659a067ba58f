/**
  Ordering rows by a real key, ties in table order, and cutting at a limit: what `ORDER BY ... LIMIT` does
  on an exact scan.
 */
module Ranking {

  function Insert<T>(x: T, ys: seq<T>, key: T -> real): (r: seq<T>) {
    if ys == [] || key(x) <= key(ys[0]) then [x] + ys else [ys[0]] + Insert(x, ys[1..], key)
  }

  function Sort<T>(xs: seq<T>, key: T -> real): (r: seq<T>) {
    if xs == [] then [] else Insert(xs[0], Sort(xs[1..], key), key)
  }

  function Filter<T>(xs: seq<T>, p: T -> bool): (r: seq<T>)
    ensures forall x :: x in r ==> x in xs && p(x)
  {
    if xs == [] then [] else (if p(xs[0]) then [xs[0]] else []) + Filter(xs[1..], p)
  }

  lemma {:induction false} FilterHolds<T>(xs: seq<T>, p: T -> bool, x: T)
    ensures x in Filter(xs, p) <==> x in xs && p(x)
  {
    if xs == [] {
    } else {
      FilterHolds(xs[1..], p, x);
      assert xs == [xs[0]] + xs[1..];
    }
  }

  function Take<T>(xs: seq<T>, n: int): (r: seq<T>) {
    if n <= 0 then [] else if |xs| <= n then xs else xs[..n]
  }

  /** The longest run at the front that satisfies `p`. */
  function Leading<T>(xs: seq<T>, p: T -> bool): (r: seq<T>) {
    if xs == [] || !p(xs[0]) then [] else [xs[0]] + Leading(xs[1..], p)
  }

  function Map<T, U>(xs: seq<T>, f: T -> U): (r: seq<U>)
    ensures |r| == |xs|
    ensures forall i :: 0 <= i < |xs| ==> r[i] == f(xs[i])
  {
    seq(|xs|, i requires 0 <= i < |xs| => f(xs[i]))
  }

  ghost predicate Ascending<T>(xs: seq<T>, key: T -> real) {
    forall i, j :: 0 <= i < j < |xs| ==> key(xs[i]) <= key(xs[j])
  }

  lemma AscendingCons<T>(x: T, ys: seq<T>, key: T -> real)
    requires Ascending(ys, key) && forall y :: y in ys ==> key(x) <= key(y)
    ensures Ascending([x] + ys, key)
  {
  }

  lemma {:induction false} InsertAscending<T>(x: T, ys: seq<T>, key: T -> real)
    requires Ascending(ys, key)
    ensures Ascending(Insert(x, ys, key), key)
    ensures multiset(Insert(x, ys, key)) == multiset{x} + multiset(ys)
  {
    if ys != [] && key(x) > key(ys[0]) {
      var rest := Insert(x, ys[1..], key);
      InsertAscending(x, ys[1..], key);
      assert ys == [ys[0]] + ys[1..];
      forall z | z in rest
        ensures key(ys[0]) <= key(z)
      {
        assert z in multiset(rest);
      }
      AscendingCons(ys[0], rest, key);
    } else {
      assert forall y :: y in ys ==> key(x) <= key(y);
      AscendingCons(x, ys, key);
    }
  }

  /** Sorting sorts, and loses and invents nothing. */
  lemma {:induction false} SortAscending<T>(xs: seq<T>, key: T -> real)
    ensures Ascending(Sort(xs, key), key)
    ensures multiset(Sort(xs, key)) == multiset(xs)
  {
    if xs == [] {
    } else {
      SortAscending(xs[1..], key);
      InsertAscending(xs[0], Sort(xs[1..], key), key);
      assert xs == [xs[0]] + xs[1..];
    }
  }

  lemma {:induction false} FilterInsert<T>(x: T, ys: seq<T>, key: T -> real, p: T -> bool)
    requires Ascending(ys, key)
    ensures Filter(Insert(x, ys, key), p) == if p(x) then Insert(x, Filter(ys, p), key) else Filter(ys, p)
  {
    var r := Insert(x, ys, key);
    if ys == [] || key(x) <= key(ys[0]) {
      assert r[1..] == ys;
      FilterStartsLate(x, ys, key, p);
    } else {
      assert r[1..] == Insert(x, ys[1..], key);
      FilterInsert(x, ys[1..], key, p);
      if p(ys[0]) {
        assert Filter(ys, p)[1..] == Filter(ys[1..], p);
      } else {
        assert Filter(ys, p) == Filter(ys[1..], p);
      }
    }
  }

  lemma FilterStartsLate<T>(x: T, ys: seq<T>, key: T -> real, p: T -> bool)
    requires Ascending(ys, key) && (ys == [] || key(x) <= key(ys[0]))
    ensures Insert(x, Filter(ys, p), key) == [x] + Filter(ys, p)
  {
    if Filter(ys, p) != [] {
      assert Filter(ys, p)[0] in ys;
    }
  }

  /** Filtering before or after the stable sort is the same. */
  lemma {:induction false} FilterSort<T>(xs: seq<T>, key: T -> real, p: T -> bool)
    ensures Filter(Sort(xs, key), p) == Sort(Filter(xs, p), key)
  {
    if xs == [] {
    } else {
      FilterSort(xs[1..], key, p);
      SortAscending(xs[1..], key);
      FilterInsert(xs[0], Sort(xs[1..], key), key, p);
      if p(xs[0]) {
        assert Filter(xs, p)[1..] == Filter(xs[1..], p);
      } else {
        assert Filter(xs, p) == Filter(xs[1..], p);
      }
    }
  }

  /** `p` holds up to some key and not after. */
  ghost predicate DownwardClosed<T(!new)>(key: T -> real, p: T -> bool) {
    forall x, y :: p(y) && key(x) <= key(y) ==> p(x)
  }

  lemma {:induction false} NoneLater<T(!new)>(xs: seq<T>, p: T -> bool)
    requires forall x :: x in xs ==> !p(x)
    ensures Filter(xs, p) == []
  {
    if xs == [] {
    } else {
      assert xs[0] in xs;
      NoneLater(xs[1..], p);
    }
  }

  lemma {:induction false} FilterIsLeading<T(!new)>(xs: seq<T>, key: T -> real, p: T -> bool)
    requires Ascending(xs, key) && DownwardClosed(key, p)
    ensures Filter(xs, p) == Leading(xs, p)
  {
    if xs == [] {
    } else {
      if p(xs[0]) {
        FilterIsLeading(xs[1..], key, p);
      } else {
        forall x | x in xs
          ensures !p(x)
        {
          var i :| 0 <= i < |xs| && xs[i] == x;
          assert key(xs[0]) <= key(xs[i]);
        }
        NoneLater(xs, p);
      }
    }
  }

  lemma {:induction false} LeadingTake<T>(xs: seq<T>, p: T -> bool, n: int)
    ensures Take(Leading(xs, p), n) == Leading(Take(xs, n), p)
  {
    if xs == [] || !p(xs[0]) || n <= 0 {
    } else {
      LeadingTake(xs[1..], p, n - 1);
      assert Leading(xs, p)[1..] == Leading(xs[1..], p);
      TakeCons(Leading(xs, p), n);
      TakeCons(xs, n);
    }
  }

  lemma {:induction false} LeadingMap<T(!new), U>(xs: seq<T>, f: T -> U, p: T -> bool, q: U -> bool)
    requires forall x :: q(f(x)) == p(x)
    ensures Leading(Map(xs, f), q) == Map(Leading(xs, p), f)
  {
    if xs == [] || !p(xs[0]) {
    } else {
      LeadingMap(xs[1..], f, p, q);
      assert Map(xs, f)[1..] == Map(xs[1..], f);
      assert Leading(xs, p) == [xs[0]] + Leading(xs[1..], p);
    }
  }

  lemma TakeCons<T>(xs: seq<T>, n: int)
    requires xs != [] && n > 0
    ensures Take(xs, n) == [xs[0]] + Take(xs[1..], n - 1)
    ensures Take(xs, n)[1..] == Take(xs[1..], n - 1)
  {
    assert xs == [xs[0]] + xs[1..];
  }

  lemma TakeIsPrefix<T>(xs: seq<T>, n: int)
    ensures Take(xs, n) <= xs
  {
  }

  /** Cutting off at a threshold before ordering and limiting gives the leading part of what ordering and limiting
      alone give. */
  lemma ThresholdIsLeadingPart<T(!new)>(xs: seq<T>, key: T -> real, p: T -> bool, n: int)
    requires DownwardClosed(key, p)
    ensures Take(Sort(Filter(xs, p), key), n) == Leading(Take(Sort(xs, key), n), p)
  {
    FilterSort(xs, key, p);
    SortAscending(xs, key);
    FilterIsLeading(Sort(xs, key), key, p);
    LeadingTake(Sort(xs, key), p, n);
  }

  /** The limit keeps the best: what is left out is not better than anything kept, and something is left out only
      when the limit is used up. */
  lemma TakeKeepsTheBest<T>(xs: seq<T>, key: T -> real, n: nat) returns (rest: seq<T>)
    ensures var kept := Take(Sort(xs, key), n);
            && multiset(xs) == multiset(kept) + multiset(rest)
            && (forall x, y :: x in kept && y in rest ==> key(x) <= key(y))
            && (rest != [] ==> |kept| == n)
  {
    var s := Sort(xs, key);
    SortAscending(xs, key);
    var kept := Take(s, n);
    rest := s[|kept|..];
    assert s == kept + rest;
    forall x, y | x in kept && y in rest
      ensures key(x) <= key(y)
    {
      var i :| 0 <= i < |kept| && kept[i] == x;
      var j :| 0 <= j < |rest| && rest[j] == y;
      assert s[i] == x && s[|kept| + j] == y;
    }
  }

  /** What ordering and cutting do to each row: it is shown, or the limit is used up by rows that are not after it. */
  lemma ShownOrBeaten<T>(xs: seq<T>, key: T -> real, n: nat)
    ensures var shown := Take(Sort(xs, key), n);
            && |shown| <= n && Ascending(shown, key)
            && (forall x :: x in shown ==> x in xs)
            && (forall y :: y in xs ==> y in shown || (|shown| == n && forall x :: x in shown ==> key(x) <= key(y)))
  {
    hide Sort;
    var rest := TakeKeepsTheBest(xs, key, n);
    var shown := Take(Sort(xs, key), n);
    SortAscending(xs, key);
    TakeIsPrefix(Sort(xs, key), n);
    forall x | x in shown
      ensures x in xs
    {
      assert x in multiset(shown) + multiset(rest);
    }
    forall y | y in xs && y !in shown
      ensures y in rest
    {
      assert y in multiset(xs);
    }
  }

  /** Two keys that order the rows alike sort them alike. */
  ghost predicate SameOrder<T>(xs: seq<T>, key: T -> real, other: T -> real) {
    forall x, y :: x in xs && y in xs ==> (key(x) <= key(y) <==> other(x) <= other(y))
  }

  lemma {:induction false} InsertSameOrder<T>(x: T, ys: seq<T>, key: T -> real, other: T -> real)
    requires SameOrder([x] + ys, key, other)
    ensures Insert(x, ys, key) == Insert(x, ys, other)
  {
    if ys == [] {
    } else {
      var all := [x] + ys;
      assert x in all && ys[0] in all;
      forall z | z in [x] + ys[1..]
        ensures z in all
      {
      }
      InsertSameOrder(x, ys[1..], key, other);
    }
  }

  lemma {:induction false} SortSameOrder<T>(xs: seq<T>, key: T -> real, other: T -> real)
    requires SameOrder(xs, key, other)
    ensures Sort(xs, key) == Sort(xs, other)
  {
    if xs == [] {
    } else {
      var rest := Sort(xs[1..], key);
      assert forall z :: z in xs[1..] ==> z in xs;
      SortSameOrder(xs[1..], key, other);
      SortAscending(xs[1..], key);
      forall z | z in [xs[0]] + rest
        ensures z in xs
      {
        if z in rest {
          assert z in multiset(rest);
        }
      }
      InsertSameOrder(xs[0], rest, key, other);
    }
  }

  /** Rows that all tie stay in table order. */
  lemma {:induction false} SortTies<T>(xs: seq<T>, key: T -> real)
    requires forall x, y :: x in xs && y in xs ==> key(x) == key(y)
    ensures Sort(xs, key) == xs
  {
    if xs == [] {
    } else {
      assert forall x :: x in xs[1..] ==> x in xs;
      SortTies(xs[1..], key);
      assert xs == [xs[0]] + xs[1..];
    }
  }
}
