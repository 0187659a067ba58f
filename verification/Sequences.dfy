/**
  The pieces of Go's `strings` package the service leans on, over sequences of any
  element type: containment, leftmost-match splitting and joining.
 */
module Sequences {

  predicate MatchAt<T(==)>(t: seq<T>, sep: seq<T>, i: nat) {
    i + |sep| <= |t| && t[i..i + |sep|] == sep
  }

  predicate Contains<T(==)>(t: seq<T>, sep: seq<T>) {
    exists i :: 0 <= i <= |t| && MatchAt(t, sep, i)
  }

  /** The leftmost position at or after `i` where `sep` occurs. */
  function IndexFrom<T(==)>(t: seq<T>, sep: seq<T>, i: nat): (r: nat)
    requires exists j :: i <= j <= |t| && MatchAt(t, sep, j)
    ensures i <= r && MatchAt(t, sep, r)
    ensures forall j :: i <= j < r ==> !MatchAt(t, sep, j)
    decreases |t| - i
  {
    if MatchAt(t, sep, i) then i else IndexFrom(t, sep, i + 1)
  }

  /** `strings.Split` for a non-empty separator: cut at leftmost, non-overlapping matches. */
  function Split<T(==)>(t: seq<T>, sep: seq<T>): (parts: seq<seq<T>>)
    requires sep != []
    ensures parts != []
    decreases |t|
  {
    if !Contains(t, sep) then
      [t]
    else
      var i := IndexFrom(t, sep, 0);
      [t[..i]] + Split(t[i + |sep|..], sep)
  }

  /** `strings.Join`. */
  function Join<T>(parts: seq<seq<T>>, sep: seq<T>): seq<T> {
    if parts == [] then []
    else if |parts| == 1 then parts[0]
    else parts[0] + sep + Join(parts[1..], sep)
  }

  /** `strings.TrimSpace`, for a given notion of blank. */
  function Trim<T>(s: seq<T>, blank: T -> bool): (r: seq<T>)
    ensures r == [] || (!blank(r[0]) && !blank(r[|r| - 1]))
    ensures r == [] <==> forall i :: 0 <= i < |s| ==> blank(s[i])
  {
    if s == [] then []
    else if blank(s[0]) then
      assert s == [s[0]] + s[1..];
      Trim(s[1..], blank)
    else if blank(s[|s| - 1]) then
      Trim(s[..|s| - 1], blank)
    else s
  }

  lemma SliceOfSlice<T>(s: seq<T>, i: nat, j: nat, lo: nat, hi: nat)
    requires i <= j <= |s| && lo <= hi <= j - i
    ensures s[i..j][lo..hi] == s[i + lo..i + hi]
  {
    var u, v := s[i..j], s[i + lo..i + hi];
    assert forall k :: 0 <= k < hi - lo ==> u[lo..hi][k] == u[lo + k] == v[k];
  }

  /** Trimming keeps a slice and takes away blanks only. */
  lemma {:induction false} TrimKeepsTheMiddle<T>(s: seq<T>, blank: T -> bool) returns (lo: nat, hi: nat)
    ensures lo <= hi <= |s| && Trim(s, blank) == s[lo..hi]
    ensures forall i :: 0 <= i < lo || hi <= i < |s| ==> blank(s[i])
  {
    lo, hi := 0, |s|;
    if s == [] {
    } else if blank(s[0]) {
      var u := s[1..];
      var l, h := TrimKeepsTheMiddle(u, blank);
      lo, hi := l + 1, h + 1;
      SliceOfSlice(s, 1, |s|, l, h);
      forall i | 0 <= i < lo || hi <= i < |s|
        ensures blank(s[i])
      {
        assert i > 0 ==> u[i - 1] == s[i];
      }
    } else if blank(s[|s| - 1]) {
      var u := s[..|s| - 1];
      lo, hi := TrimKeepsTheMiddle(u, blank);
      SliceOfSlice(s, 0, |s| - 1, lo, hi);
    }
  }

  /** Every part followed by the separator: the joined text plus one trailing separator. */
  ghost function Glue<T>(parts: seq<seq<T>>, sep: seq<T>): seq<T> {
    if parts == [] then [] else parts[0] + sep + Glue(parts[1..], sep)
  }

  /** Where part `k` starts in the joined text, counting one separator after every part before it. */
  ghost function Offset<T>(parts: seq<seq<T>>, sepLen: nat, k: nat): nat
    requires k <= |parts|
  {
    if k == 0 then 0 else Offset(parts, sepLen, k - 1) + |parts[k - 1]| + sepLen
  }

  lemma {:induction false} JoinGlue<T>(parts: seq<seq<T>>, sep: seq<T>)
    requires parts != []
    ensures Glue(parts, sep) == Join(parts, sep) + sep
  {
    if |parts| == 1 {
      assert Glue(parts[1..], sep) == [];
    } else {
      JoinGlue(parts[1..], sep);
    }
  }

  lemma {:induction false} GlueAppend<T>(a: seq<seq<T>>, b: seq<seq<T>>, sep: seq<T>)
    ensures Glue(a + b, sep) == Glue(a, sep) + Glue(b, sep)
  {
    if a == [] {
      assert a + b == b;
    } else {
      GlueAppend(a[1..], b, sep);
      assert (a + b)[1..] == a[1..] + b;
      Assoc(a[0] + sep, Glue(a[1..], sep), Glue(b, sep));
    }
  }

  lemma Assoc<T>(a: seq<T>, b: seq<T>, c: seq<T>)
    ensures a + (b + c) == a + b + c
  {
  }

  lemma {:induction false} JoinAppend<T>(a: seq<seq<T>>, b: seq<seq<T>>, sep: seq<T>)
    requires a != [] && b != []
    ensures Join(a + b, sep) == Join(a, sep) + sep + Join(b, sep)
  {
    if |a| == 1 {
      assert (a + b)[1..] == b;
    } else {
      JoinAppend(a[1..], b, sep);
      assert (a + b)[1..] == a[1..] + b;
    }
  }

  lemma {:induction false} OffsetIsGlueLength<T>(parts: seq<seq<T>>, sep: seq<T>, k: nat)
    requires k <= |parts|
    ensures Offset(parts, |sep|, k) == |Glue(parts[..k], sep)|
  {
    if k == 0 {
    } else {
      OffsetIsGlueLength(parts, sep, k - 1);
      assert parts[..k] == parts[..k - 1] + [parts[k - 1]];
      GlueAppend(parts[..k - 1], [parts[k - 1]], sep);
      assert Glue([parts[k - 1]], sep) == parts[k - 1] + sep;
    }
  }

  lemma {:induction false} OffsetStrict<T>(parts: seq<seq<T>>, sepLen: nat, a: nat, b: nat)
    requires a < b <= |parts|
    ensures Offset(parts, sepLen, a) + |parts[a]| + sepLen <= Offset(parts, sepLen, b)
    decreases b
  {
    if a == b - 1 {
    } else {
      OffsetStrict(parts, sepLen, a, b - 1);
    }
  }

  lemma OffsetMonotone<T>(parts: seq<seq<T>>, sepLen: nat, a: nat, b: nat)
    requires a <= b <= |parts|
    ensures Offset(parts, sepLen, a) <= Offset(parts, sepLen, b)
  {
    if a < b {
      OffsetStrict(parts, sepLen, a, b);
    }
  }

  /** Joining a contiguous window of the parts gives a contiguous slice of the joined text, and a
      window that stops short of the last part is followed by exactly one separator. */
  lemma JoinWindow<T>(parts: seq<seq<T>>, sep: seq<T>, a: nat, b: nat)
    requires a < b <= |parts| && sep != []
    ensures var lo, hi, t := Offset(parts, |sep|, a), Offset(parts, |sep|, b) - |sep|, Join(parts, sep);
            lo <= hi <= |t| && t[lo..hi] == Join(parts[a..b], sep)
            && (b == |parts| ==> hi == |t|)
            && (b < |parts| ==> hi + |sep| <= |t| && t[hi..hi + |sep|] == sep)
  {
    var t, w := Join(parts, sep), Join(parts[a..b], sep);
    var ga, gb := Glue(parts[..a], sep), Glue(parts[b..], sep);
    JoinGlue(parts, sep);
    JoinGlue(parts[a..b], sep);
    assert parts[..a] + parts[a..b] == parts[..b] && parts[..b] + parts[b..] == parts;
    GlueAppend(parts[..a], parts[a..b], sep);
    GlueAppend(parts[..b], parts[b..], sep);
    OffsetIsGlueLength(parts, sep, a);
    OffsetIsGlueLength(parts, sep, b);
    if b < |parts| {
      JoinGlue(parts[b..], sep);
    } else {
      assert parts[b..] == [] && gb == [];
    }
    hide Join, Glue, Offset;
    SliceOut(t, sep, ga, w, gb);
  }

  /** A word followed by the separator, cut out of a text that ends before its own trailing separator. */
  lemma SliceOut<T>(t: seq<T>, sep: seq<T>, before: seq<T>, w: seq<T>, after: seq<T>)
    requires t + sep == before + (w + sep) + after
    requires after == [] || |after| >= |sep|
    ensures var hi := |before| + |w|;
            hi <= |t| && t[|before|..hi] == w
            && (after == [] ==> hi == |t|)
            && (after != [] ==> hi + |sep| <= |t| && t[hi..hi + |sep|] == sep)
  {
    var hi := |before| + |w|;
    assert |t + sep| == |before| + |w| + |sep| + |after|;
    assert t[|before|..hi] == (t + sep)[|before|..hi] == w;
    if after != [] {
      assert t[hi..hi + |sep|] == (t + sep)[hi..hi + |sep|] == sep;
    }
  }

  /** Splitting loses nothing: joining the parts with the separator gives the text back. */
  lemma {:induction false} JoinSplit<T>(t: seq<T>, sep: seq<T>)
    requires sep != []
    ensures Join(Split(t, sep), sep) == t
    decreases |t|
  {
    if !Contains(t, sep) {
    } else {
      var i := IndexFrom(t, sep, 0);
      var rest := t[i + |sep|..];
      JoinSplit(rest, sep);
      var parts := Split(t, sep);
      assert parts[1..] == Split(rest, sep);
      assert t == t[..i] + t[i..i + |sep|] + rest;
    }
  }

  /** A prefix that ends where the leftmost match starts holds no match of its own. */
  lemma CleanPrefix<T>(t: seq<T>, sep: seq<T>, i: nat)
    requires i <= |t| && sep != []
    requires forall j :: 0 <= j < i ==> !MatchAt(t, sep, j)
    ensures !Contains(t[..i], sep)
  {
    forall j | 0 <= j && j + |sep| <= i
      ensures !MatchAt(t[..i], sep, j)
    {
      assert !MatchAt(t, sep, j);
      assert t[..i][j..j + |sep|] == t[j..j + |sep|];
    }
  }

  /** Splitting is complete: no part still holds the separator. */
  lemma {:induction false} SplitPartsAreClean<T>(t: seq<T>, sep: seq<T>)
    requires sep != []
    ensures forall p :: p in Split(t, sep) ==> !Contains(p, sep)
    decreases |t|
  {
    if !Contains(t, sep) {
    } else {
      var i := IndexFrom(t, sep, 0);
      CleanPrefix(t, sep, i);
      SplitPartsAreClean(t[i + |sep|..], sep);
    }
  }

  /** Splitting on one element inverts joining with it, provided no part holds that element. */
  lemma {:induction false} SplitJoin<T>(parts: seq<seq<T>>, c: T)
    requires parts != []
    requires forall p :: p in parts ==> c !in p
    ensures Split(Join(parts, [c]), [c]) == parts
  {
    var t := Join(parts, [c]);
    assert c !in parts[0];
    if |parts| == 1 {
      forall i | 0 <= i < |t|
        ensures !MatchAt(t, [c], i)
      {
        assert t[i..i + 1][0] == t[i];
      }
    } else {
      var p, rest := parts[0], Join(parts[1..], [c]);
      assert t == p + [c] + rest;
      SplitJoin(parts[1..], c);
      assert MatchAt(t, [c], |p|) by {
        assert t[|p|..|p| + 1] == [c];
      }
      var i := IndexFrom(t, [c], 0);
      forall j | 0 <= j < |p|
        ensures !MatchAt(t, [c], j)
      {
        assert t[j..j + 1][0] == t[j] == p[j];
      }
      assert i == |p| && t[..i] == p && t[i + 1..] == rest;
    }
  }
}
