/**
  RecursiveCharacterChunker: split on the first separator of a hierarchy that occurs, pack the small
  parts, recurse into the large ones with the rest of the hierarchy, fall back to fixed windows.
 */
module Recursive {
  import opened Texts
  import opened Sequences
  import FixedSize
  import MergeDocs

  const DEFAULT_SEPARATORS: seq<Text> := [[10, 10], [10], [32], []]

  /** The first separator at or after `i` that occurs in the text; the empty one occurs everywhere. */
  function FirstSeparator(text: Text, separators: seq<Text>, i: nat): (r: nat)
    requires i <= |separators|
    ensures i <= r <= |separators|
    ensures r < |separators| ==> Contains(text, separators[r])
    ensures forall j :: i <= j < r ==> !Contains(text, separators[j])
    decreases |separators| - i
  {
    if i == |separators| || Contains(text, separators[i]) then i else FirstSeparator(text, separators, i + 1)
  }

  function FlushDocs(docs: seq<Text>, sep: Text, p: Params): seq<Text>
    requires p.Valid()
  {
    if docs == [] then [] else MergeDocs.Merged(docs, sep, p)
  }

  function Pieces(text: Text, separators: seq<Text>, p: Params): seq<Text>
    requires p.Valid()
    decreases |separators|, 0
  {
    if |text| <= p.size then [text]
    else
      var i := FirstSeparator(text, separators, 0);
      if i == |separators| || separators[i] == [] then FixedSize.Chunks(text, p)
      else PartPieces(Split(text, separators[i]), [], separators[i], separators[i + 1..], p)
  }

  /** The chunks of a row of parts, `docs` being the small parts waiting to be packed. */
  function PartPieces(parts: seq<Text>, docs: seq<Text>, sep: Text, next: seq<Text>, p: Params): seq<Text>
    requires p.Valid()
    decreases |next|, 1 + |parts|
  {
    if parts == [] then FlushDocs(docs, sep, p)
    else if |parts[0]| > p.size then
      FlushDocs(docs, sep, p) + Pieces(parts[0], next, p) + PartPieces(parts[1..], [], sep, next, p)
    else PartPieces(parts[1..], docs + [parts[0]], sep, next, p)
  }

  method Chunk(text: Text, separators: seq<Text>, size: int, overlap: int) returns (chunks: seq<Text>)
    ensures chunks == Pieces(text, separators, Normalise(size, overlap))
  {
    var p := Normalise(size, overlap);
    chunks := SplitText(text, separators, p.size, p.overlap);
  }

  method SplitText(text: Text, separators: seq<Text>, size: int, overlap: int) returns (finalChunks: seq<Text>)
    requires Params(size, overlap).Valid()
    ensures finalChunks == Pieces(text, separators, Params(size, overlap))
    decreases |separators|
  {
    ghost var p := Params(size, overlap);
    if |text| <= size {
      return [text];
    }
    var separator: Text, nextSeparators: seq<Text> := [], [];
    var i := 0;
    while i < |separators|
      invariant i <= |separators| && separator == []
      invariant FirstSeparator(text, separators, 0) == FirstSeparator(text, separators, i)
    {
      if Contains(text, separators[i]) {
        separator, nextSeparators := separators[i], separators[i + 1..];
        break;
      }
      i := i + 1;
    }
    if separator == [] {
      finalChunks := FixedSize.Chunk(text, size, overlap);
      return;
    }
    var parts := Split(text, separator);
    finalChunks := [];
    var currentDocs: seq<Text> := [];
    ghost var rest := Pieces(text, separators, p);
    for k := 0 to |parts|
      invariant rest == PartPieces(parts[k..], currentDocs, separator, nextSeparators, p)
      invariant Pieces(text, separators, p) == finalChunks + rest
    {
      var part := parts[k];
      assert parts[k..][1..] == parts[k + 1..];
      if |part| > size {
        ghost var flushed, inner := FlushDocs(currentDocs, separator, p), Pieces(part, nextSeparators, p);
        rest := PartPieces(parts[k + 1..], [], separator, nextSeparators, p);
        Regroup(finalChunks, flushed, inner, rest);
        if |currentDocs| > 0 {
          var merged := MergeDocs.Merge(currentDocs, separator, size, overlap);
          finalChunks := finalChunks + merged;
        }
        var recursiveChunks := SplitText(part, nextSeparators, size, overlap);
        finalChunks := finalChunks + recursiveChunks;
        currentDocs := [];
      } else {
        currentDocs := currentDocs + [part];
      }
    }
    if |currentDocs| > 0 {
      var merged := MergeDocs.Merge(currentDocs, separator, size, overlap);
      finalChunks := finalChunks + merged;
    }
  }

  lemma Regroup(before: seq<Text>, flushed: seq<Text>, inner: seq<Text>, rest: seq<Text>)
    ensures before + (flushed + inner + rest) == before + flushed + inner + rest
    ensures flushed == [] ==> before + flushed == before
  {
  }

  // ---------------------------------------------------------------- coverage

  /** The half-open byte range `[lo, hi)`. */
  datatype Interval = Interval(lo: nat, hi: nat)

  ghost predicate SliceAt(text: Text, chunk: Text, iv: Interval) {
    iv.lo <= iv.hi <= |text| && chunk == text[iv.lo..iv.hi]
  }

  /** `v` may follow `u`: its left end is not before, its right end is further, and if they do not touch, the
      bytes between them are one separator. */
  ghost predicate Follows(text: Text, u: Interval, v: Interval, seps: seq<Text>) {
    && u.lo <= v.lo && u.hi < v.hi
    && (u.hi < v.lo ==> v.lo <= |text| && text[u.hi..v.lo] in seps)
  }

  /** The chunks are the slices of the text named by `ivs`; together they run from its first byte to its last, left
      ends never move back, right ends always advance, and whatever lies between one chunk and the next is
      exactly one separator of the hierarchy. */
  ghost predicate Covers(text: Text, chunks: seq<Text>, ivs: seq<Interval>, seps: seq<Text>) {
    && |ivs| == |chunks| > 0
    && ivs[0].lo == 0 && ivs[|ivs| - 1].hi == |text|
    && (forall k :: 0 <= k < |ivs| ==> SliceAt(text, chunks[k], ivs[k]))
    && (forall k :: 0 <= k < |ivs| - 1 ==> FollowsAt(text, ivs, k, seps))
  }

  ghost predicate FollowsAt(text: Text, ivs: seq<Interval>, k: nat, seps: seq<Text>)
    requires k + 1 < |ivs|
  {
    Follows(text, ivs[k], ivs[k + 1], seps)
  }

  ghost function Moved(iv: Interval, distance: nat): Interval {
    Interval(iv.lo + distance, iv.hi + distance)
  }

  ghost function Shift(ivs: seq<Interval>, distance: nat): (r: seq<Interval>)
    ensures |r| == |ivs|
    ensures forall k :: 0 <= k < |ivs| ==> r[k] == Moved(ivs[k], distance)
  {
    seq(|ivs|, k requires 0 <= k < |ivs| => Moved(ivs[k], distance))
  }

  lemma InLonger(before: Text, t: Text, after: Text, lo: nat, hi: nat)
    requires lo <= hi <= |t|
    ensures (before + t + after)[|before| + lo..|before| + hi] == t[lo..hi]
  {
  }

  lemma SliceInLonger(before: Text, t: Text, after: Text, chunk: Text, iv: Interval)
    requires SliceAt(t, chunk, iv)
    ensures SliceAt(before + t + after, chunk, Moved(iv, |before|))
  {
    InLonger(before, t, after, iv.lo, iv.hi);
  }

  lemma FollowsInLonger(before: Text, t: Text, after: Text, u: Interval, v: Interval, seps: seq<Text>)
    requires Follows(t, u, v, seps)
    ensures Follows(before + t + after, Moved(u, |before|), Moved(v, |before|), seps)
  {
    if u.hi < v.lo {
      InLonger(before, t, after, u.hi, v.lo);
    }
  }

  /** Space and newline, the bytes of the service's separators. */
  predicate Blank(b: Byte) {
    b == 10 || b == 32
  }

  ghost predicate AllBlank(sep: Text) {
    sep != [] && forall i :: 0 <= i < |sep| ==> Blank(sep[i])
  }

  /** No word is cut: left of the range is the start of the text or a blank, right of it the end or a blank. */
  ghost predicate BetweenWords(text: Text, iv: Interval) {
    && iv.lo <= |text| && (iv.lo == 0 || Blank(text[iv.lo - 1]))
    && iv.hi <= |text| && (iv.hi == |text| || Blank(text[iv.hi]))
  }

  ghost predicate WordsWhole(text: Text, ivs: seq<Interval>) {
    forall k :: 0 <= k < |ivs| ==> BetweenWords(text, ivs[k])
  }

  lemma WordsWholeBeside(t1: Text, i1: seq<Interval>, sep: Text, t2: Text, i2: seq<Interval>)
    requires WordsWhole(t1, i1) && WordsWhole(t2, i2) && AllBlank(sep)
    ensures WordsWhole(t1 + sep + t2, i1 + Shift(i2, |t1 + sep|))
  {
    var t := t1 + sep + t2;
    assert t[|t1|] == sep[0] && t[|t1 + sep| - 1] == sep[|sep| - 1];
    forall k | 0 <= k < |i1|
      ensures BetweenWords(t, i1[k])
    {
      assert BetweenWords(t1, i1[k]);
    }
    forall k | 0 <= k < |i2|
      ensures BetweenWords(t, Moved(i2[k], |t1 + sep|))
    {
      assert BetweenWords(t2, i2[k]);
    }
  }

  lemma WholeIsWhole(text: Text)
    ensures WordsWhole(text, [Interval(0, |text|)])
  {
  }

  lemma WindowIsBetweenWords(docs: seq<Text>, sep: Text, w: MergeDocs.Window)
    requires AllBlank(sep) && w.a < w.b <= |docs|
    ensures BetweenWords(Join(docs, sep), WindowInterval(docs, sep, w))
  {
    hide Join;
    var t := Join(docs, sep);
    JoinWindow(docs, sep, w.a, w.b);
    if w.b < |docs| {
      var hi := Offset(docs, |sep|, w.b) - |sep|;
      assert t[hi..hi + |sep|][0] == t[hi];
    }
    if w.a > 0 {
      JoinWindow(docs, sep, 0, w.a);
      var lo := Offset(docs, |sep|, w.a);
      assert t[lo - |sep|..lo][|sep| - 1] == t[lo - 1];
    }
  }

  /** Coverings of two texts give one of the two texts with a separator between them. */
  lemma CoversBeside(t1: Text, c1: seq<Text>, i1: seq<Interval>, sep: Text,
                     t2: Text, c2: seq<Text>, i2: seq<Interval>, seps: seq<Text>)
    requires Covers(t1, c1, i1, seps) && Covers(t2, c2, i2, seps) && sep in seps && sep != []
    ensures Covers(t1 + sep + t2, c1 + c2, i1 + Shift(i2, |t1 + sep|), seps)
  {
    var t, n, s2 := t1 + sep + t2, |i1|, Shift(i2, |t1 + sep|);
    var ivs := i1 + s2;
    assert t == [] + t1 + (sep + t2) && t == (t1 + sep) + t2 + [];
    hide SliceAt, Follows;
    forall k | 0 <= k < |ivs|
      ensures SliceAt(t, (c1 + c2)[k], ivs[k])
    {
      if k < n {
        SliceInLonger([], t1, sep + t2, c1[k], i1[k]);
        assert Moved(i1[k], 0) == i1[k];
      } else {
        SliceInLonger(t1 + sep, t2, [], c2[k - n], i2[k - n]);
      }
    }
    forall k | 0 <= k < |ivs| - 1
      ensures FollowsAt(t, ivs, k, seps)
    {
      FollowsBeside(t1, c1, i1, sep, t2, c2, i2, seps, k);
    }
  }

  lemma FollowsBeside(t1: Text, c1: seq<Text>, i1: seq<Interval>, sep: Text,
                      t2: Text, c2: seq<Text>, i2: seq<Interval>, seps: seq<Text>, k: nat)
    requires Covers(t1, c1, i1, seps) && Covers(t2, c2, i2, seps) && sep in seps && sep != []
    requires k + 1 < |i1| + |i2|
    ensures FollowsAt(t1 + sep + t2, i1 + Shift(i2, |t1 + sep|), k, seps)
  {
    var t, n := t1 + sep + t2, |i1|;
    if k + 1 < n {
      assert t == [] + t1 + (sep + t2);
      assert FollowsAt(t1, i1, k, seps);
      FollowsInLonger([], t1, sep + t2, i1[k], i1[k + 1], seps);
      assert Moved(i1[k], 0) == i1[k] && Moved(i1[k + 1], 0) == i1[k + 1];
    } else if k + 1 > n {
      assert t == (t1 + sep) + t2 + [];
      assert FollowsAt(t2, i2, k - n, seps);
      FollowsInLonger(t1 + sep, t2, [], i2[k - n], i2[k - n + 1], seps);
    } else {
      assert SliceAt(t1, c1[k], i1[k]) && SliceAt(t2, c2[0], i2[0]);
      InLonger(t1, sep, t2, 0, |sep|);
    }
  }

  lemma FixedCovers(text: Text, p: Params, seps: seq<Text>) returns (ivs: seq<Interval>)
    requires p.Valid() && text != []
    ensures Covers(text, FixedSize.Chunks(text, p), ivs, seps)
  {
    var n, cs := FixedSize.ChunkCount(|text|, p), FixedSize.Chunks(text, p);
    ivs := seq(n, k requires 0 <= k < n => FixedInterval(text, p, k));
    forall k | 0 <= k < n
      ensures SliceAt(text, cs[k], ivs[k])
      ensures k < n - 1 ==> FollowsAt(text, ivs, k, seps)
      ensures k == n - 1 ==> ivs[k].hi == |text|
    {
      FixedSize.WindowStartsInside(|text|, p, k);
    }
  }

  ghost function FixedInterval(text: Text, p: Params, k: nat): Interval
    requires p.Valid() && k < FixedSize.ChunkCount(|text|, p)
  {
    FixedSize.WindowStartsInside(|text|, p, k);
    Interval(FixedSize.Start(p, k), Min(FixedSize.Start(p, k) + p.size, |text|))
  }

  ghost function WindowInterval(docs: seq<Text>, sep: Text, w: MergeDocs.Window): (iv: Interval)
    requires sep != [] && w.a < w.b <= |docs|
    ensures SliceAt(Join(docs, sep), Join(docs[w.a..w.b], sep), iv)
    ensures w.b == |docs| ==> iv.hi == |Join(docs, sep)|
  {
    JoinWindow(docs, sep, w.a, w.b);
    Interval(Offset(docs, |sep|, w.a), Offset(docs, |sep|, w.b) - |sep|)
  }

  /** Two windows in a row either overlap or are one separator apart. */
  lemma WindowFollows(docs: seq<Text>, sep: Text, w: MergeDocs.Window, v: MergeDocs.Window, seps: seq<Text>)
    requires sep != [] && sep in seps && w.a < w.b < v.b <= |docs| && w.a <= v.a <= w.b
    ensures Follows(Join(docs, sep), WindowInterval(docs, sep, w), WindowInterval(docs, sep, v), seps)
  {
    hide Join, Offset, SliceAt;
    var x, y := WindowInterval(docs, sep, w), WindowInterval(docs, sep, v);
    assert x.lo == Offset(docs, |sep|, w.a) && x.hi == Offset(docs, |sep|, w.b) - |sep|;
    assert y.lo == Offset(docs, |sep|, v.a) && y.hi == Offset(docs, |sep|, v.b) - |sep|;
    hide WindowInterval;
    OffsetMonotone(docs, |sep|, w.a, v.a);
    OffsetStrict(docs, |sep|, w.b, v.b);
    if v.a < w.b {
      OffsetStrict(docs, |sep|, v.a, w.b);
    } else {
      JoinWindow(docs, sep, w.a, w.b);
    }
  }

  lemma MergedCovers(docs: seq<Text>, sep: Text, p: Params, seps: seq<Text>) returns (ivs: seq<Interval>)
    requires p.Valid() && docs != [] && sep != [] && sep in seps
    ensures Covers(Join(docs, sep), MergeDocs.Merged(docs, sep, p), ivs, seps)
    ensures AllBlank(sep) ==> WordsWhole(Join(docs, sep), ivs)
  {
    var ws := MergeDocs.AllWindows(docs, |sep|, p);
    MergeDocs.WindowsInside(docs, |sep|, p, 0, 0, 0);
    MergeDocs.WindowsContiguous(docs, |sep|, p);
    MergeDocs.RenderAt(docs, sep, ws);
    assert forall k :: 0 <= k < |ws| ==> ws[k] in ws;
    ivs := seq(|ws|, k requires 0 <= k < |ws| => WindowInterval(docs, sep, ws[k]));
    forall k | 0 <= k < |ws| - 1
      ensures FollowsAt(Join(docs, sep), ivs, k, seps)
    {
      assert MergeDocs.Advances(ws, k);
      WindowFollows(docs, sep, ws[k], ws[k + 1], seps);
    }
    forall k | 0 <= k < |ws| && AllBlank(sep)
      ensures BetweenWords(Join(docs, sep), ivs[k])
    {
      WindowIsBetweenWords(docs, sep, ws[k]);
    }
    assert Offset(docs, |sep|, 0) == 0;
  }

  /** Every run of bytes that are no blanks is at most `size` long. */
  predicate WordsWithin(text: Text, size: int) {
    forall i, j :: 0 <= i <= j <= |text| && NoBlank(text, i, j) ==> j - i <= size
  }

  predicate NoBlank(text: Text, i: nat, j: nat)
    requires i <= j <= |text|
  {
    forall k :: i <= k < j ==> !Blank(text[k])
  }

  /** The words are within the size, and at every blank the separators can still cut; the empty one comes last. */
  ghost predicate Cuttable(text: Text, separators: seq<Text>, size: int) {
    && WordsWithin(text, size)
    && (forall i :: 0 <= i < |text| && Blank(text[i]) ==> [text[i]] in separators)
    && (forall k :: 0 <= k < |separators| ==> AllBlank(separators[k]) || (separators[k] == [] && k == |separators| - 1))
  }

  /** Such a text, when too large, is cut at some blanks. */
  lemma CuttableIsCut(text: Text, separators: seq<Text>, size: int)
    requires Cuttable(text, separators, size) && |text| > size
    ensures var i := FirstSeparator(text, separators, 0);
            i < |separators| && AllBlank(separators[i])
  {
    var i := FirstSeparator(text, separators, 0);
    assert !NoBlank(text, 0, |text|);
    var k :| 0 <= k < |text| && Blank(text[k]);
    assert text[k..k + 1] == [text[k]];
    assert MatchAt(text, [text[k]], k) && Contains(text, [text[k]]);
    var j :| 0 <= j < |separators| && separators[j] == [text[k]];
  }

  lemma PartIsSlice(text: Text, sep: Text, k: nat) returns (lo: nat, hi: nat)
    requires sep != [] && k < |Split(text, sep)|
    ensures lo <= hi <= |text| && Split(text, sep)[k] == text[lo..hi]
  {
    hide Split, Offset, Contains;
    var parts := Split(text, sep);
    JoinSplit(text, sep);
    JoinWindow(parts, sep, k, k + 1);
    assert parts[k..k + 1] == [parts[k]];
    lo, hi := Offset(parts, |sep|, k), Offset(parts, |sep|, k + 1) - |sep|;
  }

  lemma ByteInPart(part: Text, sep: Text, x: nat)
    requires x < |part| && sep == [part[x]]
    ensures Contains(part, sep)
  {
    assert part[x..x + 1] == sep;
    assert MatchAt(part, sep, x);
  }

  /** The parts can be cut at what is left of the hierarchy. */
  lemma PartsAreCuttable(text: Text, separators: seq<Text>, size: int, k: nat)
    requires Cuttable(text, separators, size)
    requires var i := FirstSeparator(text, separators, 0);
             i < |separators| && separators[i] != [] && k < |Split(text, separators[i])|
    ensures var i := FirstSeparator(text, separators, 0);
            Cuttable(Split(text, separators[i])[k], separators[i + 1..], size)
  {
    hide Contains, Split;
    var i := FirstSeparator(text, separators, 0);
    var sep, next := separators[i], separators[i + 1..];
    var part := Split(text, sep)[k];
    SplitPartsAreClean(text, sep);
    var lo, hi := PartIsSlice(text, sep, k);
    forall x | 0 <= x < |part| && Blank(part[x])
      ensures [part[x]] in next
    {
      assert part[x] == text[lo + x];
      var j :| 0 <= j < |separators| && separators[j] == [part[x]];
      ByteInPart(part, [part[x]], x);
      ByteInPart(text, [part[x]], lo + x);
      assert next[j - i - 1] == separators[j];
    }
    forall x, y | 0 <= x <= y <= |part| && NoBlank(part, x, y)
      ensures y - x <= size
    {
      assert forall z :: lo + x <= z < lo + y ==> text[z] == part[z - lo];
      assert NoBlank(text, lo + x, lo + y);
    }
  }

  lemma {:induction false} PiecesCover(text: Text, separators: seq<Text>, p: Params, seps: seq<Text>)
      returns (ivs: seq<Interval>)
    requires p.Valid() && (forall s :: s in separators ==> s in seps)
    ensures Covers(text, Pieces(text, separators, p), ivs, seps)
    ensures Cuttable(text, separators, p.size) ==> WordsWhole(text, ivs)
    decreases |separators|, 0
  {
    hide Cuttable, WordsWhole;
    if |text| <= p.size {
      ivs := [Interval(0, |text|)];
      WholeIsWhole(text);
    } else {
      var i := FirstSeparator(text, separators, 0);
      if Cuttable(text, separators, p.size) {
        CuttableIsCut(text, separators, p.size);
        forall k | 0 <= k < |Split(text, separators[i])|
          ensures Cuttable(Split(text, separators[i])[k], separators[i + 1..], p.size)
        {
          PartsAreCuttable(text, separators, p.size, k);
        }
      }
      if i == |separators| || separators[i] == [] {
        ivs := FixedCovers(text, p, seps);
      } else {
        JoinSplit(text, separators[i]);
        var parts := Split(text, separators[i]);
        assert [] + parts == parts;
        ivs := PartPiecesCover(parts, [], separators[i], separators[i + 1..], p, seps);
      }
    }
  }

  ghost predicate AllCuttable(parts: seq<Text>, sep: Text, next: seq<Text>, size: int) {
    AllBlank(sep) && forall k :: 0 <= k < |parts| ==> Cuttable(parts[k], next, size)
  }

  lemma {:induction false} PartPiecesCover(parts: seq<Text>, docs: seq<Text>, sep: Text, next: seq<Text>,
                                           p: Params, seps: seq<Text>) returns (ivs: seq<Interval>)
    requires p.Valid() && sep != [] && sep in seps && (forall s :: s in next ==> s in seps)
    requires docs + parts != []
    ensures Covers(Join(docs + parts, sep), PartPieces(parts, docs, sep, next, p), ivs, seps)
    ensures AllCuttable(parts, sep, next, p.size) ==> WordsWhole(Join(docs + parts, sep), ivs)
    decreases |next|, 1 + |parts|
  {
    hide Cuttable, WordsWhole, AllBlank, Covers;
    if parts == [] {
      assert docs + parts == docs;
      ivs := MergedCovers(docs, sep, p, seps);
    } else if |parts[0]| <= p.size {
      assert docs + parts == docs + [parts[0]] + parts[1..];
      ivs := PartPiecesCover(parts[1..], docs + [parts[0]], sep, next, p, seps);
    } else {
      var cs := FlushDocs(docs, sep, p) + Pieces(parts[0], next, p);
      ivs := LargePartCovers(parts[0], docs, sep, next, p, seps);
      var rest := parts[1..];
      assert docs + parts == (docs + [parts[0]]) + rest;
      if rest == [] {
        assert docs + parts == docs + [parts[0]];
        assert PartPieces(parts, docs, sep, next, p) == cs;
      } else {
        assert [] + rest == rest;
        var i2 := PartPiecesCover(rest, [], sep, next, p, seps);
        CoversBeside(Join(docs + [parts[0]], sep), cs, ivs, sep, Join(rest, sep),
                     PartPieces(rest, [], sep, next, p), i2, seps);
        if AllCuttable(parts, sep, next, p.size) {
          WordsWholeBeside(Join(docs + [parts[0]], sep), ivs, sep, Join(rest, sep), i2);
        }
        JoinAppend(docs + [parts[0]], rest, sep);
        ivs := ivs + Shift(i2, |Join(docs + [parts[0]], sep) + sep|);
      }
    }
  }

  /** The waiting documents followed by one part that is split further. */
  lemma {:induction false} LargePartCovers(part: Text, docs: seq<Text>, sep: Text, next: seq<Text>,
                                           p: Params, seps: seq<Text>) returns (ivs: seq<Interval>)
    requires p.Valid() && sep != [] && sep in seps && (forall s :: s in next ==> s in seps)
    ensures Covers(Join(docs + [part], sep), FlushDocs(docs, sep, p) + Pieces(part, next, p), ivs, seps)
    ensures AllBlank(sep) && Cuttable(part, next, p.size) ==> WordsWhole(Join(docs + [part], sep), ivs)
    decreases |next|, 1
  {
    hide Cuttable, WordsWhole, AllBlank;
    var cs := Pieces(part, next, p);
    ivs := PiecesCover(part, next, p, seps);
    if docs == [] {
      assert FlushDocs(docs, sep, p) + cs == cs && docs + [part] == [part];
    } else {
      var i0 := MergedCovers(docs, sep, p, seps);
      CoversBeside(Join(docs, sep), FlushDocs(docs, sep, p), i0, sep, part, cs, ivs, seps);
      if AllBlank(sep) && Cuttable(part, next, p.size) {
        WordsWholeBeside(Join(docs, sep), i0, sep, part, ivs);
      }
      JoinAppend(docs, [part], sep);
      ivs := i0 + Shift(ivs, |Join(docs, sep) + sep|);
    }
  }

  /** Coverage, for every text, every parameters and every separator hierarchy: chunks are slices in order, and only
      single separators of the hierarchy are ever dropped between them. */
  lemma ChunksCoverText(text: Text, separators: seq<Text>, size: int, overlap: int)
    ensures exists ivs :: Covers(text, Pieces(text, separators, Normalise(size, overlap)), ivs, separators)
  {
    var ivs := PiecesCover(text, separators, Normalise(size, overlap), separators);
  }

  ghost predicate AllWordsWithin(chunks: seq<Text>, size: int) {
    forall c :: c in chunks ==> WordsWithin(c, size)
  }

  lemma NoBlankInRest(before: Text, rest: Text, x: nat, y: nat)
    requires |before| <= x <= y <= |before + rest| && NoBlank(before + rest, x, y)
    ensures NoBlank(rest, x - |before|, y - |before|)
  {
    forall z | x - |before| <= z < y - |before|
      ensures !Blank(rest[z])
    {
      assert rest[z] == (before + rest)[z + |before|];
    }
  }

  lemma {:induction false} JoinedWords(docs: seq<Text>, sep: Text, size: nat)
    requires AllBlank(sep) && forall d :: d in docs ==> |d| <= size
    ensures WordsWithin(Join(docs, sep), size)
  {
    if |docs| <= 1 {
    } else {
      var d, rest := docs[0], Join(docs[1..], sep);
      var t := d + sep + rest;
      JoinedWords(docs[1..], sep, size);
      var n := |d + sep|;
      forall z | |d| <= z < n
        ensures Blank(t[z])
      {
        assert t[z] == sep[z - |d|];
      }
      assert Blank(t[|d|]);
      forall x, y | 0 <= x <= y <= |t| && NoBlank(t, x, y)
        ensures y - x <= size
      {
        if x < y {
          assert !Blank(t[x]);
          if |d| < y {
            assert n <= x;
            NoBlankInRest(d + sep, rest, x, y);
          }
        }
      }
    }
  }

  lemma MergedWords(docs: seq<Text>, sep: Text, p: Params)
    requires p.Valid() && AllBlank(sep) && forall d :: d in docs ==> |d| <= p.size
    ensures AllWordsWithin(MergeDocs.Merged(docs, sep, p), p.size)
  {
    var ws := MergeDocs.AllWindows(docs, |sep|, p);
    MergeDocs.WindowsInside(docs, |sep|, p, 0, 0, 0);
    MergeDocs.RenderAt(docs, sep, ws);
    forall k | 0 <= k < |ws|
      ensures WordsWithin(MergeDocs.Merged(docs, sep, p)[k], p.size)
    {
      assert ws[k] in ws;
      JoinedWords(docs[ws[k].a..ws[k].b], sep, p.size);
    }
  }

  ghost predicate BlankSeparators(separators: seq<Text>) {
    forall s :: s in separators ==> s == [] || AllBlank(s)
  }

  /** A chunk may be longer than the size, but no word in it is. */
  lemma {:induction false} ChunkWords(text: Text, separators: seq<Text>, p: Params)
    requires p.Valid() && BlankSeparators(separators)
    ensures AllWordsWithin(Pieces(text, separators, p), p.size)
    decreases |separators|, 0
  {
    if |text| <= p.size {
    } else {
      var i := FirstSeparator(text, separators, 0);
      if i == |separators| || separators[i] == [] {
        FixedSize.Reconstruction(text, p.size, p.overlap);
      } else {
        assert separators[i] in separators;
        PartChunkWords(Split(text, separators[i]), [], separators[i], separators[i + 1..], p);
      }
    }
  }

  lemma {:induction false} PartChunkWords(parts: seq<Text>, docs: seq<Text>, sep: Text, next: seq<Text>, p: Params)
    requires p.Valid() && AllBlank(sep) && BlankSeparators(next) && forall d :: d in docs ==> |d| <= p.size
    ensures AllWordsWithin(PartPieces(parts, docs, sep, next, p), p.size)
    decreases |next|, 1 + |parts|
  {
    hide WordsWithin;
    MergedWords(docs, sep, p);
    if parts == [] {
    } else if |parts[0]| > p.size {
      ChunkWords(parts[0], next, p);
      PartChunkWords(parts[1..], [], sep, next, p);
    } else {
      PartChunkWords(parts[1..], docs + [parts[0]], sep, next, p);
    }
  }

  lemma GapIsBlank(text: Text, lo: nat, hi: nat, seps: seq<Text>, i: nat)
    requires lo <= i < hi <= |text| && text[lo..hi] in seps && BlankSeparators(seps)
    ensures Blank(text[i])
  {
    assert text[i] == text[lo..hi][i - lo];
  }

  /** Every byte that is no blank is in some interval. */
  lemma {:induction false} CoveredByte(text: Text, chunks: seq<Text>, ivs: seq<Interval>, seps: seq<Text>, i: nat, n: nat)
      returns (k: nat)
    requires Covers(text, chunks, ivs, seps) && BlankSeparators(seps)
    requires i < |text| && !Blank(text[i]) && n < |ivs| && ivs[n].lo <= i
    ensures k < |ivs| && ivs[k].lo <= i < ivs[k].hi
    decreases |ivs| - n
  {
    if i < ivs[n].hi {
      k := n;
    } else {
      assert n + 1 < |ivs| && FollowsAt(text, ivs, n, seps);
      assert ivs[n + 1].lo <= i by {
        if i < ivs[n + 1].lo {
          GapIsBlank(text, ivs[n].hi, ivs[n + 1].lo, seps, i);
        }
      }
      k := CoveredByte(text, chunks, ivs, seps, i, n + 1);
    }
  }

  /** A word that no chunk cuts is in a chunk as a whole. */
  lemma WholeWordsAreWithin(text: Text, chunks: seq<Text>, ivs: seq<Interval>, seps: seq<Text>, size: nat)
    requires Covers(text, chunks, ivs, seps) && BlankSeparators(seps) && WordsWhole(text, ivs)
    requires AllWordsWithin(chunks, size)
    ensures WordsWithin(text, size)
  {
    forall i, j | 0 <= i <= j <= |text| && NoBlank(text, i, j)
      ensures j - i <= size
    {
      if i < j {
        var k := CoveredByte(text, chunks, ivs, seps, i, 0);
        var lo, c := ivs[k].lo, chunks[k];
        assert BetweenWords(text, ivs[k]) && SliceAt(text, c, ivs[k]) && j <= ivs[k].hi;
        assert forall z :: i <= z < j ==> c[z - lo] == text[z];
        assert NoBlank(c, i - lo, j - lo) && c in chunks;
      }
    }
  }

  /** The chunks can be found in the text, in order and with nothing but separators between them, without a word being
      cut: each starts at the start of the text or behind a blank, and ends at the end of the text or before a blank. */
  ghost predicate CutsNoWord(text: Text, chunks: seq<Text>) {
    exists ivs :: Covers(text, chunks, ivs, DEFAULT_SEPARATORS) && WordsWhole(text, ivs)
  }

  /** With the service's separators no word is cut exactly when every word is within the size. */
  lemma NoWordIsCutIff(text: Text, size: int, overlap: int)
    ensures var p := Normalise(size, overlap);
            CutsNoWord(text, Pieces(text, DEFAULT_SEPARATORS, p)) <==> WordsWithin(text, p.size)
  {
    var p, seps := Normalise(size, overlap), DEFAULT_SEPARATORS;
    assert seps[1] == [10] && seps[2] == [32];
    var found := PiecesCover(text, seps, p, seps);
    ChunkWords(text, seps, p);
    if ivs :| Covers(text, Pieces(text, seps, p), ivs, seps) && WordsWhole(text, ivs) {
      WholeWordsAreWithin(text, Pieces(text, seps, p), ivs, seps, p.size);
    }
  }

  // ---------------------------------------------------------------- which part goes where

  /** `cs` is in the chunks without a gap. */
  ghost predicate Holds(chunks: seq<Text>, cs: seq<Text>) {
    exists before, after :: chunks == Around(before, cs, after)
  }

  ghost function Around(before: seq<Text>, cs: seq<Text>, after: seq<Text>): seq<Text> {
    before + cs + after
  }

  lemma {:induction false} SmallPartsGathered(parts: seq<Text>, docs: seq<Text>, sep: Text, next: seq<Text>, p: Params)
    requires p.Valid() && forall part :: part in parts ==> |part| <= p.size
    ensures PartPieces(parts, docs, sep, next, p) == FlushDocs(docs + parts, sep, p)
    decreases |parts|
  {
    if parts == [] {
      assert docs + parts == docs;
    } else {
      assert parts[0] in parts && docs + [parts[0]] + parts[1..] == docs + parts;
      SmallPartsGathered(parts[1..], docs + [parts[0]], sep, next, p);
    }
  }

  lemma {:induction false} PartsBeforeLarge(before: seq<Text>, docs: seq<Text>, part: Text, after: seq<Text>,
                                            sep: Text, next: seq<Text>, p: Params)
    requires p.Valid() && |part| > p.size
    ensures PartPieces(before + [part] + after, docs, sep, next, p)
         == PartPieces(before, docs, sep, next, p) + Pieces(part, next, p) + PartPieces(after, [], sep, next, p)
    decreases |before|
  {
    var all := before + [part] + after;
    if before == [] {
      assert all[1..] == after;
    } else {
      assert all[1..] == before[1..] + [part] + after;
      if |before[0]| > p.size {
        PartsBeforeLarge(before[1..], [], part, after, sep, next, p);
      } else {
        PartsBeforeLarge(before[1..], docs + [before[0]], part, after, sep, next, p);
      }
    }
  }

  lemma LargePartIn(parts: seq<Text>, sep: Text, next: seq<Text>, p: Params, k: nat)
    requires p.Valid() && k < |parts| && |parts[k]| > p.size
    ensures Holds(PartPieces(parts, [], sep, next, p), Pieces(parts[k], next, p))
  {
    hide PartPieces, Pieces;
    assert parts == parts[..k] + [parts[k]] + parts[k + 1..];
    PartsBeforeLarge(parts[..k], [], parts[k], parts[k + 1..], sep, next, p);
    assert PartPieces(parts, [], sep, next, p) == Around(PartPieces(parts[..k], [], sep, next, p),
      Pieces(parts[k], next, p), PartPieces(parts[k + 1..], [], sep, next, p));
  }

  /** From `a` to `b` the parts are within the size, and on both sides is the end or a larger one. */
  ghost predicate SmallRun(parts: seq<Text>, size: int, a: nat, b: nat) {
    && a < b <= |parts|
    && (forall k :: a <= k < b ==> |parts[k]| <= size)
    && (a == 0 || |parts[a - 1]| > size) && (b == |parts| || |parts[b]| > size)
  }

  /** The parts up to the end of a run end with the packed run. */
  lemma UpToRun(parts: seq<Text>, sep: Text, next: seq<Text>, p: Params, a: nat) returns (before: seq<Text>)
    requires p.Valid() && a < |parts| && (a == 0 || |parts[a - 1]| > p.size)
    requires forall k :: a <= k < |parts| ==> |parts[k]| <= p.size
    ensures PartPieces(parts, [], sep, next, p) == before + MergeDocs.Merged(parts[a..], sep, p)
  {
    hide PartPieces, Pieces;
    var run := parts[a..];
    assert [] + run == run;
    SmallPartsGathered(run, [], sep, next, p);
    if a == 0 {
      assert run == parts;
      before := [];
    } else {
      var front, large := parts[..a - 1], parts[a - 1];
      assert parts == front + [large] + run;
      PartsBeforeLarge(front, [], large, run, sep, next, p);
      before := PartPieces(front, [], sep, next, p) + Pieces(large, next, p);
    }
  }

  lemma SmallRunIn(parts: seq<Text>, sep: Text, next: seq<Text>, p: Params, a: nat, b: nat)
    requires p.Valid() && SmallRun(parts, p.size, a, b)
    ensures Holds(PartPieces(parts, [], sep, next, p), MergeDocs.Merged(parts[a..b], sep, p))
  {
    hide PartPieces, Pieces;
    var before := UpToRun(parts[..b], sep, next, p, a);
    assert parts[..b][a..] == parts[a..b];
    var after: seq<Text> := [];
    if b == |parts| {
      assert parts[..b] == parts;
    } else {
      assert parts == parts[..b] + [parts[b]] + parts[b + 1..];
      PartsBeforeLarge(parts[..b], [], parts[b], parts[b + 1..], sep, next, p);
      after := Pieces(parts[b], next, p) + PartPieces(parts[b + 1..], [], sep, next, p);
    }
    assert PartPieces(parts, [], sep, next, p) == Around(before, MergeDocs.Merged(parts[a..b], sep, p), after);
  }

  /** How a large text is cut: at the first separator of the hierarchy that occurs; a part over the size contributes,
      in one piece, what the rest of the hierarchy makes of it, and a run of parts within the size what packing makes
      of it. */
  lemma LargeTextIsCutByParts(text: Text, separators: seq<Text>, p: Params, i: nat)
    requires p.Valid() && |text| > p.size
    requires i < |separators| && separators[i] != [] && Contains(text, separators[i])
    requires forall j :: 0 <= j < i ==> !Contains(text, separators[j])
    ensures var parts := Split(text, separators[i]);
            && (forall k :: 0 <= k < |parts| && |parts[k]| > p.size ==>
                  Holds(Pieces(text, separators, p), Pieces(parts[k], separators[i + 1..], p)))
            && (forall a: nat, b: nat :: SmallRun(parts, p.size, a, b) ==>
                  a <= b <= |parts| && Holds(Pieces(text, separators, p), MergeDocs.Merged(parts[a..b], separators[i], p)))
  {
    hide Holds, Contains, Split, SmallRun;
    var parts, next := Split(text, separators[i]), separators[i + 1..];
    assert FirstSeparator(text, separators, 0) == i;
    forall k | 0 <= k < |parts| && |parts[k]| > p.size
      ensures Holds(Pieces(text, separators, p), Pieces(parts[k], next, p))
    {
      LargePartIn(parts, separators[i], next, p, k);
    }
    forall a: nat, b: nat | SmallRun(parts, p.size, a, b)
      ensures a <= b <= |parts| && Holds(Pieces(text, separators, p), MergeDocs.Merged(parts[a..b], separators[i], p))
    {
      SmallRunInside(parts, p.size, a, b);
      SmallRunIn(parts, separators[i], next, p, a, b);
    }
  }

  lemma SmallRunInside(parts: seq<Text>, size: int, a: nat, b: nat)
    requires SmallRun(parts, size, a, b)
    ensures a < b <= |parts|
  {
  }

  /** A text without a separator is cut into windows, and one within the size is not cut at all. */
  lemma UncutOrWindows(text: Text, size: int, overlap: int)
    ensures var p := Normalise(size, overlap);
            && (|text| <= p.size ==> Pieces(text, DEFAULT_SEPARATORS, p) == [text])
            && (|text| > p.size && NoBlank(text, 0, |text|) ==>
                  Pieces(text, DEFAULT_SEPARATORS, p) == FixedSize.Chunks(text, p))
  {
    var p, seps := Normalise(size, overlap), DEFAULT_SEPARATORS;
    if |text| > p.size && NoBlank(text, 0, |text|) {
      forall j, i | 0 <= j < 3 && 0 <= i <= |text|
        ensures !MatchAt(text, seps[j], i)
      {
        if i + |seps[j]| <= |text| {
          assert seps[j] != [] && Blank(seps[j][0]);
          assert text[i..i + |seps[j]|][0] == text[i];
        }
      }
      var i := FirstSeparator(text, seps, 0);
    }
  }

  // ---------------------------------------------------------------- chunk lengths

  /** Every split the recursion makes on this text leaves only non-empty parts. */
  ghost predicate SplitsCleanly(text: Text, separators: seq<Text>, p: Params)
    requires p.Valid()
    decreases |separators|
  {
    |text| <= p.size ||
    var i := FirstSeparator(text, separators, 0);
    i == |separators| || separators[i] == [] ||
    forall part :: part in Split(text, separators[i]) ==> part != [] && SplitsCleanly(part, separators[i + 1..], p)
  }

  ghost function Bound(p: Params, sepLen: nat): int {
    if p.overlap == 0 then p.size else p.size + p.overlap + sepLen
  }

  ghost predicate AllWithin(chunks: seq<Text>, bound: int) {
    forall c :: c in chunks ==> 0 < |c| <= bound
  }

  lemma {:induction false} PiecesBound(text: Text, separators: seq<Text>, p: Params, maxSep: nat)
    requires p.Valid() && text != [] && SplitsCleanly(text, separators, p)
    requires forall s :: s in separators ==> |s| <= maxSep
    ensures AllWithin(Pieces(text, separators, p), Bound(p, maxSep))
    decreases |separators|, 0
  {
    if |text| <= p.size {
    } else {
      var i := FirstSeparator(text, separators, 0);
      if i == |separators| || separators[i] == [] {
        FixedSize.Reconstruction(text, p.size, p.overlap);
      } else {
        PartPiecesBound(Split(text, separators[i]), [], separators[i], separators[i + 1..], p, maxSep);
      }
    }
  }

  lemma {:induction false} PartPiecesBound(parts: seq<Text>, docs: seq<Text>, sep: Text, next: seq<Text>,
                                           p: Params, maxSep: nat)
    requires p.Valid() && sep != [] && |sep| <= maxSep && (forall s :: s in next ==> |s| <= maxSep)
    requires forall part :: part in parts ==> part != [] && SplitsCleanly(part, next, p)
    requires forall d :: d in docs ==> 0 < |d| <= p.size
    ensures AllWithin(PartPieces(parts, docs, sep, next, p), Bound(p, maxSep))
    decreases |next|, 1 + |parts|
  {
    assert MergeDocs.NoneEmpty(docs);
    MergeDocs.MergedBound(docs, sep, p);
    if parts == [] {
    } else {
      assert parts[0] in parts && forall part :: part in parts[1..] ==> part in parts;
      if |parts[0]| > p.size {
        PiecesBound(parts[0], next, p, maxSep);
        PartPiecesBound(parts[1..], [], sep, next, p, maxSep);
      } else {
        PartPiecesBound(parts[1..], docs + [parts[0]], sep, next, p, maxSep);
      }
    }
  }

  /** The real chunk length bound with the service's separators: `size` without overlap, otherwise the
      overlap and one separator more. */
  lemma ChunkLengthBound(text: Text, size: int, overlap: int)
    requires text != [] && SplitsCleanly(text, DEFAULT_SEPARATORS, Normalise(size, overlap))
    ensures var p := Normalise(size, overlap);
            AllWithin(Pieces(text, DEFAULT_SEPARATORS, p), if p.overlap == 0 then p.size else p.size + p.overlap + 2)
  {
    PiecesBound(text, DEFAULT_SEPARATORS, Normalise(size, overlap), 2);
  }
}
