/**
  When the recursive splitter respects its chunk size. The bound `size + overlap + 2` of
  Recursive.ChunkLengthBound needs every split to leave non-empty parts: tidy text gives that, and a run
  of newlines shows that nothing bounds the chunks without it.
 */
module RecursiveBounds {
  import opened Texts
  import opened Sequences
  import opened Recursive
  import MergeDocs

  /** No blank at either end, and every run of blanks is one space, one newline or one empty line. */
  predicate Tidy(t: Text) {
    && t != [] && !Blank(t[0]) && !Blank(t[|t| - 1])
    && (forall i :: 1 <= i < |t| - 1 ==> TidyAt(t, i))
  }

  predicate TidyAt(t: Text, i: nat)
    requires 1 <= i < |t| - 1
  {
    Blank(t[i]) && Blank(t[i + 1]) ==>
      t[i] == 10 && t[i + 1] == 10 && !Blank(t[i - 1]) && i + 2 < |t| && !Blank(t[i + 2])
  }

  /** Separators that may be tried on the text: a single newline only once no empty line is left. */
  predicate Admissible(t: Text, sep: Text) {
    sep == [10, 10] || sep == [32] || (sep == [10] && !Contains(t, [10, 10]))
  }

  lemma EmptyLineAt(t: Text, i: nat)
    requires i + 1 < |t| && t[i] == 10 && t[i + 1] == 10
    ensures MatchAt(t, [10, 10], i) && Contains(t, [10, 10])
  {
    var sep: Text := [10, 10];
    assert t[i..i + |sep|] == sep;
    assert MatchAt(t, sep, i);
  }

  /** Around a separator of a tidy text there is text on both sides. */
  lemma TidyMatch(t: Text, sep: Text, i: nat)
    requires Tidy(t) && Admissible(t, sep) && MatchAt(t, sep, i)
    ensures 1 <= i && i + |sep| < |t| && !Blank(t[i - 1]) && !Blank(t[i + |sep|])
  {
    var n := i + |sep|;
    assert t[i..n][0] == t[i] == sep[0] && t[i..n][|sep| - 1] == t[n - 1] == sep[|sep| - 1];
    if sep == [10] {
      NoEmptyLine(t, i - 1);
      NoEmptyLine(t, i);
    }
    assert TidyAt(t, i);
    if i > 1 {
      assert TidyAt(t, i - 1);
    }
  }

  lemma NoEmptyLine(t: Text, i: int)
    requires !Contains(t, [10, 10])
    ensures 0 <= i < |t| - 1 ==> t[i] != 10 || t[i + 1] != 10
  {
    if 0 <= i < |t| - 1 && t[i] == 10 && t[i + 1] == 10 {
      EmptyLineAt(t, i);
    }
  }

  /** A slice holds no separator that the whole does not hold. */
  lemma SliceClean(t: Text, other: Text, lo: nat, hi: nat)
    requires lo <= hi <= |t| && !Contains(t, other) && other != []
    ensures !Contains(t[lo..hi], other)
  {
    forall j | 0 <= j && j + |other| <= hi - lo
      ensures !MatchAt(t[lo..hi], other, j)
    {
      assert !MatchAt(t, other, lo + j);
      var u := t[lo..hi];
      assert forall x :: 0 <= x < hi - lo ==> u[x] == t[lo + x];
      assert u[j..j + |other|] == t[lo + j..lo + j + |other|];
    }
  }

  lemma TidySlice(t: Text, lo: nat, hi: nat)
    requires Tidy(t) && lo < hi <= |t| && !Blank(t[lo]) && !Blank(t[hi - 1])
    ensures Tidy(t[lo..hi])
  {
    var u := t[lo..hi];
    forall j | 1 <= j < |u| - 1
      ensures TidyAt(u, j)
    {
      assert TidyAt(t, lo + j);
    }
  }

  lemma TidyPieces(t: Text, sep: Text, i: nat)
    requires Tidy(t) && Admissible(t, sep) && MatchAt(t, sep, i)
    ensures i + |sep| <= |t| && Tidy(t[..i]) && Tidy(t[i + |sep|..]) && Admissible(t[i + |sep|..], sep)
  {
    var n := i + |sep|;
    TidyMatch(t, sep, i);
    TidySlice(t, 0, i);
    TidySlice(t, n, |t|);
    assert t[0..i] == t[..i] && t[n..|t|] == t[n..];
    if sep == [10] {
      SliceClean(t, [10, 10], n, |t|);
    }
  }

  lemma {:induction false} TidySplit(t: Text, sep: Text)
    requires Tidy(t) && Admissible(t, sep) && sep != []
    ensures forall part :: part in Split(t, sep) ==> Tidy(part)
    decreases |t|
  {
    if !Contains(t, sep) {
    } else {
      var i := IndexFrom(t, sep, 0);
      TidyPieces(t, sep, i);
      TidySplit(t[i + |sep|..], sep);
    }
  }

  /** The suffixes of the separator hierarchy, with what holds of a text when they are reached. */
  ghost predicate Reached(t: Text, separators: seq<Text>) {
    || separators == DEFAULT_SEPARATORS
    || (separators == DEFAULT_SEPARATORS[1..] && !Contains(t, [10, 10]))
    || (separators == DEFAULT_SEPARATORS[2..] && !Contains(t, [10, 10]))
    || separators == DEFAULT_SEPARATORS[3..]
  }

  lemma CleanOfSmaller(t: Text, sep: Text, other: Text)
    requires sep != [] && other != [] && !Contains(t, other)
    ensures forall part :: part in Split(t, sep) ==> !Contains(part, other)
  {
    hide Contains, Split;
    forall k | 0 <= k < |Split(t, sep)|
      ensures !Contains(Split(t, sep)[k], other)
    {
      var lo, hi := PartIsSlice(t, sep, k);
      SliceClean(t, other, lo, hi);
    }
  }

  lemma {:induction false} TidySplitsCleanly(t: Text, separators: seq<Text>, p: Params)
    requires p.Valid() && Tidy(t) && Reached(t, separators)
    ensures SplitsCleanly(t, separators, p)
    decreases |separators|
  {
    if |t| <= p.size {
    } else {
      var i := FirstSeparator(t, separators, 0);
      if i < |separators| && separators[i] != [] {
        var sep, rest := separators[i], separators[i + 1..];
        assert i == 0 || !Contains(t, separators[0]);
        TidySplit(t, sep);
        forall part | part in Split(t, sep)
          ensures part != [] && SplitsCleanly(part, rest, p)
        {
          if sep == [10, 10] {
            SplitPartsAreClean(t, sep);
          } else {
            CleanOfSmaller(t, sep, [10, 10]);
          }
          TidySplitsCleanly(part, rest, p);
        }
      }
    }
  }

  /** Chunk lengths for tidy text: never over the size without overlap, and otherwise never more than the
      overlap and one separator over it. */
  lemma TidyTextBound(t: Text, size: int, overlap: int)
    requires Tidy(t)
    ensures var p := Normalise(size, overlap);
            AllWithin(Pieces(t, DEFAULT_SEPARATORS, p), if p.overlap == 0 then p.size else p.size + p.overlap + 2)
  {
    TidySplitsCleanly(t, DEFAULT_SEPARATORS, Normalise(size, overlap));
    ChunkLengthBound(t, size, overlap);
  }

  // ---------------------------------------------------------------- the size alone is not a bound

  ghost predicate SizeRespected(p: Params)
    requires p.Valid()
  {
    forall t: Text :: Tidy(t) ==> AllWithin(Pieces(t, DEFAULT_SEPARATORS, p), p.size)
  }

  /** Two words, as long as the overlap and as the size, with an empty line between them. */
  ghost function ShortThenFull(p: Params): Text
    requires p.Valid()
  {
    ShortWord(p) + [10, 10] + FullWord(p)
  }

  ghost function ShortWord(p: Params): (t: Text)
    requires p.Valid()
    ensures |t| == p.overlap && forall i :: 0 <= i < |t| ==> t[i] == 97
  {
    seq(p.overlap, _ => 97)
  }

  ghost function FullWord(p: Params): (t: Text)
    requires p.Valid()
    ensures |t| == p.size && forall i :: 0 <= i < |t| ==> t[i] == 120
  {
    seq(p.size, _ => 120)
  }

  lemma ShortThenFullIsTidy(p: Params)
    requires p.Valid() && p.overlap > 0
    ensures Tidy(ShortThenFull(p))
  {
    hide ShortWord, FullWord;
  }

  /** The empty line is the only one, so the first separator cuts the text into its two words. */
  lemma ShortThenFullSplits(p: Params)
    requires p.Valid() && p.overlap > 0
    ensures Contains(ShortThenFull(p), [10, 10])
    ensures Split(ShortThenFull(p), [10, 10]) == [ShortWord(p), FullWord(p)]
  {
    hide ShortWord, FullWord;
    var t, sep: Text, n := ShortThenFull(p), [10, 10], p.overlap;
    EmptyLineAt(t, n);
    forall i: nat | i < n
      ensures !MatchAt(t, sep, i)
    {
      assert t[i..i + 2][0] == t[i] != 10;
    }
    assert IndexFrom(t, sep, 0) == n;
    assert t[..n] == ShortWord(p) && t[n + 2..] == FullWord(p);
    var second := FullWord(p);
    forall i | 0 <= i <= |second|
      ensures !MatchAt(second, sep, i)
    {
      if i + 2 <= |second| {
        assert second[i..i + 2][0] == second[i] != 10;
      }
    }
    assert Split(second, sep) == [second];
  }

  lemma TwoSmallParts(first: Text, second: Text, sep: Text, next: seq<Text>, p: Params)
    requires p.Valid() && |first| <= p.size && |second| <= p.size
    ensures PartPieces([first, second], [], sep, next, p) == MergeDocs.Merged([first, second], sep, p)
  {
    var parts := [first, second];
    assert PartPieces([], parts, sep, next, p) == MergeDocs.Merged(parts, sep, p);
    assert PartPieces([second], [first], sep, next, p) == PartPieces([], parts, sep, next, p) by {
      assert [first] + [second] == parts && [second][1..] == [];
    }
    assert parts[1..] == [second] && [] + [parts[0]] == [first];
  }

  /** A tidy text with a chunk as long as the bound of TidyTextBound allows. */
  lemma ShortThenFullOverflows(p: Params)
    requires p.Valid() && p.overlap > 0
    ensures Tidy(ShortThenFull(p))
    ensures exists c :: c in Pieces(ShortThenFull(p), DEFAULT_SEPARATORS, p) && |c| == p.size + p.overlap + 2
  {
    hide Tidy, PartPieces, Split, Contains;
    var t := ShortThenFull(p);
    ShortThenFullIsTidy(p);
    ShortThenFullSplits(p);
    assert FirstSeparator(t, DEFAULT_SEPARATORS, 0) == 0;
    TwoSmallParts(ShortWord(p), FullWord(p), [10, 10], DEFAULT_SEPARATORS[1..], p);
    MergeDocs.OverlapOverflows([10, 10], p);
    assert [ShortWord(p), FullWord(p)] == [seq(p.overlap, _ => 97 as Byte), seq(p.size, _ => 120 as Byte)];
  }

  /** The chunk size is a real bound for tidy text exactly when no overlap is requested. */
  lemma SizeRespectedIffNoOverlap(p: Params)
    requires p.Valid()
    ensures SizeRespected(p) <==> p.overlap == 0
  {
    if p.overlap == 0 {
      forall t: Text | Tidy(t)
        ensures AllWithin(Pieces(t, DEFAULT_SEPARATORS, p), p.size)
      {
        TidyTextBound(t, p.size, p.overlap);
      }
    } else {
      ShortThenFullOverflows(p);
    }
  }

  /** A blank in front is enough to exceed the size without any overlap: " w w" comes back whole although it is one
      byte over the size, because the packing forgets the separator behind the empty first part. */
  lemma LeadingBlankOverflows(w: Text)
    requires w != [] && NoBlank(w, 0, |w|)
    ensures var t, p := [32] + w + [32] + w, Params(2 * |w| + 1, 0);
            Pieces(t, DEFAULT_SEPARATORS, p) == [t] && |t| == p.size + 1
  {
    hide Split, Contains, FirstSeparator, PartPieces, MergeDocs.Merged;
    var t, p := [32] + w + [32] + w, Params(2 * |w| + 1, 0);
    var parts: seq<Text> := [[], w, w];
    LeadingBlankParts(w);
    SpacesOnly(t);
    SmallPartsGathered(parts, [], [32], DEFAULT_SEPARATORS[3..], p);
    assert [] + parts == parts;
    MergeDocs.EmptyStartOverflows([32], w);
  }

  lemma LeadingBlankParts(w: Text)
    requires w != [] && NoBlank(w, 0, |w|)
    ensures var t, parts: seq<Text> := [32] + w + [32] + w, [[], w, w];
            Join(parts, [32]) == t && Split(t, [32]) == parts
  {
    hide Split;
    var t, parts: seq<Text>, sep: Text := [32] + w + [32] + w, [[], w, w], [32];
    assert Join(parts, sep) == t by {
      assert parts[1..] == [w, w] && [w, w][1..] == [w] && Join([w], sep) == w;
    }
    SplitJoin(parts, 32);
  }

  /** Without a newline a text with a space in front is cut at spaces. */
  lemma SpacesOnly(t: Text)
    requires t != [] && t[0] == 32 && forall i :: 0 <= i < |t| ==> t[i] != 10
    ensures FirstSeparator(t, DEFAULT_SEPARATORS, 0) == 2
  {
    forall i | 0 <= i <= |t|
      ensures !MatchAt(t, [10, 10], i) && !MatchAt(t, [10], i)
    {
      if i < |t| {
        assert t[i..i + 1][0] == t[i] && (i + 2 <= |t| ==> t[i..i + 2][0] == t[i]);
      }
    }
    assert t[0..1] == [32];
    assert MatchAt(t, [32], 0);
    assert FirstSeparator(t, DEFAULT_SEPARATORS, 2) == 2;
    assert FirstSeparator(t, DEFAULT_SEPARATORS, 1) == 2;
  }

  // ---------------------------------------------------------------- and untidy text has no bound at all

  ghost function Newlines(n: nat): Text {
    seq(n, _ => 10 as Byte)
  }

  ghost function Empties(n: nat): seq<Text> {
    seq(n, _ => [])
  }

  lemma {:induction false} SplitNewlines(m: nat)
    ensures Split(Newlines(2 * m), [10, 10]) == Empties(m + 1)
  {
    var t := Newlines(2 * m);
    if m == 0 {
      assert Split(t, [10, 10]) == [t];
    } else {
      EmptyLineAt(t, 0);
      assert t[..0] == [] && t[2..] == Newlines(2 * (m - 1));
      SplitNewlines(m - 1);
      assert Empties(m + 1) == [[]] + Empties(m);
    }
  }

  lemma {:induction false} EmptiesGathered(j: nat, i: nat, p: Params)
    requires p.Valid()
    ensures PartPieces(Empties(j), Empties(i), [10, 10], DEFAULT_SEPARATORS[1..], p)
         == FlushDocs(Empties(i + j), [10, 10], p)
    decreases j
  {
    if j == 0 {
    } else {
      assert Empties(j)[1..] == Empties(j - 1) && Empties(i) + [Empties(j)[0]] == Empties(i + 1);
      EmptiesGathered(j - 1, i + 1, p);
    }
  }

  /** Empty documents never move the counter, so no flush ever drops one: the last block is all of them. */
  lemma {:induction false} EmptiesKept(n: nat, i: nat, p: Params)
    requires p.Valid() && i <= n && 0 < n
    ensures MergeDocs.Window(0, n) in MergeDocs.Windows(Empties(n), 2, p, i, 0, 0)
    decreases n - i
  {
    var docs := Empties(n);
    if i == n {
      assert MergeDocs.Windows(docs, 2, p, i, 0, 0) == [MergeDocs.Window(0, n)];
    } else {
      EmptiesKept(n, i + 1, p);
      assert MergeDocs.Trim(docs, 2, p.overlap, 0, i, 0) == (0, 0);
      assert MergeDocs.Grown(0, |docs[i]|, 2) == 0;
    }
  }

  lemma EmptiesMergedWhole(m: nat, p: Params)
    requires p.Valid()
    ensures Join(Empties(m + 1), [10, 10]) in MergeDocs.Merged(Empties(m + 1), [10, 10], p)
  {
    var docs := Empties(m + 1);
    var ws := MergeDocs.AllWindows(docs, 2, p);
    EmptiesKept(m + 1, 0, p);
    MergeDocs.WindowsInside(docs, 2, p, 0, 0, 0);
    MergeDocs.RenderAt(docs, [10, 10], ws);
    var k :| 0 <= k < |ws| && ws[k] == MergeDocs.Window(0, m + 1);
    assert docs[0..m + 1] == docs;
    assert MergeDocs.Merged(docs, [10, 10], p)[k] == Join(docs, [10, 10]);
  }

  /** Without non-empty parts there is no bound: whatever the parameters, a text of `2 * m` newlines, however
      long, comes back whole as one of its own chunks. */
  lemma NewlineRunStaysWhole(m: nat, p: Params)
    requires p.Valid()
    ensures Newlines(2 * m) in Pieces(Newlines(2 * m), DEFAULT_SEPARATORS, p)
  {
    var t, docs := Newlines(2 * m), Empties(m + 1);
    if |t| > p.size {
      EmptyLineAt(t, 0);
      SplitNewlines(m);
      JoinSplit(t, [10, 10]);
      hide Split, Contains, Newlines, PartPieces, MergeDocs.Merged;
      assert FirstSeparator(t, DEFAULT_SEPARATORS, 0) == 0;
      EmptiesGathered(m + 1, 0, p);
      EmptiesMergedWhole(m, p);
      assert Empties(0) == [];
    }
  }
}
