/**
  SentenceChunker: the matches of the sentence expression, trimmed, packed greedily into chunks with one
  space between sentences. The overlap parameter is accepted and never used.
 */
module Sentences {
  import opened Texts
  import opened Sequences
  import Regex

  /** Unlike `\s` this has the vertical tab. */
  predicate TrimBlank(b: Byte) {
    AsciiBlank(b as int)
  }

  function TrimSpace(t: Text): (r: Text)
    ensures r == [] || (!TrimBlank(r[0]) && !TrimBlank(r[|r| - 1]))
    ensures r == [] <==> forall i :: 0 <= i < |t| ==> TrimBlank(t[i])
  {
    Trim(t, TrimBlank)
  }

  function Matches(t: Text): (ms: seq<Text>) {
    Regex.LosslessIff(t);
    Slices(t, Regex.FindAll(Regex.SENTENCE, t, 0))
  }

  function Slices(t: Text, ms: seq<Regex.Match>): (r: seq<Text>)
    requires forall m :: m in ms ==> m.lo <= m.hi <= |t|
    ensures |r| == |ms|
    ensures forall k :: 0 <= k < |ms| ==> ms[k] in ms && r[k] == t[ms[k].lo..ms[k].hi]
  {
    seq(|ms|, k requires 0 <= k < |ms| => assert ms[k] in ms; t[ms[k].lo..ms[k].hi])
  }

  /** The trimmed matches, without those that trim to nothing. */
  function Trimmed(ms: seq<Text>): (ss: seq<Text>)
    ensures forall s :: s in ss ==> s != []
  {
    if ms == [] then []
    else (if TrimSpace(ms[0]) == [] then [] else [TrimSpace(ms[0])]) + Trimmed(ms[1..])
  }

  const SPACE: Text := [32]

  /** Sentences grouped into chunks, `group` being the chunk under construction. */
  function Groups(ss: seq<Text>, size: int, group: seq<Text>): seq<seq<Text>> {
    if ss == [] then
      if group == [] then [] else [group]
    else if |Join(group, SPACE)| + |ss[0]| > size && group != [] then
      [group] + Groups(ss[1..], size, [ss[0]])
    else
      Groups(ss[1..], size, group + [ss[0]])
  }

  function JoinAll(groups: seq<seq<Text>>): (chunks: seq<Text>)
    ensures |chunks| == |groups|
  {
    if groups == [] then [] else [Join(groups[0], SPACE)] + JoinAll(groups[1..])
  }

  function Chunks(t: Text, p: Params): seq<Text> {
    if Matches(t) == [] then
      if t == [] then [] else [t]
    else JoinAll(Groups(Trimmed(Matches(t)), p.size, []))
  }

  lemma JoinOneMore(group: seq<Text>, s: Text)
    ensures Join(group + [s], [32]) == if group == [] then s else Join(group, [32]) + [32] + s
  {
    if group == [] {
      assert group + [s] == [s];
    } else {
      JoinAppend(group, [s], SPACE);
    }
  }

  /** The chunks still to come when match `i` is next and `group` is in the builder. */
  ghost function Pending(ms: seq<Text>, i: nat, size: int, group: seq<Text>): seq<Text>
    requires i <= |ms|
  {
    JoinAll(Groups(Trimmed(ms[i..]), size, group))
  }

  lemma PendingBlank(ms: seq<Text>, i: nat, size: int, group: seq<Text>)
    requires i < |ms| && TrimSpace(ms[i]) == []
    ensures Pending(ms, i, size, group) == Pending(ms, i + 1, size, group)
  {
    assert ms[i..][1..] == ms[i + 1..];
    assert Trimmed(ms[i..]) == Trimmed(ms[i + 1..]);
  }

  lemma PendingFlush(ms: seq<Text>, i: nat, size: int, group: seq<Text>)
    requires i < |ms| && TrimSpace(ms[i]) != [] && group != []
    requires |Join(group, SPACE)| + |TrimSpace(ms[i])| > size
    ensures Pending(ms, i, size, group)
         == [Join(group, SPACE)] + Pending(ms, i + 1, size, [TrimSpace(ms[i])])
  {
    assert ms[i..][1..] == ms[i + 1..];
    var ss := Trimmed(ms[i..]);
    assert ss[1..] == Trimmed(ms[i + 1..]);
    assert Groups(ss, size, group)[1..] == Groups(ss[1..], size, [ss[0]]);
  }

  lemma PendingGrow(ms: seq<Text>, i: nat, size: int, group: seq<Text>)
    requires i < |ms| && TrimSpace(ms[i]) != []
    requires group == [] || |Join(group, SPACE)| + |TrimSpace(ms[i])| <= size
    ensures Pending(ms, i, size, group) == Pending(ms, i + 1, size, group + [TrimSpace(ms[i])])
  {
    assert ms[i..][1..] == ms[i + 1..];
    var ss := Trimmed(ms[i..]);
    assert ss[1..] == Trimmed(ms[i + 1..]);
  }

  lemma PendingEnd(ms: seq<Text>, size: int, group: seq<Text>)
    ensures Pending(ms, |ms|, size, group) == if group == [] then [] else [Join(group, SPACE)]
  {
    assert ms[|ms|..] == [] && [group][1..] == [] && JoinAll([group][1..]) == [];
  }

  lemma ChunksPending(t: Text, p: Params)
    requires Matches(t) != []
    ensures Chunks(t, p) == Pending(Matches(t), 0, p.size, [])
  {
    assert Matches(t)[0..] == Matches(t);
  }

  method Chunk(text: Text, size: int, overlap: int) returns (chunks: seq<Text>)
    ensures chunks == Chunks(text, Normalise(size, overlap))
  {
    var p := Normalise(size, overlap);
    var matches := Matches(text);
    if |matches| == 0 {
      if |text| > 0 {
        return [text];
      }
      return [];
    }
    chunks := PackSentences(matches, p.size);
    ChunksPending(text, p);
  }

  /** The loop over the matches. */
  method PackSentences(matches: seq<Text>, size: int) returns (chunks: seq<Text>)
    ensures chunks == Pending(matches, 0, size, [])
  {
    hide Pending;
    chunks := [];
    var currentChunk: Text := [];
    ghost var group: seq<Text>, rest := [], Pending(matches, 0, size, []);
    for i := 0 to |matches|
      invariant currentChunk == Join(group, SPACE) && (currentChunk == [] <==> group == [])
      invariant rest == Pending(matches, i, size, group)
      invariant Pending(matches, 0, size, []) == chunks + rest
    {
      var sentence := TrimSpace(matches[i]);
      if sentence == [] {
        PendingBlank(matches, i, size, group);
        continue;
      }
      if |currentChunk| + |sentence| > size && |currentChunk| > 0 {
        PendingFlush(matches, i, size, group);
        assert chunks + rest == chunks + [currentChunk] + rest[1..];
        chunks, rest := chunks + [currentChunk], rest[1..];
        currentChunk, group := [], [];
        assert [] + [sentence] == [sentence];
      } else {
        PendingGrow(matches, i, size, group);
      }
      JoinOneMore(group, sentence);
      if |currentChunk| > 0 {
        currentChunk := currentChunk + [32];
      }
      currentChunk := currentChunk + sentence;
      group := group + [sentence];
    }
    PendingEnd(matches, size, group);
    if |currentChunk| > 0 {
      chunks := chunks + [currentChunk];
    }
  }

  // ---------------------------------------------------------------- no sentence lost, none moved

  function Flatten(groups: seq<seq<Text>>): seq<Text> {
    if groups == [] then [] else groups[0] + Flatten(groups[1..])
  }

  // ---------------------------------------------------------------- greedy packing, without the builder

  /** A group was grown sentence by sentence, each fitting when it was added (the space in front of it is
      not counted). */
  ghost predicate Fits(group: seq<Text>, size: int) {
    group != [] && forall j :: 1 <= j < |group| ==> FitsAt(group, j, size)
  }

  ghost predicate FitsAt(group: seq<Text>, j: nat, size: int)
    requires j < |group|
  {
    |Join(group[..j], SPACE)| + |group[j]| <= size
  }

  /** Every group fits, and none could have taken the first sentence of the next. */
  ghost predicate Greedy(groups: seq<seq<Text>>, size: int) {
    && (forall g :: g in groups ==> Fits(g, size))
    && (forall k :: 0 <= k < |groups| - 1 ==> FullAt(groups, k, size))
  }

  ghost predicate FullAt(groups: seq<seq<Text>>, k: nat, size: int)
    requires k + 1 < |groups|
  {
    groups[k + 1] != [] && |Join(groups[k], SPACE)| + |groups[k + 1][0]| > size
  }

  lemma FitsGrows(group: seq<Text>, s: Text, size: int)
    requires group == [] || (Fits(group, size) && |Join(group, SPACE)| + |s| <= size)
    ensures Fits(group + [s], size)
  {
    var longer := group + [s];
    forall j | 1 <= j < |longer|
      ensures FitsAt(longer, j, size)
    {
      assert longer[..j] == group[..j];
      if j == |group| {
        assert group[..j] == group;
      } else {
        assert FitsAt(group, j, size);
      }
    }
  }

  lemma {:induction false} GroupsAreGreedy(ss: seq<Text>, size: int, group: seq<Text>)
    requires group == [] || Fits(group, size)
    ensures var gs := Groups(ss, size, group);
            && Greedy(gs, size) && Flatten(gs) == group + ss
            && (group != [] ==> gs != [] && group <= gs[0])
            && (group == [] && ss != [] ==> gs != [] && [ss[0]] <= gs[0])
  {
    var gs := Groups(ss, size, group);
    if ss == [] {
      assert group != [] ==> gs[1..] == [] && group + [] == group;
    } else if |Join(group, SPACE)| + |ss[0]| > size && group != [] {
      var rest := Groups(ss[1..], size, [ss[0]]);
      GroupsAreGreedy(ss[1..], size, [ss[0]]);
      assert gs[1..] == rest && rest[0][0] == ss[0];
      forall k | 0 <= k < |gs| - 1
        ensures FullAt(gs, k, size)
      {
        assert k > 0 ==> FullAt(rest, k - 1, size);
      }
      assert group + ss == group + ([ss[0]] + ss[1..]);
    } else {
      FitsGrows(group, ss[0], size);
      GroupsAreGreedy(ss[1..], size, group + [ss[0]]);
      assert group + ss == group + [ss[0]] + ss[1..];
    }
  }

  lemma FlattenHead(gs: seq<seq<Text>>)
    requires gs != []
    ensures gs[0] <= Flatten(gs)
    ensures |gs| == 1 ==> Flatten(gs) == gs[0]
    ensures |gs| > 1 && gs[1] != [] ==> |Flatten(gs)| > |gs[0]| && Flatten(gs)[|gs[0]|] == gs[1][0]
  {
    if |gs| == 1 {
      assert gs[1..] == [];
    } else if gs[1] != [] {
      assert Flatten(gs)[|gs[0]|] == Flatten(gs[1..])[0];
    }
  }

  /** Two greedy cuts of the same list start with the same group. */
  lemma SameFirstGroup(gs: seq<seq<Text>>, hs: seq<seq<Text>>, size: int)
    requires Greedy(gs, size) && Greedy(hs, size) && Flatten(gs) == Flatten(hs) && gs != [] && hs != []
    ensures |gs[0]| >= |hs[0]|
  {
    var g, h := gs[0], hs[0];
    assert g in gs && h in hs;
    FlattenHead(gs);
    FlattenHead(hs);
    if |gs| > 1 {
      assert FullAt(gs, 0, size);
      assert |g| < |h| ==> h[..|g|] == g && FitsAt(h, |g|, size);
    }
  }

  lemma GreedyTail(gs: seq<seq<Text>>, size: int)
    requires Greedy(gs, size) && gs != []
    ensures Greedy(gs[1..], size) && gs[0] != []
  {
    assert gs[0] in gs;
    forall k | 0 <= k < |gs[1..]| - 1
      ensures FullAt(gs[1..], k, size)
    {
      assert FullAt(gs, k + 1, size);
    }
  }

  lemma {:induction false} GreedyUnique(gs: seq<seq<Text>>, hs: seq<seq<Text>>, size: int)
    requires Greedy(gs, size) && Greedy(hs, size) && Flatten(gs) == Flatten(hs)
    ensures gs == hs
  {
    if gs == [] || hs == [] {
      if gs != [] {
        GreedyTail(gs, size);
      }
      if hs != [] {
        GreedyTail(hs, size);
      }
    } else {
      SameFirstGroup(gs, hs, size);
      SameFirstGroup(hs, gs, size);
      var n := |gs[0]|;
      assert gs[0] == Flatten(gs)[..n] && hs[0] == Flatten(hs)[..n];
      assert Flatten(gs[1..]) == Flatten(gs)[n..] && Flatten(hs[1..]) == Flatten(hs)[n..];
      GreedyTail(gs, size);
      GreedyTail(hs, size);
      GreedyUnique(gs[1..], hs[1..], size);
      assert gs == [gs[0]] + gs[1..] && hs == [hs[0]] + hs[1..];
    }
  }

  /** The packing is the greedy one, and the only one: groups hold exactly the trimmed non-empty matches in
      order, each sentence in a group fits when added, and no group could take the next sentence. */
  lemma PackingIsGreedy(ss: seq<Text>, size: int, gs: seq<seq<Text>>)
    ensures Greedy(gs, size) && Flatten(gs) == ss <==> gs == Groups(ss, size, [])
  {
    GroupsAreGreedy(ss, size, []);
    assert [] + ss == ss;
    if Greedy(gs, size) && Flatten(gs) == ss {
      GreedyUnique(gs, Groups(ss, size, []), size);
    }
  }

  /** Chunk lengths: a chunk of several sentences is at most one byte over the size, and it is over exactly when
      the part before its last sentence and that sentence fill the size to the byte. */
  lemma GroupLength(g: seq<Text>, size: int)
    requires Fits(g, size) && |g| > 1
    ensures |Join(g, SPACE)| <= size + 1
    ensures |Join(g, SPACE)| > size <==> |Join(g[..|g| - 1], SPACE)| + |g[|g| - 1]| == size
  {
    var n := |g| - 1;
    assert FitsAt(g, n, size);
    assert g == g[..n] + [g[n]];
    JoinOneMore(g[..n], g[n]);
  }

  lemma {:induction false} JoinAllAt(groups: seq<seq<Text>>)
    ensures forall k :: 0 <= k < |groups| ==> JoinAll(groups)[k] == Join(groups[k], SPACE)
  {
    if groups == [] {
    } else {
      JoinAllAt(groups[1..]);
    }
  }

  /** The whole chunker: for a text with at least one match, the chunks are the joined groups of a greedy packing
      of the trimmed matches; each is a single sentence or at most one byte over the size. */
  lemma ChunksAreGreedy(t: Text, p: Params)
    requires Matches(t) != []
    ensures var gs := Groups(Trimmed(Matches(t)), p.size, []);
            && Greedy(gs, p.size) && Flatten(gs) == Trimmed(Matches(t))
            && |Chunks(t, p)| == |gs|
            && forall k :: 0 <= k < |gs| ==>
                 && Chunks(t, p)[k] == Join(gs[k], [32])
                 && (|gs[k]| == 1 || |Chunks(t, p)[k]| <= p.size + 1)
  {
    var gs := Groups(Trimmed(Matches(t)), p.size, []);
    PackingIsGreedy(Trimmed(Matches(t)), p.size, gs);
    JoinAllAt(gs);
    forall k | 0 <= k < |gs|
      ensures |gs[k]| == 1 || |Join(gs[k], SPACE)| <= p.size + 1
    {
      assert gs[k] in gs;
      if |gs[k]| > 1 {
        GroupLength(gs[k], p.size);
      }
    }
  }

  // ---------------------------------------------------------------- sentences are slices of the text

  /** The sentences are slices of the text from left to right, without blanks at their ends. */
  ghost predicate SlicesInOrder(t: Text, ss: seq<Text>, at: seq<Regex.Match>, from: nat) {
    && |at| == |ss| && Regex.InOrder(at, from, |t|)
    && forall k :: 0 <= k < |ss| ==>
         ss[k] == t[at[k].lo..at[k].hi] && !TrimBlank(t[at[k].lo]) && !TrimBlank(t[at[k].hi - 1])
  }

  /** What lies in a match and in no sentence is blank. */
  ghost predicate OnlyBlanksDropped(t: Text, ms: seq<Regex.Match>, at: seq<Regex.Match>) {
    forall x :: 0 <= x < |t| && Regex.InMatch(ms, x) && !Regex.InMatch(at, x) ==> TrimBlank(t[x])
  }

  /** Where the sentence of one match is, if it has one. */
  lemma TrimmedSlice(t: Text, m: Regex.Match) returns (at: seq<Regex.Match>)
    requires m.lo < m.hi <= |t|
    ensures var u := TrimSpace(t[m.lo..m.hi]);
            SlicesInOrder(t, if u == [] then [] else [u], at, m.lo)
    ensures forall k :: 0 <= k < |at| ==> at[k].hi <= m.hi
    ensures OnlyBlanksDropped(t, [m], at)
  {
    hide TrimBlank, Regex.InMatch, TrimSpace;
    var u := TrimSpace(t[m.lo..m.hi]);
    var a, b := TrimmedAt(t, m);
    at := if u == [] then [] else [Regex.Match(a, b)];
    assert u != [] ==> u[0] == t[a] && u[|u| - 1] == t[b - 1];
    forall x | 0 <= x < |t| && Regex.InMatch([m], x) && !Regex.InMatch(at, x)
      ensures TrimBlank(t[x])
    {
      Regex.InOne(m, x);
      Regex.InOne(Regex.Match(a, b), x);
    }
  }

  lemma TrimmedAt(t: Text, m: Regex.Match) returns (a: nat, b: nat)
    requires m.lo < m.hi <= |t|
    ensures m.lo <= a <= b <= m.hi && TrimSpace(t[m.lo..m.hi]) == t[a..b]
    ensures forall x :: m.lo <= x < a || b <= x < m.hi ==> TrimBlank(t[x])
  {
    hide TrimBlank;
    var u := t[m.lo..m.hi];
    var lo, hi := TrimKeepsTheMiddle(u, TrimBlank);
    a, b := m.lo + lo, m.lo + hi;
    SliceOfSlice(t, m.lo, m.hi, lo, hi);
    forall x | m.lo <= x < a || b <= x < m.hi
      ensures TrimBlank(t[x])
    {
      assert u[x - m.lo] == t[x];
    }
  }

  lemma SlicesAppend(t: Text, a: seq<Text>, at: seq<Regex.Match>, from: nat, mid: nat, b: seq<Text>, bt: seq<Regex.Match>)
    requires from <= mid && SlicesInOrder(t, a, at, from) && SlicesInOrder(t, b, bt, mid)
    requires forall k :: 0 <= k < |at| ==> at[k].hi <= mid
    ensures SlicesInOrder(t, a + b, at + bt, from)
  {
    var n, all := |at|, at + bt;
    forall k | 0 <= k < |all|
      ensures from <= all[k].lo < all[k].hi <= |t|
      ensures (a + b)[k] == t[all[k].lo..all[k].hi] && !TrimBlank(t[all[k].lo]) && !TrimBlank(t[all[k].hi - 1])
    {
      if k >= n {
        assert all[k] == bt[k - n] && (a + b)[k] == b[k - n];
      }
    }
  }

  lemma DroppedAppend(t: Text, m: Regex.Match, at: seq<Regex.Match>, rest: seq<Regex.Match>, bt: seq<Regex.Match>)
    requires OnlyBlanksDropped(t, [m], at) && OnlyBlanksDropped(t, rest, bt)
    ensures OnlyBlanksDropped(t, [m] + rest, at + bt)
  {
    hide Regex.InMatch;
    forall x | 0 <= x < |t| && Regex.InMatch([m] + rest, x) && !Regex.InMatch(at + bt, x)
      ensures TrimBlank(t[x])
    {
      Regex.InMatchAppend([m], rest, x);
      Regex.InMatchAppend(at, bt, x);
    }
  }

  lemma NothingDropped(t: Text)
    ensures OnlyBlanksDropped(t, [], [])
  {
  }

  lemma {:induction false} TrimmedSlices(t: Text, ms: seq<Regex.Match>, from: nat) returns (at: seq<Regex.Match>)
    requires Regex.InOrder(ms, from, |t|)
    ensures (forall m :: m in ms ==> m.lo <= m.hi <= |t|)
    ensures SlicesInOrder(t, Trimmed(Slices(t, ms)), at, from) && OnlyBlanksDropped(t, ms, at)
    decreases |ms|
  {
    hide OnlyBlanksDropped;
    if ms == [] {
      at := [];
      NothingDropped(t);
    } else {
      hide SlicesInOrder, TrimSpace;
      var m, rest := ms[0], ms[1..];
      assert ms == [m] + rest && Regex.InOrder(rest, m.hi, |t|);
      var here := TrimmedSlice(t, m);
      var later := TrimmedSlices(t, rest, m.hi);
      at := here + later;
      var u := TrimSpace(t[m.lo..m.hi]);
      var one := if u == [] then [] else [u];
      TrimmedOneMore(t, m, rest);
      hide Trimmed, Slices, Regex.InOrder;
      SliceStartsLater(t, one, here, from, m.lo);
      SlicesAppend(t, one, here, from, m.hi, Trimmed(Slices(t, rest)), later);
      DroppedAppend(t, m, here, rest, later);
    }
  }

  lemma TrimmedOneMore(t: Text, m: Regex.Match, rest: seq<Regex.Match>)
    requires m.lo <= m.hi <= |t| && forall x :: x in rest ==> x.lo <= x.hi <= |t|
    ensures var u := TrimSpace(t[m.lo..m.hi]);
            Trimmed(Slices(t, [m] + rest)) == (if u == [] then [] else [u]) + Trimmed(Slices(t, rest))
  {
    hide TrimSpace;
    var ss := Slices(t, [m] + rest);
    assert ss[0] == t[m.lo..m.hi] && ss[1..] == Slices(t, rest);
  }

  lemma SliceStartsLater(t: Text, ss: seq<Text>, at: seq<Regex.Match>, from: nat, later: nat)
    requires from <= later && SlicesInOrder(t, ss, at, later)
    ensures SlicesInOrder(t, ss, at, from)
  {
  }

  /** The sentences that are packed are the trimmed matches, in order; and if the expression loses nothing, only blanks
      of the whole text are in no sentence. */
  lemma SentencesAreSlices(t: Text)
    ensures exists at ::
              && SlicesInOrder(t, Trimmed(Matches(t)), at, 0)
              && OnlyBlanksDropped(t, Regex.FindAll(Regex.SENTENCE, t, 0), at)
              && (Regex.LosslessFrom(t, 0) ==>
                    forall x :: 0 <= x < |t| && !Regex.InMatch(at, x) ==> TrimBlank(t[x]))
  {
    hide Regex.FindAll, Regex.Scan, Trimmed, SlicesInOrder, Regex.LosslessFrom, Regex.InMatch;
    var ms := Regex.Scan(t, 0);
    Regex.ScanIsFindAll(t, 0);
    Regex.LosslessIff(t);
    Regex.ScanInOrder(t, 0);
    var at := TrimmedSlices(t, ms, 0);
    forall x | 0 <= x < |t| && Regex.LosslessFrom(t, 0)
      ensures Regex.InMatch(ms, x)
    {
      Regex.LosslessIsMatched(t, 0, x);
    }
  }

  /** A text of punctuation alone has no match and comes back whole; every other text that is not empty has one. */
  lemma PunctuationAlone(t: Text, p: Params)
    requires t != []
    ensures Matches(t) == [] <==> forall x :: 0 <= x < |t| ==> t[x] == 46 || t[x] == 33 || t[x] == 63
    ensures Matches(t) == [] ==> Chunks(t, p) == [t]
  {
    Regex.NoMatchIff(t);
    Regex.LosslessIff(t);
  }

  // ---------------------------------------------------------------- text without a chunk

  /** Byte by byte: the text does not end in punctuation, nothing but blanks follows its last punctuation, and no
      run of punctuation has a blank of the expression behind it, unless the run starts the text. */
  predicate Barren(t: Text) {
    t != [] && BarrenFrom(t, 0)
  }

  predicate BarrenFrom(t: Text, i: nat)
    requires t != []
  {
    && !Regex.IsPunct(t[|t| - 1])
    && (forall x :: i <= x < |t| && !TrimBlank(t[x]) ==> exists y :: x <= y < |t| && Regex.IsPunct(t[y]))
    && (forall x :: i < x < |t| && Regex.IsPunct(t[x - 1]) && Regex.IsSpace(t[x]) ==> OpeningRun(t, x))
  }

  /** The text starts with punctuation up to `x`. */
  predicate OpeningRun(t: Text, x: nat)
    requires x <= |t|
  {
    forall y :: 0 <= y < x ==> Regex.IsPunct(t[y])
  }

  ghost predicate AllBlank(t: Text, ms: seq<Regex.Match>) {
    forall m :: m in ms ==> BlankAt(t, m)
  }

  ghost predicate BlankAt(t: Text, m: Regex.Match) {
    m.lo < m.hi <= |t| && forall y :: m.lo <= y < m.hi ==> TrimBlank(t[y])
  }

  /** The scanner skips the punctuation a text starts with. */
  lemma {:induction false} ScanSkipsPunctuation(t: Text, i: nat)
    requires i <= |t|
    ensures Regex.Scan(t, i) == Regex.Scan(t, Regex.RunEnd(Regex.Punct, t, i))
    decreases |t| - i
  {
    if i == |t| || !Regex.IsPunct(t[i]) {
      assert Regex.RunEnd(Regex.Punct, t, i) == i;
    } else {
      ScanSkipsPunctuation(t, i + 1);
    }
  }

  /** Behind the opening punctuation, the matches are blank exactly when the last one is and no other was found. */
  lemma {:induction false} BlankMatchesIff(t: Text, i: nat)
    requires i < |t| && !Regex.IsPunct(t[i])
    ensures Regex.Scan(t, i) != [] && AllBlank(t, Regex.Scan(t, i)) <==> BarrenFrom(t, i)
    decreases |t| - i
  {
    var j := Regex.RunEnd(Regex.NotPunct, t, i);
    var k := Regex.RunEnd(Regex.Punct, t, j);
    var m := Regex.RunEnd(Regex.Space, t, k);
    if j == |t| {
      LastSentence(t, i);
    } else if m > k || k == |t| {
      SentenceFound(t, i, j, k, m);
    } else {
      BlankMatchesIff(t, k);
      SentenceSkipped(t, i, j, k);
    }
  }

  lemma LastSentence(t: Text, i: nat)
    requires i < |t| && Regex.RunEnd(Regex.NotPunct, t, i) == |t|
    ensures BlankAt(t, Regex.Match(i, |t|)) <==> BarrenFrom(t, i)
  {
    forall x | i <= x < |t|
      ensures !Regex.IsPunct(t[x])
    {
      Regex.InRun(Regex.NotPunct, t, i, x);
    }
  }

  lemma SentenceFound(t: Text, i: nat, j: nat, k: nat, m: nat)
    requires i < j < |t| && j == Regex.RunEnd(Regex.NotPunct, t, i) && k == Regex.RunEnd(Regex.Punct, t, j)
    requires m == Regex.RunEnd(Regex.Space, t, k) && (m > k || k == |t|) && !Regex.IsPunct(t[i])
    ensures !BlankAt(t, Regex.Match(i, m)) && !BarrenFrom(t, i)
  {
    assert Regex.IsPunct(t[j]) && !TrimBlank(t[j]) && j < k <= m;
    Regex.InRun(Regex.Punct, t, j, k - 1);
    hide Regex.RunEnd;
    if k == |t| {
      assert Regex.IsPunct(t[|t| - 1]);
    } else {
      assert Regex.IsPunct(t[k - 1]) && Regex.IsSpace(t[k]) && !OpeningRun(t, k);
    }
  }

  lemma SentenceSkipped(t: Text, i: nat, j: nat, k: nat)
    requires i < j < k < |t| && j == Regex.RunEnd(Regex.NotPunct, t, i) && k == Regex.RunEnd(Regex.Punct, t, j)
    requires !Regex.IsSpace(t[k])
    ensures BarrenFrom(t, i) <==> BarrenFrom(t, k)
  {
    Regex.InRun(Regex.Punct, t, j, k - 1);
    forall x | i < x <= k
      ensures !(Regex.IsPunct(t[x - 1]) && Regex.IsSpace(t[x]))
    {
      if x <= j {
        Regex.InRun(Regex.NotPunct, t, i, x - 1);
      } else if x < k {
        Regex.InRun(Regex.Punct, t, j, x);
      }
    }
  }

  lemma OpeningIsHarmless(t: Text, k: nat)
    requires k < |t| && k == Regex.RunEnd(Regex.Punct, t, 0)
    ensures BarrenFrom(t, 0) <==> BarrenFrom(t, k)
  {
    forall x | 0 <= x < k
      ensures Regex.IsPunct(t[x])
    {
      Regex.InRun(Regex.Punct, t, 0, x);
    }
    assert OpeningRun(t, k);
  }

  lemma {:induction false} TrimmedEmptyIff(ms: seq<Text>)
    ensures Trimmed(ms) == [] <==> forall k :: 0 <= k < |ms| ==> TrimSpace(ms[k]) == []
  {
    if ms == [] {
    } else {
      TrimmedEmptyIff(ms[1..]);
      assert ms == [ms[0]] + ms[1..];
    }
  }

  lemma TrimmedMatchesIff(t: Text)
    ensures Trimmed(Matches(t)) == [] <==> AllBlank(t, Regex.Scan(t, 0))
  {
    hide Trimmed, Regex.Scan, Regex.FindAll;
    var ms := Regex.Scan(t, 0);
    Regex.ScanIsFindAll(t, 0);
    Regex.LosslessIff(t);
    TrimmedEmptyIff(Matches(t));
    forall k | 0 <= k < |ms|
      ensures TrimSpace(Matches(t)[k]) == [] <==> BlankAt(t, ms[k])
    {
      var m := ms[k];
      assert m in ms && Matches(t)[k] == t[m.lo..m.hi];
      assert forall y :: m.lo <= y < m.hi ==> t[y] == t[m.lo..m.hi][y - m.lo];
    }
  }

  /** Which texts yield no chunk, exactly. */
  lemma ChunklessIff(t: Text, p: Params)
    ensures Chunks(t, p) == [] <==> t == [] || Barren(t)
  {
    GroupsAreGreedy(Trimmed(Matches(t)), p.size, []);
    if t != [] {
      var k := Regex.RunEnd(Regex.Punct, t, 0);
      Regex.ScanIsFindAll(t, 0);
      ScanSkipsPunctuation(t, 0);
      TrimmedMatchesIff(t);
      if k < |t| {
        BlankMatchesIff(t, k);
        OpeningIsHarmless(t, k);
      } else {
        Regex.InRun(Regex.Punct, t, 0, |t| - 1);
      }
    }
  }

  lemma BlankTextYieldsNothing(t: Text, p: Params)
    requires forall i :: 0 <= i < |t| ==> TrimBlank(t[i])
    ensures Chunks(t, p) == []
  {
    hide Chunks;
    ChunklessIff(t, p);
  }

  /** So does a full stop with a blank behind it, although it is no blank text. With a letter in front it does not,
      unless the blank is a vertical tab. */
  lemma StopAndBlankYieldNothing(t: Text, p: Params)
    requires t == [46, 32]
    ensures Chunks(t, p) == [] && Chunks([97] + t, p) != [] && Chunks([97, 46, 11], p) == []
  {
    hide Chunks;
    assert OpeningRun(t, 1);
    ChunklessIff(t, p);
    var u := [97] + t;
    assert !Regex.IsPunct(u[0]);
    assert Regex.IsPunct(u[1]) && Regex.IsSpace(u[2]) && !OpeningRun(u, 2);
    ChunklessIff(u, p);
    var v: Text := [97, 46, 11];
    assert Regex.IsPunct(v[1]);
    ChunklessIff(v, p);
  }
}
