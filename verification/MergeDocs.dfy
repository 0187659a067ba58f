/**
  The packing step of the recursive splitter: documents (the parts between two separators) are
  joined into chunks while a running counter decides when to flush a block and how much of it to
  keep as overlap.
 */
module MergeDocs {
  import opened Texts
  import opened Sequences

  /** A block of consecutive documents: `docs[a..b]`. */
  datatype Window = Window(a: nat, b: nat)

  /** The counter after a document is appended to the block. */
  function Grown(len: int, docLen: nat, sepLen: nat): int {
    if len == 0 then docLen else len + docLen + sepLen
  }

  /** Dropping documents from the front of the block `docs[a..i]` until the counter is within the overlap. */
  function Trim(docs: seq<Text>, sepLen: nat, overlap: nat, a: nat, i: nat, len: int): (r: (nat, int))
    requires a <= i <= |docs|
    ensures a <= r.0 <= i
    decreases i - a
  {
    if len > overlap && a < i
    then Trim(docs, sepLen, overlap, a + 1, i, len - (|docs[a]| + sepLen))
    else (a, len)
  }

  /** The blocks emitted from the point where document `i` is next, the block is `docs[a..i]` and the
      counter is `len`. */
  function Windows(docs: seq<Text>, sepLen: nat, p: Params, i: nat, a: nat, len: int): seq<Window>
    requires p.Valid() && a <= i <= |docs|
    decreases |docs| - i
  {
    if i == |docs| then
      if a < i then [Window(a, i)] else []
    else if len + |docs[i]| + sepLen > p.size && a < i then
      var (a', len') := Trim(docs, sepLen, p.overlap, a, i, len);
      [Window(a, i)] + Windows(docs, sepLen, p, i + 1, a', Grown(len', |docs[i]|, sepLen))
    else
      Windows(docs, sepLen, p, i + 1, a, Grown(len, |docs[i]|, sepLen))
  }

  function AllWindows(docs: seq<Text>, sepLen: nat, p: Params): seq<Window>
    requires p.Valid()
  {
    Windows(docs, sepLen, p, 0, 0, 0)
  }

  predicate Inside(docs: seq<Text>, ws: seq<Window>) {
    forall w :: w in ws ==> w.a < w.b <= |docs|
  }

  /** The text of each window: its documents joined by the separator. */
  function Render(docs: seq<Text>, sep: Text, ws: seq<Window>): (chunks: seq<Text>)
    requires Inside(docs, ws)
  {
    if ws == [] then [] else [Join(docs[ws[0].a..ws[0].b], sep)] + Render(docs, sep, ws[1..])
  }

  lemma {:induction false} RenderAt(docs: seq<Text>, sep: Text, ws: seq<Window>)
    requires Inside(docs, ws)
    ensures |Render(docs, sep, ws)| == |ws|
    ensures forall k :: 0 <= k < |ws| ==> Render(docs, sep, ws)[k] == Join(docs[ws[k].a..ws[k].b], sep)
  {
    if ws == [] {
    } else {
      RenderAt(docs, sep, ws[1..]);
    }
  }

  lemma {:induction false} WindowsInside(docs: seq<Text>, sepLen: nat, p: Params, i: nat, a: nat, len: int)
    requires p.Valid() && a <= i <= |docs|
    ensures Inside(docs, Windows(docs, sepLen, p, i, a, len))
    decreases |docs| - i
  {
    if i >= |docs| {
    } else {
      if len + |docs[i]| + sepLen > p.size && a < i {
        var (a', len') := Trim(docs, sepLen, p.overlap, a, i, len);
        WindowsInside(docs, sepLen, p, i + 1, a', Grown(len', |docs[i]|, sepLen));
      } else {
        WindowsInside(docs, sepLen, p, i + 1, a, Grown(len, |docs[i]|, sepLen));
      }
    }
  }

  function Merged(docs: seq<Text>, sep: Text, p: Params): (chunks: seq<Text>)
    requires p.Valid()
  {
    WindowsInside(docs, |sep|, p, 0, 0, 0);
    Render(docs, sep, AllWindows(docs, |sep|, p))
  }

  /** The chunks still to come from a loop state. */
  ghost function Pending(docs: seq<Text>, sep: Text, p: Params, i: nat, a: nat, len: int): seq<Text>
    requires p.Valid() && a <= i <= |docs|
  {
    WindowsInside(docs, |sep|, p, i, a, len);
    Render(docs, sep, Windows(docs, |sep|, p, i, a, len))
  }

  lemma PendingFlush(docs: seq<Text>, sep: Text, p: Params, i: nat, a: nat, len: int)
    requires p.Valid() && a < i < |docs| && len + |docs[i]| + |sep| > p.size
    ensures var kept := Trim(docs, |sep|, p.overlap, a, i, len);
            Pending(docs, sep, p, i, a, len)
            == [Join(docs[a..i], sep)] + Pending(docs, sep, p, i + 1, kept.0, Grown(kept.1, |docs[i]|, |sep|))
  {
    var (a', len') := Trim(docs, |sep|, p.overlap, a, i, len);
    var ws := Windows(docs, |sep|, p, i, a, len);
    assert ws[1..] == Windows(docs, |sep|, p, i + 1, a', Grown(len', |docs[i]|, |sep|));
  }

  lemma PendingKeep(docs: seq<Text>, sep: Text, p: Params, i: nat, a: nat, len: int)
    requires p.Valid() && a <= i < |docs| && (len + |docs[i]| + |sep| <= p.size || a == i)
    ensures Pending(docs, sep, p, i, a, len)
         == Pending(docs, sep, p, i + 1, a, Grown(len, |docs[i]|, |sep|))
  {
  }

  lemma PendingEnd(docs: seq<Text>, sep: Text, p: Params, a: nat, len: int)
    requires p.Valid() && a <= |docs|
    ensures Pending(docs, sep, p, |docs|, a, len) == if a < |docs| then [Join(docs[a..], sep)] else []
  {
    assert docs[a..|docs|] == docs[a..];
    if a < |docs| {
      var ws := Windows(docs, |sep|, p, |docs|, a, len);
      assert ws == [Window(a, |docs|)] && ws[1..] == [];
      assert Render(docs, sep, ws[1..]) == [];
    }
  }

  /** The inner loop of the merge: the block is shortened in step with the counter. */
  method TrimBlock(block: seq<Text>, len: int, sepLen: nat, overlap: nat, ghost docs: seq<Text>, ghost a: nat, ghost i: nat)
      returns (currentBlock: seq<Text>, currentLen: int)
    requires a <= i <= |docs| && block == docs[a..i]
    ensures var kept := Trim(docs, sepLen, overlap, a, i, len);
            currentBlock == docs[kept.0..i] && currentLen == kept.1
  {
    currentBlock, currentLen := block, len;
    ghost var c := a;
    while currentLen > overlap && |currentBlock| > 0
      invariant a <= c <= i && currentBlock == docs[c..i]
      invariant Trim(docs, sepLen, overlap, a, i, len) == Trim(docs, sepLen, overlap, c, i, currentLen)
    {
      var removed := currentBlock[0];
      currentBlock := currentBlock[1..];
      currentLen := currentLen - (|removed| + sepLen);
      c := c + 1;
    }
  }

  method Merge(docs: seq<Text>, sep: Text, size: int, overlap: int) returns (merged: seq<Text>)
    requires Params(size, overlap).Valid()
    ensures merged == Merged(docs, sep, Params(size, overlap))
  {
    ghost var p := Params(size, overlap);
    merged := [];
    var currentBlock: seq<Text> := [];
    var currentLen := 0;
    ghost var a, rest := 0, Pending(docs, sep, p, 0, 0, 0);
    for i := 0 to |docs|
      invariant a <= i && currentBlock == docs[a..i]
      invariant rest == Pending(docs, sep, p, i, a, currentLen)
      invariant Merged(docs, sep, p) == merged + rest
    {
      var doc := docs[i];
      var docLen := |doc|;
      if currentLen + docLen + |sep| > size && |currentBlock| > 0 {
        PendingFlush(docs, sep, p, i, a, currentLen);
        ghost var kept := Trim(docs, |sep|, overlap, a, i, currentLen);
        assert merged + rest == merged + [Join(currentBlock, sep)] + rest[1..];
        merged, rest := merged + [Join(currentBlock, sep)], rest[1..];
        currentBlock, currentLen := TrimBlock(currentBlock, currentLen, |sep|, overlap, docs, a, i);
        a := kept.0;
      } else {
        PendingKeep(docs, sep, p, i, a, currentLen);
      }
      assert docs[a..i + 1] == docs[a..i] + [doc];
      currentBlock := currentBlock + [doc];
      if currentLen == 0 {
        currentLen := docLen;
      } else {
        currentLen := currentLen + docLen + |sep|;
      }
    }
    PendingEnd(docs, sep, p, a, currentLen);
    if |currentBlock| > 0 {
      merged := merged + [Join(currentBlock, sep)];
    }
  }

  // ---------------------------------------------------------------- shape of the windows

  /** The windows are contiguous: they start at the first document and end at the last, neither end
      ever moves back, the right end always advances, and no document between two windows is skipped. */
  ghost predicate Contiguous(ws: seq<Window>, n: nat) {
    && |ws| > 0 && ws[0].a == 0 && ws[|ws| - 1].b == n
    && (forall k :: 0 <= k < |ws| ==> ws[k].a < ws[k].b)
    && (forall k :: 0 <= k < |ws| - 1 ==> Advances(ws, k))
  }

  ghost predicate Advances(ws: seq<Window>, k: nat)
    requires k + 1 < |ws|
  {
    ws[k].a <= ws[k + 1].a <= ws[k].b < ws[k + 1].b
  }

  /** The same, one window at a time: `ws` starts with a window from `a` that ends at or after `least`. */
  ghost predicate Chained(ws: seq<Window>, n: nat, a: nat, least: nat)
    decreases |ws|
  {
    && |ws| > 0 && ws[0].a == a < ws[0].b && least <= ws[0].b
    && (if |ws| == 1 then ws[0].b == n
        else a <= ws[1].a <= ws[0].b && Chained(ws[1..], n, ws[1].a, ws[0].b + 1))
  }

  lemma {:induction false} ChainedIsContiguous(ws: seq<Window>, n: nat, a: nat, least: nat)
    requires Chained(ws, n, a, least)
    ensures ws[|ws| - 1].b == n
    ensures forall k :: 0 <= k < |ws| ==> ws[k].a < ws[k].b
    ensures forall k :: 0 <= k < |ws| - 1 ==> Advances(ws, k)
  {
    if |ws| <= 1 {
    } else {
      ChainedIsContiguous(ws[1..], n, ws[1].a, ws[0].b + 1);
      forall k | 0 < k < |ws| - 1
        ensures Advances(ws, k)
      {
        assert Advances(ws[1..], k - 1);
      }
    }
  }

  lemma {:induction false} WindowsChained(docs: seq<Text>, sepLen: nat, p: Params, i: nat, a: nat, len: int)
    requires p.Valid() && a <= i <= |docs| && a < |docs|
    ensures Chained(Windows(docs, sepLen, p, i, a, len), |docs|, a, i)
    decreases |docs| - i
  {
    if i >= |docs| {
    } else {
      if len + |docs[i]| + sepLen > p.size && a < i {
        var (a', len') := Trim(docs, sepLen, p.overlap, a, i, len);
        WindowsChained(docs, sepLen, p, i + 1, a', Grown(len', |docs[i]|, sepLen));
        assert Windows(docs, sepLen, p, i, a, len)[1..]
            == Windows(docs, sepLen, p, i + 1, a', Grown(len', |docs[i]|, sepLen));
      } else {
        WindowsChained(docs, sepLen, p, i + 1, a, Grown(len, |docs[i]|, sepLen));
      }
    }
  }

  /** Every document, the empty ones included, is in some chunk, in order. */
  lemma WindowsContiguous(docs: seq<Text>, sepLen: nat, p: Params)
    requires p.Valid() && docs != []
    ensures Contiguous(AllWindows(docs, sepLen, p), |docs|)
  {
    WindowsChained(docs, sepLen, p, 0, 0, 0);
    ChainedIsContiguous(AllWindows(docs, sepLen, p), |docs|, 0, 0);
  }

  // ---------------------------------------------------------------- the counter is a length

  /** Length of `docs[a..b]` joined; an empty block reads as minus one separator, as the counter does. */
  ghost function JoinedLen(docs: seq<Text>, sepLen: nat, a: nat, b: nat): int
    requires a <= b <= |docs|
  {
    Offset(docs, sepLen, b) - Offset(docs, sepLen, a) - sepLen
  }

  lemma JoinedLenIsLength(docs: seq<Text>, sep: Text, a: nat, b: nat)
    requires a < b <= |docs| && sep != []
    ensures JoinedLen(docs, |sep|, a, b) == |Join(docs[a..b], sep)|
  {
    JoinWindow(docs, sep, a, b);
  }

  ghost predicate NoneEmpty(docs: seq<Text>) {
    forall d :: d in docs ==> d != []
  }

  /** What the running counter is worth: the joined length of the block, and 0 or minus one separator
      when the block is empty. */
  ghost predicate Ledger(docs: seq<Text>, sepLen: nat, i: nat, a: nat, len: int)
    requires a <= i <= |docs|
  {
    if a < i then len == JoinedLen(docs, sepLen, a, i) else len == 0 || len + sepLen == 0
  }

  /** The counter stays right for every document, the empty ones included, unless the block is a single empty document:
      there it reads 0, as for no block at all, and the separator is forgotten. */
  lemma LedgerGrows(docs: seq<Text>, sepLen: nat, i: nat, a: nat, len: int)
    requires a <= i < |docs| && sepLen > 0 && Ledger(docs, sepLen, i, a, len)
    ensures Ledger(docs, sepLen, i + 1, a, Grown(len, |docs[i]|, sepLen))
            <==> a == i || JoinedLen(docs, sepLen, a, i) != 0
  {
  }

  /** A joined length of 0 is that of a single empty document. */
  lemma JoinedLenZero(docs: seq<Text>, sepLen: nat, a: nat, i: nat)
    requires a < i <= |docs| && sepLen > 0
    ensures JoinedLen(docs, sepLen, a, i) == 0 <==> i == a + 1 && docs[a] == []
  {
    OffsetStrict(docs, sepLen, a, a + 1);
    if a + 1 < i {
      OffsetStrict(docs, sepLen, a + 1, i);
    }
  }

  /** The kept suffix is the longest one, cut at a document boundary, that fits in the overlap. */
  lemma {:induction false} TrimKeepsLongest(docs: seq<Text>, sepLen: nat, overlap: nat, a: nat, i: nat, len: int)
    requires a <= i <= |docs| && len == JoinedLen(docs, sepLen, a, i)
    ensures var (a', len') := Trim(docs, sepLen, overlap, a, i, len);
            && len' == JoinedLen(docs, sepLen, a', i)
            && (a' < i ==> len' <= overlap)
            && (forall c :: a <= c < a' ==> JoinedLen(docs, sepLen, c, i) > overlap)
    decreases i - a
  {
    if len <= overlap || a >= i {
    } else {
      TrimKeepsLongest(docs, sepLen, overlap, a + 1, i, len - (|docs[a]| + sepLen));
    }
  }

  // ---------------------------------------------------------------- greedy packing, without the counter

  /** Window `k` was grown as far as it fits: it stays within `size` after every document past the first
      new one, and the next document would overflow it. */
  ghost predicate Filled(docs: seq<Text>, sepLen: nat, p: Params, from: nat, w: Window)
    requires w.a <= from < w.b <= |docs|
  {
    && (forall j :: from + 1 < j <= w.b ==> JoinedLen(docs, sepLen, w.a, j) <= p.size)
    && (w.b < |docs| ==> JoinedLen(docs, sepLen, w.a, w.b + 1) > p.size)
  }

  /** The next window starts with the longest suffix of this one that fits in the overlap. */
  ghost predicate KeepsOverlap(docs: seq<Text>, sepLen: nat, p: Params, w: Window, a: nat)
    requires w.a <= w.b <= |docs|
  {
    && w.a <= a <= w.b
    && (a < w.b ==> JoinedLen(docs, sepLen, a, w.b) <= p.overlap)
    && (forall c :: w.a <= c < a ==> JoinedLen(docs, sepLen, c, w.b) > p.overlap)
  }

  /** Greedy packing of `docs` from document `from`, the block so far being `docs[a..from]`. */
  ghost predicate Greedy(docs: seq<Text>, sepLen: nat, p: Params, from: nat, a: nat, ws: seq<Window>)
    decreases |ws|
  {
    && |ws| > 0 && ws[0].a == a && a <= from < ws[0].b <= |docs|
    && Filled(docs, sepLen, p, from, ws[0])
    && (if ws[0].b == |docs| then |ws| == 1
        else |ws| > 1
             && KeepsOverlap(docs, sepLen, p, ws[0], ws[1].a)
             && Greedy(docs, sepLen, p, ws[0].b, ws[1].a, ws[1..]))
  }

  /** Every window starts with a document that is not empty. */
  ghost predicate SolidStarts(docs: seq<Text>, ws: seq<Window>) {
    forall w :: w in ws ==> w.a < |docs| && docs[w.a] != []
  }

  /** While the block `docs[a..i]`, which starts with a non-empty document, is filled, the counter is its length; it is
      flushed where the next document would overflow the size. */
  lemma {:induction false} FirstFilled(docs: seq<Text>, sepLen: nat, p: Params, from: nat, i: nat, a: nat, len: int)
    requires p.Valid() && sepLen > 0 && a <= from < i <= |docs| && docs[a] != []
    requires Ledger(docs, sepLen, i, a, len)
    requires forall j :: from + 1 < j <= i ==> JoinedLen(docs, sepLen, a, j) <= p.size
    ensures var ws := Windows(docs, sepLen, p, i, a, len);
            && ws != [] && ws[0].a == a && i <= ws[0].b <= |docs| && Filled(docs, sepLen, p, from, ws[0])
            && ws[1..] == AfterFlush(docs, sepLen, p, a, ws[0].b)
    decreases |docs| - i
  {
    if i == |docs| {
    } else if len + |docs[i]| + sepLen > p.size {
      assert Windows(docs, sepLen, p, i, a, len)[1..] == AfterFlush(docs, sepLen, p, a, i);
    } else {
      JoinedLenZero(docs, sepLen, a, i);
      LedgerGrows(docs, sepLen, i, a, len);
      FirstFilled(docs, sepLen, p, from, i + 1, a, Grown(len, |docs[i]|, sepLen));
    }
  }

  /** The windows after the block `docs[a..b]` has been flushed with a true counter. */
  ghost function AfterFlush(docs: seq<Text>, sepLen: nat, p: Params, a: nat, b: nat): (ws: seq<Window>)
    requires p.Valid() && a <= b <= |docs|
    ensures b == |docs| ==> ws == []
  {
    if b == |docs| then []
    else
      var (a', len') := Trim(docs, sepLen, p.overlap, a, b, JoinedLen(docs, sepLen, a, b));
      Windows(docs, sepLen, p, b + 1, a', Grown(len', |docs[b]|, sepLen))
  }

  /** The longest suffix is one suffix. */
  lemma AfterFlushFrom(docs: seq<Text>, sepLen: nat, p: Params, w: Window, a: nat)
    requires p.Valid() && w.a <= w.b < |docs| && KeepsOverlap(docs, sepLen, p, w, a)
    ensures AfterFlush(docs, sepLen, p, w.a, w.b)
         == Windows(docs, sepLen, p, w.b + 1, a, Grown(JoinedLen(docs, sepLen, a, w.b), |docs[w.b]|, sepLen))
  {
    TrimKeepsLongest(docs, sepLen, p.overlap, w.a, w.b, JoinedLen(docs, sepLen, w.a, w.b));
  }

  /** Loop and greedy packing make the same windows, as long as these start with non-empty documents. */
  lemma {:induction false} WindowsGreedy(docs: seq<Text>, sepLen: nat, p: Params, from: nat, a: nat, len: int,
                                         ws: seq<Window>)
    requires p.Valid() && sepLen > 0 && a <= from < |docs| && Ledger(docs, sepLen, from + 1, a, len)
    requires ws != [] && ws[0].a == a && SolidStarts(docs, ws)
    ensures Greedy(docs, sepLen, p, from, a, ws) <==> ws == Windows(docs, sepLen, p, from + 1, a, len)
    decreases |ws|
  {
    hide Windows, AfterFlush, Trim, JoinedLen, Filled, Ledger, Grown;
    var all := Windows(docs, sepLen, p, from + 1, a, len);
    assert ws[0] in ws;
    FirstFilled(docs, sepLen, p, from, from + 1, a, len);
    if ws == all || Greedy(docs, sepLen, p, from, a, ws) {
      var w := ws[0];
      FilledIsUnique(docs, sepLen, p, from, w, all[0]);
      assert ws == [w] + ws[1..] && all == [w] + all[1..];
      if w.b == |docs| {
        assert all[1..] == [];
      } else {
        NextWindow(docs, sepLen, p, a, w.b);
        assert |ws| > 1;
        var a' := ws[1].a;
        if KeepsOverlap(docs, sepLen, p, w, a') {
          assert ws[1] in ws;
          AfterFlushFrom(docs, sepLen, p, w, a');
          LedgerAfterFlush(docs, sepLen, a', w.b);
          WindowsGreedy(docs, sepLen, p, w.b, a', Grown(JoinedLen(docs, sepLen, a', w.b), |docs[w.b]|, sepLen), ws[1..]);
        }
      }
    }
  }

  lemma FilledIsUnique(docs: seq<Text>, sepLen: nat, p: Params, from: nat, v: Window, w: Window)
    requires v.a == w.a <= from < v.b <= |docs| && from < w.b <= |docs|
    requires Filled(docs, sepLen, p, from, v) && Filled(docs, sepLen, p, from, w)
    ensures v == w
  {
  }

  lemma NextWindow(docs: seq<Text>, sepLen: nat, p: Params, a: nat, b: nat)
    requires p.Valid() && a <= b < |docs|
    ensures var next := AfterFlush(docs, sepLen, p, a, b);
            next != [] && KeepsOverlap(docs, sepLen, p, Window(a, b), next[0].a)
  {
    var len := JoinedLen(docs, sepLen, a, b);
    var (a', len') := Trim(docs, sepLen, p.overlap, a, b, len);
    TrimKeepsLongest(docs, sepLen, p.overlap, a, b, len);
    WindowsChained(docs, sepLen, p, b + 1, a', Grown(len', |docs[b]|, sepLen));
  }

  lemma LedgerAfterFlush(docs: seq<Text>, sepLen: nat, a: nat, b: nat)
    requires a <= b < |docs| && sepLen > 0 && docs[a] != []
    ensures Ledger(docs, sepLen, b + 1, a, Grown(JoinedLen(docs, sepLen, a, b), |docs[b]|, sepLen))
  {
    LedgerGrows(docs, sepLen, b, a, JoinedLen(docs, sepLen, a, b));
    if a < b {
      JoinedLenZero(docs, sepLen, a, b);
    }
  }

  /** The counter-driven loop is greedy packing: a list of windows that start with non-empty documents is greedy if
      and only if it is the one the loop emits, whatever empty documents there are elsewhere. */
  lemma MergeIsGreedy(docs: seq<Text>, sepLen: nat, p: Params, ws: seq<Window>)
    requires p.Valid() && sepLen > 0 && docs != [] && SolidStarts(docs, ws)
    ensures Greedy(docs, sepLen, p, 0, 0, ws) <==> ws == AllWindows(docs, sepLen, p)
  {
    WindowsChained(docs, sepLen, p, 0, 0, 0);
    if ws != [] && ws[0].a == 0 {
      WindowsGreedy(docs, sepLen, p, 0, 0, |docs[0]|, ws);
    }
  }

  /** In particular the first window of documents of which the first is not empty is the longest prefix whose joined
      length is within the size, or a single document. */
  lemma FirstWindowIsLongestPrefix(docs: seq<Text>, sep: Text, p: Params)
    requires p.Valid() && sep != [] && docs != [] && docs[0] != []
    ensures var ws := AllWindows(docs, |sep|, p);
            && ws != [] && ws[0].a == 0 < ws[0].b <= |docs|
            && (forall b :: 1 < b <= |docs| ==> (|Join(docs[..b], sep)| <= p.size <==> b <= ws[0].b))
  {
    FirstFilled(docs, |sep|, p, 0, 1, 0, |docs[0]|);
    var w := AllWindows(docs, |sep|, p)[0];
    forall b | 1 < b <= |docs|
      ensures |Join(docs[..b], sep)| <= p.size <==> b <= w.b
    {
      assert docs[..b] == docs[0..b];
      JoinedLenIsLength(docs, sep, 0, b);
      if w.b < b {
        OffsetMonotone(docs, |sep|, w.b + 1, b);
      }
    }
  }

  /** What the forgotten separator does: with an empty first document a chunk outgrows the size without any overlap. */
  lemma EmptyStartOverflows(sep: Text, doc: Text)
    requires sep != [] && doc != []
    ensures var docs := [[], doc, doc];
            var p := Params(2 * |doc| + |sep|, 0);
            Merged(docs, sep, p) == [Join(docs, sep)] && |Join(docs, sep)| == p.size + |sep|
  {
    var docs, p := [[], doc, doc], Params(2 * |doc| + |sep|, 0);
    var ws := AllWindows(docs, |sep|, p);
    assert Windows(docs, |sep|, p, 3, 0, 2 * |doc| + |sep|) == [Window(0, 3)];
    assert Windows(docs, |sep|, p, 2, 0, |doc|) == [Window(0, 3)];
    assert Windows(docs, |sep|, p, 1, 0, 0) == [Window(0, 3)];
    WindowsInside(docs, |sep|, p, 0, 0, 0);
    RenderAt(docs, sep, ws);
    assert docs[0..3] == docs;
    JoinedLenIsLength(docs, sep, 0, 3);
    assert Offset(docs, |sep|, 1) == |sep| && Offset(docs, |sep|, 2) == |doc| + 2 * |sep|;
  }

  // ---------------------------------------------------------------- length bounds

  lemma {:induction false} GreedyBound(docs: seq<Text>, sepLen: nat, p: Params, from: nat, a: nat, ws: seq<Window>)
    requires p.Valid() && NoneEmpty(docs) && Greedy(docs, sepLen, p, from, a, ws)
    requires forall d :: d in docs ==> |d| <= p.size
    requires a < from ==> JoinedLen(docs, sepLen, a, from) <= p.overlap
    ensures forall w :: w in ws ==>
              && w.a < w.b <= |docs|
              && JoinedLen(docs, sepLen, w.a, w.b) <= if p.overlap == 0 then p.size else p.size + p.overlap + sepLen
    decreases |ws|
  {
    var w := ws[0];
    if w.b == from + 1 {
      assert docs[from] in docs;
      if a < from {
        OffsetStrict(docs, sepLen, a, from);
        assert docs[a] in docs;
      }
    }
    assert ws == [w] + ws[1..];
    if w.b < |docs| {
      GreedyBound(docs, sepLen, p, w.b, ws[1].a, ws[1..]);
    }
  }

  lemma NoneEmptyStarts(docs: seq<Text>, ws: seq<Window>)
    requires NoneEmpty(docs) && Inside(docs, ws)
    ensures SolidStarts(docs, ws)
  {
    forall w | w in ws
      ensures docs[w.a] != []
    {
      assert docs[w.a] in docs;
    }
  }

  /** The real bound on a merged chunk. The obvious one, `size`, is not it as soon as an overlap is asked for
      (OverlapOverflows). */
  lemma MergedBound(docs: seq<Text>, sep: Text, p: Params)
    requires p.Valid() && sep != [] && NoneEmpty(docs)
    requires forall d :: d in docs ==> |d| <= p.size
    ensures forall c :: c in Merged(docs, sep, p) ==>
              0 < |c| <= if p.overlap == 0 then p.size else p.size + p.overlap + |sep|
  {
    var ws, cs := AllWindows(docs, |sep|, p), Merged(docs, sep, p);
    if docs != [] {
      WindowsInside(docs, |sep|, p, 0, 0, 0);
      RenderAt(docs, sep, ws);
      NoneEmptyStarts(docs, ws);
      MergeIsGreedy(docs, |sep|, p, ws);
      GreedyBound(docs, |sep|, p, 0, 0, ws);
      forall k | 0 <= k < |cs|
        ensures 0 < |cs[k]| <= if p.overlap == 0 then p.size else p.size + p.overlap + |sep|
      {
        assert ws[k] in ws;
        WindowNonEmpty(docs, sep, ws[k]);
      }
    }
  }

  lemma WindowNonEmpty(docs: seq<Text>, sep: Text, w: Window)
    requires NoneEmpty(docs) && w.a < w.b <= |docs| && sep != []
    ensures 0 < |Join(docs[w.a..w.b], sep)| == JoinedLen(docs, |sep|, w.a, w.b)
  {
    JoinedLenIsLength(docs, sep, w.a, w.b);
    OffsetStrict(docs, |sep|, w.a, w.b);
    assert docs[w.a] in docs;
  }

  /** The bound is reached: with an overlap, a document of that length followed by one of full size is flushed, kept
      as overlap, and the second document is appended to it without another look at the size. */
  lemma OverlapOverflows(sep: Text, p: Params)
    requires p.Valid() && sep != [] && p.overlap > 0
    ensures var docs: seq<Text> := [seq(p.overlap, _ => 97), seq(p.size, _ => 120)];
            exists c :: c in Merged(docs, sep, p) && |c| == p.size + p.overlap + |sep|
  {
    var docs: seq<Text> := [seq(p.overlap, _ => 97), seq(p.size, _ => 120)];
    assert AllWindows(docs, |sep|, p) == [Window(0, 1), Window(0, 2)] by {
      assert Windows(docs, |sep|, p, 2, 0, p.overlap + p.size + |sep|) == [Window(0, 2)];
      assert Trim(docs, |sep|, p.overlap, 0, 1, p.overlap) == (0, p.overlap);
      assert Windows(docs, |sep|, p, 1, 0, p.overlap) == [Window(0, 1), Window(0, 2)];
    }
    RenderAt(docs, sep, AllWindows(docs, |sep|, p));
    assert docs[0..2] == docs;
    var c := Merged(docs, sep, p)[1];
    assert c == docs[0] + sep + Join(docs[1..], sep);
    assert c in Merged(docs, sep, p);
  }
}
