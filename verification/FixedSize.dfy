/** FixedSizeChunker: a window of `size` bytes that advances by `size - overlap`. */
module FixedSize {
  import opened Texts

  /** How many windows cover `len` bytes: one, then one more for every started step past the first window. */
  function ChunkCount(len: nat, p: Params): nat
    requires p.Valid()
  {
    if len == 0 then 0
    else if len <= p.size then 1
    else 1 + (len - p.size + (p.size - p.overlap) - 1) / (p.size - p.overlap)
  }

  function Start(p: Params, k: nat): int {
    k * (p.size - p.overlap)
  }

  /** The closed form of chunk `k`: `size` bytes from `k * (size - overlap)`, cut off at the end of the text. */
  function Window(text: Text, p: Params, k: nat): Text
    requires p.Valid() && k < ChunkCount(|text|, p)
  {
    WindowStartsInside(|text|, p, k);
    text[Start(p, k)..Min(Start(p, k) + p.size, |text|)]
  }

  function Chunks(text: Text, p: Params): (chunks: seq<Text>)
    requires p.Valid()
  {
    seq(ChunkCount(|text|, p), k requires 0 <= k < ChunkCount(|text|, p) => Window(text, p, k))
  }

  /** Only the last window reaches the end of the text; every later window starts `overlap` bytes before it. */
  lemma WindowStartsInside(len: nat, p: Params, k: nat)
    requires p.Valid() && k < ChunkCount(len, p)
    ensures 0 <= Start(p, k) < len
    ensures k > 0 ==> Start(p, k) + p.overlap < len
    ensures Start(p, k) + p.size >= len <==> k == ChunkCount(len, p) - 1
    ensures Start(p, k + 1) == Start(p, k) + p.size - p.overlap
  {
    var step := p.size - p.overlap;
    if len > p.size {
      var x := len - p.size + step - 1;
      var q := x / step;
      assert x == q * step + x % step && 0 <= x % step < step;
      if k == q {
        assert k * step == q * step;
      } else {
        MulMonotone(k + 1, q, step);
        assert (k + 1) * step == k * step + step;
      }
    }
  }

  lemma MulMonotone(a: int, b: int, c: nat)
    requires a <= b
    ensures a * c <= b * c
  {
  }

  method Chunk(text: Text, size: int, overlap: int) returns (chunks: seq<Text>)
    ensures chunks == Chunks(text, Normalise(size, overlap))
  {
    var p := Normalise(size, overlap);
    chunks := [];
    if |text| == 0 {
      return;
    }
    var start := 0;
    ghost var n := ChunkCount(|text|, p);
    while start < |text|
      invariant |chunks| < n && start == Start(p, |chunks|) < |text|
      invariant forall k :: 0 <= k < |chunks| ==> chunks[k] == Window(text, p, k)
      decreases |text| - start
    {
      ghost var k := |chunks|;
      WindowStartsInside(|text|, p, k);
      var end := start + p.size;
      if end > |text| {
        end := |text|;
      }
      assert text[start..end] == Window(text, p, k);
      chunks := chunks + [text[start..end]];
      if end == |text| {
        assert k + 1 == n;
        break;
      }
      start := end - p.overlap;
      WindowStartsInside(|text|, p, k + 1);
    }
  }

  /** What a reader of overlapping chunks does to get the text back: keep the first chunk and drop
      the first `overlap` bytes of every later one. */
  function Stitch(chunks: seq<Text>, overlap: nat): (text: Text)
    requires forall k :: 1 <= k < |chunks| ==> overlap <= |chunks[k]|
  {
    if chunks == [] then []
    else if |chunks| == 1 then chunks[0]
    else Stitch(chunks[..|chunks| - 1], overlap) + chunks[|chunks| - 1][overlap..]
  }

  /** Chunk lengths: full windows except the last, and later windows always longer than the overlap. */
  lemma WindowLength(text: Text, p: Params, k: nat)
    requires p.Valid() && k < ChunkCount(|text|, p)
    ensures 0 < |Window(text, p, k)| <= p.size
    ensures k > 0 ==> p.overlap < |Window(text, p, k)|
    ensures k < ChunkCount(|text|, p) - 1 ==> |Window(text, p, k)| == p.size
  {
    WindowStartsInside(|text|, p, k);
  }

  /** How much of the text the first `n` windows cover. */
  ghost function Covered(text: Text, p: Params, n: nat): Text
    requires p.Valid() && 1 <= n <= ChunkCount(|text|, p)
  {
    WindowStartsInside(|text|, p, n - 1);
    text[..Min(Start(p, n - 1) + p.size, |text|)]
  }

  lemma CoveredGrows(text: Text, p: Params, n: nat)
    requires p.Valid() && 1 < n <= ChunkCount(|text|, p) && p.overlap < |Window(text, p, n - 1)|
    ensures Covered(text, p, n) == Covered(text, p, n - 1) + Window(text, p, n - 1)[p.overlap..]
  {
    WindowStartsInside(|text|, p, n - 1);
    WindowStartsInside(|text|, p, n - 2);
    var at, end := Start(p, n - 1) + p.overlap, Min(Start(p, n - 1) + p.size, |text|);
    assert Covered(text, p, n - 1) == text[..at];
    assert Window(text, p, n - 1)[p.overlap..] == text[at..end];
  }

  lemma {:induction false} StitchPrefix(text: Text, p: Params, cs: seq<Text>)
    requires p.Valid() && 1 <= |cs| <= ChunkCount(|text|, p)
    requires forall k :: 0 <= k < |cs| ==> cs[k] == Window(text, p, k) && (k > 0 ==> p.overlap < |cs[k]|)
    ensures Stitch(cs, p.overlap) == Covered(text, p, |cs|)
  {
    var n := |cs|;
    if n == 1 {
    } else {
      StitchPrefix(text, p, cs[..n - 1]);
      CoveredGrows(text, p, n);
    }
  }

  /** Reconstruction: no byte is lost or reordered, whatever the (repaired) parameters, and each later
      chunk carries strictly more than the overlap. */
  lemma Reconstruction(text: Text, size: int, overlap: int)
    ensures var p := Normalise(size, overlap);
            var cs := Chunks(text, p);
            && (forall k :: 1 <= k < |cs| ==> p.overlap < |cs[k]|)
            && Stitch(cs, p.overlap) == text
            && (forall k :: 0 <= k < |cs| ==> 0 < |cs[k]| <= p.size)
            && (forall k :: 0 <= k < |cs| - 1 ==> |cs[k]| == p.size)
  {
    var p := Normalise(size, overlap);
    var cs := Chunks(text, p);
    forall k | 0 <= k < |cs|
      ensures 0 < |cs[k]| <= p.size && (k > 0 ==> p.overlap < |cs[k]|) && (k < |cs| - 1 ==> |cs[k]| == p.size)
    {
      WindowLength(text, p, k);
    }
    if text != [] {
      StitchPrefix(text, p, cs);
      WindowStartsInside(|text|, p, |cs| - 1);
    }
  }

  /** The longest text the fixed strategy can cut into at most `limit` chunks, exactly. */
  lemma CountWithinLimit(len: nat, p: Params, limit: nat)
    requires p.Valid() && limit >= 1
    ensures ChunkCount(len, p) <= limit <==> len <= p.size + (limit - 1) * (p.size - p.overlap)
  {
    var step, n := p.size - p.overlap, ChunkCount(len, p);
    if len > p.size {
      WindowStartsInside(len, p, n - 1);
      WindowStartsInside(len, p, n - 2);
      if n <= limit {
        MulMonotone(n - 1, limit - 1, step);
      } else {
        MulMonotone(limit - 1, n - 2, step);
      }
    } else {
      MulMonotone(0, limit - 1, step);
    }
  }
}
