/** Text as the chunkers see it: Go strings are byte sequences and every slice is a byte slice. */
module Texts {
  newtype Byte = b: int | 0 <= b < 256

  type Text = seq<Byte>

  datatype Params = Params(size: int, overlap: int) {
    ghost predicate Valid() {
      1 <= size && 0 <= overlap < size
    }
  }

  /** The parameter repair all three chunkers start with. */
  function Normalise(size: int, overlap: int): (p: Params)
    ensures p.Valid()
    ensures 0 <= overlap < size ==> p == Params(size, overlap)
    ensures if size > 0 then p.size == size else p.size == 500
    ensures overlap <= 0 ==> p.overlap == 0
    ensures overlap >= p.size ==> p.overlap <= p.size - p.overlap <= p.overlap + 1
    ensures 0 < overlap < p.size ==> p.overlap == overlap
  {
    var s := if size <= 0 then 500 else size;
    var o := if overlap < 0 then 0 else overlap;
    Params(s, if o >= s then s / 2 else o)
  }

  /** ASCII white space of Go's `unicode.IsSpace`. */
  predicate AsciiBlank(code: int) {
    9 <= code <= 13 || code == 32
  }

  function Min(a: int, b: int): int {
    if a < b then a else b
  }
}
