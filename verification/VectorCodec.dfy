/**
  The text form of vectors that goes to and comes from pgvector: numbers between brackets, separated by
  commas. The printing and parsing of one number is strconv's; what it promises is `Codec.Faithful`.
 */
module VectorCodec {
  import opened Wrappers
  import opened Sequences
  import opened Texts
  import Decimal

  /** One number to text and back. `finite` leaves out NaN and the infinities. */
  datatype Codec<!F(!new)> = Codec(finite: F -> bool, format: F -> string, parse: string -> Option<F>) {
    /** Shortest-form printing of a finite value parses back to it, and is made of characters that mean
        nothing to the vector syntax. */
    ghost predicate Faithful() {
      forall v :: finite(v) ==> Plain(format(v)) && parse(format(v)) == Some(v)
    }
  }

  predicate Plain(s: string) {
    s != [] && forall i :: 0 <= i < |s| ==> s[i] != ',' && s[i] != '[' && s[i] != ']' && !Blank(s[i])
  }

  predicate Blank(c: char) {
    AsciiBlank(c as int)
  }

  ghost predicate Finite<F(!new)>(c: Codec<F>, vec: seq<F>) {
    forall i :: 0 <= i < |vec| ==> c.finite(vec[i])
  }

  function Formatted<F(!new)>(c: Codec<F>, vec: seq<F>): seq<string> {
    seq(|vec|, i requires 0 <= i < |vec| => c.format(vec[i]))
  }

  function Printed<F(!new)>(c: Codec<F>, vec: seq<F>): string {
    "[" + Join(Formatted(c, vec), ",") + "]"
  }

  method VectorToString<F(!new)>(c: Codec<F>, vec: seq<F>) returns (s: string)
    ensures s == Printed(c, vec)
  {
    var b := "[";
    ghost var parts := Formatted(c, vec);
    for i := 0 to |vec|
      invariant b == "[" + Join(parts[..i], ",")
    {
      ghost var before := b;
      if i > 0 {
        b := b + ",";
      }
      b := b + c.format(vec[i]);
      assert parts[..i + 1] == parts[..i] + [parts[i]];
      if i > 0 {
        JoinAppend(parts[..i], [parts[i]], ",");
      }
    }
    assert parts[..|vec|] == parts;
    s := b + "]";
  }

  function TrimPrefix(s: string, c: char): string {
    if s != [] && s[0] == c then s[1..] else s
  }

  function TrimSuffix(s: string, c: char): string {
    if s != [] && s[|s| - 1] == c then s[..|s| - 1] else s
  }

  function TrimSpace(s: string): string {
    Trim(s, Blank)
  }

  /** The parts parse in order; the error names the first that does not. */
  function ParseParts<F(!new)>(c: Codec<F>, parts: seq<string>, i: nat): (r: Result<seq<F>, nat>)
    requires i <= |parts|
    decreases |parts| - i
  {
    if i == |parts| then Ok([])
    else match c.parse(TrimSpace(parts[i]))
      case None => Err(i)
      case Some(v) =>
        match ParseParts(c, parts, i + 1)
        case Err(e) => Err(e)
        case Ok(vs) => Ok([v] + vs)
  }

  function Unbracketed(s: string): string {
    TrimSuffix(TrimPrefix(s, '['), ']')
  }

  function Parsed<F(!new)>(c: Codec<F>, s: string): (r: Result<seq<F>, nat>) {
    if Unbracketed(s) == "" then Ok([]) else ParseParts(c, Split(Unbracketed(s), ","), 0)
  }

  method StringToVector<F(!new)>(c: Codec<F>, text: string) returns (r: Result<seq<F>, nat>)
    ensures r == Parsed(c, text)
  {
    var s := TrimPrefix(text, '[');
    s := TrimSuffix(s, ']');
    if s == "" {
      return Ok([]);
    }
    var parts := Split(s, ",");
    var vec: seq<F> := [];
    PrependNothing(ParseParts(c, parts, 0));
    for i := 0 to |parts|
      invariant ParseParts(c, parts, 0) == Prepend(vec, ParseParts(c, parts, i))
    {
      var val := c.parse(TrimSpace(parts[i]));
      if val.None? {
        return Err(i);
      }
      ghost var before := vec;
      vec := vec + [val.value];
      PrependAppend(before, val.value, ParseParts(c, parts, i + 1));
    }
    assert vec + [] == vec;
    r := Ok(vec);
  }

  ghost function Prepend<F>(vec: seq<F>, r: Result<seq<F>, nat>): Result<seq<F>, nat> {
    match r
    case Ok(vs) => Ok(vec + vs)
    case Err(e) => Err(e)
  }

  lemma PrependNothing<F>(r: Result<seq<F>, nat>)
    ensures Prepend([], r) == r
  {
    if r.Ok? {
      assert [] + r.value == r.value;
    }
  }

  lemma PrependAppend<F>(vec: seq<F>, v: F, r: Result<seq<F>, nat>)
    ensures Prepend(vec, Prepend([v], r)) == Prepend(vec + [v], r)
  {
    if r.Ok? {
      assert vec + ([v] + r.value) == vec + [v] + r.value;
    }
  }

  lemma PlainIsTrimmed(s: string)
    requires Plain(s)
    ensures TrimSpace(s) == s
  {
  }

  lemma {:induction false} ParseFormatted<F(!new)>(c: Codec<F>, vec: seq<F>, i: nat)
    requires c.Faithful() && Finite(c, vec) && i <= |vec|
    ensures ParseParts(c, Formatted(c, vec), i) == Ok(vec[i..])
    decreases |vec| - i
  {
    if i >= |vec| {
    } else {
      assert c.finite(vec[i]);
      PlainIsTrimmed(c.format(vec[i]));
      ParseFormatted(c, vec, i + 1);
      assert vec[i..] == [vec[i]] + vec[i + 1..];
    }
  }

  /** Round trip: a finite vector, the empty one included, is read back as it was printed. */
  lemma RoundTrip<F(!new)>(c: Codec<F>, vec: seq<F>)
    requires c.Faithful() && Finite(c, vec)
    ensures Parsed(c, Printed(c, vec)) == Ok(vec)
  {
    var parts, s := Formatted(c, vec), Printed(c, vec);
    assert Unbracketed(s) == Join(parts, ",");
    if vec != [] {
      forall p | p in parts
        ensures ',' !in p && p != []
      {
        var i :| 0 <= i < |vec| && p == c.format(vec[i]);
        assert c.finite(vec[i]) && Plain(p);
      }
      SplitJoin(parts, ',');
      assert parts[0] in parts;
      ParseFormatted(c, vec, 0);
    }
  }

  /** What is sent: the elements between brackets with commas between them, nothing else. */
  lemma PrintedText<F(!new)>(c: Codec<F>, x: F, y: F, z: F)
    ensures Printed(c, []) == "[]" && Printed(c, [x]) == "[" + c.format(x) + "]"
    ensures Printed(c, [x, y, z]) == "[" + c.format(x) + "," + c.format(y) + "," + c.format(z) + "]"
  {
    var parts := Formatted(c, [x, y, z]);
    assert parts == [c.format(x)] + [c.format(y)] + [c.format(z)];
    JoinAppend([c.format(x)], [c.format(y)], ",");
    JoinAppend([c.format(x)] + [c.format(y)], [c.format(z)], ",");
    assert Join([c.format(x)], ",") == c.format(x) && Join([c.format(y)], ",") == c.format(y);
    assert Join([c.format(z)], ",") == c.format(z);
    assert Formatted(c, [x]) == [c.format(x)] && Formatted(c, []) == [];
  }

  /** The text `part` is `s` with blanks around it. */
  ghost predicate Padded(part: string, s: string) {
    exists lo: nat, hi: nat :: PaddedAt(part, s, lo, hi)
  }

  ghost predicate PaddedAt(part: string, s: string, lo: nat, hi: nat) {
    && lo <= hi <= |part| && part[lo..hi] == s
    && (forall i :: 0 <= i < lo || hi <= i < |part| ==> Blank(part[i]))
  }

  lemma PaddingIsTrimmed(part: string, s: string)
    requires Plain(s) && Padded(part, s)
    ensures TrimSpace(part) == s
  {
    var lo: nat, hi: nat :| PaddedAt(part, s, lo, hi);
    var l, h := TrimKeepsTheMiddle(part, Blank);
    assert part[lo..hi][0] == part[lo] && part[lo..hi][hi - lo - 1] == part[hi - 1];
    assert !Blank(part[lo]) && !Blank(part[hi - 1]);
    assert l <= lo && hi <= h;
    var r := TrimSpace(part);
    assert r == part[l..h] && r[0] == part[l] && r[|r| - 1] == part[h - 1];
  }

  lemma {:induction false} ParsePadded<F(!new)>(c: Codec<F>, vec: seq<F>, parts: seq<string>, i: nat)
    requires c.Faithful() && Finite(c, vec) && i <= |vec| == |parts|
    requires forall k :: 0 <= k < |vec| ==> Padded(parts[k], c.format(vec[k]))
    ensures ParseParts(c, parts, i) == Ok(vec[i..])
    decreases |vec| - i
  {
    if i == |vec| {
    } else {
      assert c.finite(vec[i]);
      PaddingIsTrimmed(parts[i], c.format(vec[i]));
      ParsePadded(c, vec, parts, i + 1);
      assert vec[i..] == [vec[i]] + vec[i + 1..];
    }
  }

  lemma BracketsAreOptional(s: string)
    requires '[' !in s && ']' !in s
    ensures Unbracketed(s) == s && Unbracketed("[" + s + "]") == s
  {
  }

  /** The reader is more lenient than the printer: blanks around the numbers do not matter, and neither do the
      brackets. */
  lemma BlanksDoNotMatter<F(!new)>(c: Codec<F>, vec: seq<F>, parts: seq<string>)
    requires c.Faithful() && Finite(c, vec) && |vec| == |parts| > 0
    requires forall k :: 0 <= k < |vec| ==> Padded(parts[k], c.format(vec[k]))
    ensures Parsed(c, "[" + Join(parts, ",") + "]") == Parsed(c, Join(parts, ",")) == Ok(vec)
  {
    hide Padded, Join;
    forall p | p in parts
      ensures ',' !in p && '[' !in p && ']' !in p && p != []
    {
      var k :| 0 <= k < |parts| && p == parts[k];
      assert c.finite(vec[k]) && Plain(c.format(vec[k]));
      PaddingIsPlainText(p, c.format(vec[k]));
    }
    JoinHasNoBracket(parts);
    BracketsAreOptional(Join(parts, ","));
    hide Unbracketed;
    SplitJoin(parts, ',');
    ParsePadded(c, vec, parts, 0);
  }

  lemma PaddingIsPlainText(part: string, s: string)
    requires Plain(s) && Padded(part, s)
    ensures ',' !in part && '[' !in part && ']' !in part && part != []
  {
    var lo: nat, hi: nat :| PaddedAt(part, s, lo, hi);
    forall i | 0 <= i < |part|
      ensures part[i] != ',' && part[i] != '[' && part[i] != ']'
    {
      if lo <= i < hi {
        assert part[lo..hi][i - lo] == part[i];
      }
    }
  }

  lemma {:induction false} JoinHasNoBracket(parts: seq<string>)
    requires parts != [] && forall p :: p in parts ==> p != [] && '[' !in p && ']' !in p
    ensures var s := Join(parts, ",");
            s != [] && '[' !in s && ']' !in s
  {
    assert parts[0] in parts;
    if |parts| == 1 {
    } else {
      assert forall p :: p in parts[1..] ==> p in parts;
      JoinHasNoBracket(parts[1..]);
    }
  }

  /** Different finite vectors print differently. */
  lemma PrintingIsInjective<F(!new)>(c: Codec<F>, v: seq<F>, w: seq<F>)
    requires c.Faithful() && Finite(c, v) && Finite(c, w) && Printed(c, v) == Printed(c, w)
    ensures v == w
  {
    RoundTrip(c, v);
    RoundTrip(c, w);
  }

  /** Malformed input: parsing fails exactly when some part does not parse, and reports the first such part. */
  lemma {:induction false} FailsAtFirstBadPart<F(!new)>(c: Codec<F>, parts: seq<string>, i: nat, e: nat)
    requires i <= |parts|
    ensures ParseParts(c, parts, i) == Err(e) <==>
              && i <= e < |parts| && c.parse(TrimSpace(parts[e])).None?
              && forall k :: i <= k < e ==> c.parse(TrimSpace(parts[k])).Some?
    decreases |parts| - i
  {
    if i >= |parts| {
    } else {
      FailsAtFirstBadPart(c, parts, i + 1, e);
    }
  }

  // ---------------------------------------------------------------- the codec contract can be met

  /** A decimal fraction: `frac` holds the digits after the point, without trailing zeros. */
  datatype Dec = Dec(neg: bool, whole: nat, frac: string)

  predicate Canonical(d: Dec) {
    Decimal.AllDigits(d.frac) && (d.frac != [] ==> d.frac[|d.frac| - 1] != '0')
  }

  function FormatDec(d: Dec): string {
    (if d.neg then "-" else "") + Decimal.Digits(d.whole) + (if d.frac == [] then "" else "." + d.frac)
  }

  function ParseDec(s: string): Option<Dec> {
    var neg := s != [] && s[0] == '-';
    match Decimal.ReadNat(if neg then s[1..] else s)
    case None => None
    case Some((whole, rest)) =>
      if rest == [] then Some(Dec(neg, whole, []))
      else if rest[0] == '.' && Decimal.AllDigits(rest[1..]) then Some(Dec(neg, whole, rest[1..]))
      else None
  }

  const DEC_CODEC: Codec<Dec> := Codec(d => Canonical(d), d => FormatDec(d), s => ParseDec(s))

  lemma PlainParts(a: string, b: string)
    requires Plain(a) && (b == [] || Plain(b))
    ensures Plain(a + b)
  {
  }

  lemma DigitsArePlain(s: string)
    requires s != [] && Decimal.AllDigits(s)
    ensures Plain(s)
  {
    assert forall i :: 0 <= i < |s| ==> Decimal.IsDigit(s[i]);
  }

  lemma FormatDecIsPlain(d: Dec)
    requires Canonical(d)
    ensures Plain(FormatDec(d))
  {
    var digits := Decimal.Digits(d.whole);
    DigitsArePlain(digits);
    if d.neg {
      PlainParts("-", digits);
    }
    if d.frac != [] {
      DigitsArePlain(d.frac);
      PlainParts(".", d.frac);
      PlainParts((if d.neg then "-" else "") + digits, "." + d.frac);
    }
    assert (if d.neg then "-" else "") + digits + "" == (if d.neg then "-" else "") + digits;
    assert "" + digits == digits;
  }

  lemma DecRoundTrip(d: Dec)
    requires Canonical(d)
    ensures ParseDec(FormatDec(d)) == Some(d)
  {
    hide Decimal.ReadNat;
    var s, digits := FormatDec(d), Decimal.Digits(d.whole);
    var tail := if d.frac == [] then "" else "." + d.frac;
    assert s == (if d.neg then "-" else "") + (digits + tail);
    Decimal.ReadDigits(d.whole, tail);
    assert Decimal.IsDigit(digits[0]);
    if d.neg {
      assert s[1..] == digits + tail;
    } else {
      assert s == digits + tail && s[0] == digits[0];
    }
    assert d.frac != [] ==> tail[1..] == d.frac;
  }

  /** Decimal fractions meet the contract, so it is not empty. */
  lemma DecCodecIsFaithful()
    ensures DEC_CODEC.Faithful()
  {
    forall d | DEC_CODEC.finite(d)
      ensures Plain(DEC_CODEC.format(d)) && DEC_CODEC.parse(DEC_CODEC.format(d)) == Some(d)
    {
      DecRoundTrip(d);
      FormatDecIsPlain(d);
    }
  }
}
