/**
  The regular expression of the sentence chunker, with the leftmost-first semantics of Go's regexp
  package: at a position, alternatives are tried in order and repetition prefers more, so the possible
  match ends form a list in order of preference.
 */
module Regex {
  import opened Texts

  datatype Class = NotPunct | Punct | Space

  /** `.`, `!` or `?`. */
  predicate IsPunct(b: Byte) {
    b == 46 || b == 33 || b == 63
  }

  /** `\s` of RE2: tab, newline, form feed, carriage return and space, but not vertical tab. */
  predicate IsSpace(b: Byte) {
    b == 9 || b == 10 || b == 12 || b == 13 || b == 32
  }

  predicate Has(c: Class, b: Byte) {
    match c
    case NotPunct => !IsPunct(b)
    case Punct => IsPunct(b)
    case Space => IsSpace(b)
  }

  datatype Regex =
    | OneOrMore(c: Class)
    | EndOfText
    | Cat(first: Regex, second: Regex)
    | Either(preferred: Regex, other: Regex)

  /** `[^.!?]+([.!?]+(\s+|$)|$)` */
  const SPACES_OR_END := Either(OneOrMore(Space), EndOfText)
  const TAIL := Either(Cat(OneOrMore(Punct), SPACES_OR_END), EndOfText)
  const SENTENCE := Cat(OneOrMore(NotPunct), TAIL)

  predicate InText(es: seq<nat>, t: Text) {
    forall k :: 0 <= k < |es| ==> es[k] <= |t|
  }

  /** Where a match of `r` from `i` can end, most preferred first. */
  function Ends(r: Regex, t: Text, i: nat): (es: seq<nat>)
    requires i <= |t|
    ensures InText(es, t)
    decreases r, 0
  {
    match r
    case OneOrMore(c) => Repeats(c, t, i)
    case EndOfText => if i == |t| then [i] else []
    case Cat(a, b) => EndsAfter(b, t, Ends(a, t, i))
    case Either(a, b) => Ends(a, t, i) + Ends(b, t, i)
  }

  /** Greedy repetition: the whole run first, then ever shorter prefixes of it. */
  function Repeats(c: Class, t: Text, i: nat): (es: seq<nat>)
    requires i <= |t|
    ensures InText(es, t)
    decreases |t| - i
  {
    if i < |t| && Has(c, t[i]) then Repeats(c, t, i + 1) + [i + 1] else []
  }

  function EndsAfter(r: Regex, t: Text, starts: seq<nat>): (es: seq<nat>)
    requires InText(starts, t)
    ensures InText(es, t)
    decreases r, 1 + |starts|
  {
    if starts == [] then [] else Ends(r, t, starts[0]) + EndsAfter(r, t, starts[1..])
  }

  datatype Match = Match(lo: nat, hi: nat)

  /** `FindAllString` from position `i`: the leftmost match, its preferred end, then the rest of the text.
      (Matches of the sentence expression are never empty.) */
  function FindAll(r: Regex, t: Text, i: nat): (ms: seq<Match>)
    decreases |t| - i
  {
    if i >= |t| then []
    else
      var es := Ends(r, t, i);
      if es == [] then FindAll(r, t, i + 1)
      else
        [Match(i, es[0])] + FindAll(r, t, if es[0] > i then es[0] else i + 1)
  }

  // ---------------------------------------------------------------- a scanner without backtracking

  /** The end of the run of `c` that starts at `i`. */
  function RunEnd(c: Class, t: Text, i: nat): (e: nat)
    requires i <= |t|
    ensures i <= e <= |t|
    ensures e < |t| ==> !Has(c, t[e])
    decreases |t| - i
  {
    if i < |t| && Has(c, t[i]) then RunEnd(c, t, i + 1) else i
  }

  lemma {:induction false} InRun(c: Class, t: Text, i: nat, x: nat)
    requires i <= |t| && i <= x < RunEnd(c, t, i)
    ensures Has(c, t[x]) && RunEnd(c, t, x) == RunEnd(c, t, i)
    decreases |t| - i
  {
    if i >= x {
    } else {
      InRun(c, t, i + 1, x);
    }
  }

  /** One pass, left to right: a sentence is a run without punctuation, then the run of punctuation after it
      and the blanks after that. It is skipped when the punctuation is followed by anything else. */
  function Scan(t: Text, i: nat): (ms: seq<Match>)
    decreases |t| - i
  {
    if i >= |t| then []
    else if IsPunct(t[i]) then Scan(t, i + 1)
    else
      var j := RunEnd(NotPunct, t, i);
      if j == |t| then [Match(i, j)]
      else
        var k := RunEnd(Punct, t, j);
        var m := RunEnd(Space, t, k);
        if m > k || k == |t| then [Match(i, m)] + Scan(t, m) else Scan(t, k)
  }

  lemma {:induction false} EndsAfterAppend(r: Regex, t: Text, a: seq<nat>, b: seq<nat>)
    requires InText(a, t) && InText(b, t)
    ensures EndsAfter(r, t, a + b) == EndsAfter(r, t, a) + EndsAfter(r, t, b)
  {
    hide Ends;
    if a == [] {
      assert a + b == b;
    } else {
      EndsAfterAppend(r, t, a[1..], b);
      assert (a + b)[1..] == a[1..] + b;
    }
  }

  lemma EndsAfterOne(r: Regex, t: Text, e: nat)
    requires e <= |t|
    ensures EndsAfter(r, t, [e]) == Ends(r, t, e)
  {
    assert [e][1..] == [] && EndsAfter(r, t, [e][1..]) == [];
  }

  /** Giving back repetitions never helps when what follows cannot start inside the run. */
  lemma {:induction false} NoBacktracking(r: Regex, c: Class, t: Text, i: nat)
    requires i <= |t|
    requires forall e :: i < e < RunEnd(c, t, i) ==> Ends(r, t, e) == []
    ensures var j := RunEnd(c, t, i);
            EndsAfter(r, t, Repeats(c, t, i)) == if j > i then Ends(r, t, j) else []
    decreases |t| - i
  {
    hide Ends;
    if i < |t| && Has(c, t[i]) {
      hide EndsAfter;
      var longer := Repeats(c, t, i + 1);
      assert Repeats(c, t, i) == longer + [i + 1] && RunEnd(c, t, i) == RunEnd(c, t, i + 1);
      hide Repeats, RunEnd;
      NoBacktracking(r, c, t, i + 1);
      EndsAfterAppend(r, t, longer, [i + 1]);
      EndsAfterOne(r, t, i + 1);
    } else {
      assert Repeats(c, t, i) == [];
    }
  }

  /** What the scanner decides at `i`: no match, or the preferred end. */
  function SentenceEnd(t: Text, i: nat): (es: seq<nat>)
    requires i <= |t|
  {
    var j := RunEnd(NotPunct, t, i);
    if j == i then []
    else if j == |t| then [j]
    else
      var k := RunEnd(Punct, t, j);
      var m := RunEnd(Space, t, k);
      if m > k || k == |t| then [m] else []
  }

  lemma {:induction false} RepeatsHead(c: Class, t: Text, i: nat)
    requires i <= |t|
    ensures if RunEnd(c, t, i) > i
            then Repeats(c, t, i) != [] && Repeats(c, t, i)[0] == RunEnd(c, t, i)
            else Repeats(c, t, i) == []
    decreases |t| - i
  {
    if i == |t| || !Has(c, t[i]) {
    } else {
      RepeatsHead(c, t, i + 1);
    }
  }

  lemma TailEnds(t: Text, j: nat)
    requires j <= |t| && (j < |t| ==> IsPunct(t[j]))
    ensures var k := RunEnd(Punct, t, j);
            var es := Ends(TAIL, t, j);
            if j == |t| then es == [j]
            else if RunEnd(Space, t, k) > k || k == |t| then es != [] && es[0] == RunEnd(Space, t, k)
            else es == []
  {
    var k := RunEnd(Punct, t, j);
    forall e | j < e < k
      ensures Ends(SPACES_OR_END, t, e) == []
    {
      InRun(Punct, t, j, e);
    }
    NoBacktracking(SPACES_OR_END, Punct, t, j);
    RepeatsHead(Space, t, k);
    assert Ends(Cat(OneOrMore(Punct), SPACES_OR_END), t, j) == EndsAfter(SPACES_OR_END, t, Repeats(Punct, t, j));
    assert Ends(SPACES_OR_END, t, k) == Repeats(Space, t, k) + Ends(EndOfText, t, k);
  }

  lemma TailInsideRun(t: Text, e: nat)
    requires e < |t| && !IsPunct(t[e])
    ensures Ends(TAIL, t, e) == []
  {
    assert Repeats(Punct, t, e) == [];
    assert Ends(Cat(OneOrMore(Punct), SPACES_OR_END), t, e) == EndsAfter(SPACES_OR_END, t, Repeats(Punct, t, e));
  }

  lemma SentenceIsRunAndTail(t: Text, i: nat)
    requires i <= |t|
    ensures Ends(SENTENCE, t, i) == EndsAfter(TAIL, t, Repeats(NotPunct, t, i))
  {
    assert Ends(OneOrMore(NotPunct), t, i) == Repeats(NotPunct, t, i);
  }

  /** The preferred end of the backtracking matcher is the scanner's. */
  lemma SentenceEnds(t: Text, i: nat)
    requires i <= |t|
    ensures var es := Ends(SENTENCE, t, i);
            if SentenceEnd(t, i) == [] then es == [] else es != [] && es[0] == SentenceEnd(t, i)[0]
  {
    hide Ends, EndsAfter, Repeats;
    var j := RunEnd(NotPunct, t, i);
    forall e | i < e < j
      ensures Ends(TAIL, t, e) == []
    {
      InRun(NotPunct, t, i, e);
      TailInsideRun(t, e);
    }
    NoBacktracking(TAIL, NotPunct, t, i);
    SentenceIsRunAndTail(t, i);
    TailEnds(t, j);
  }

  /** Positions that start no match are passed over one by one. */
  lemma {:induction false} SkipTo(r: Regex, t: Text, i: nat, k: nat)
    requires i <= k <= |t|
    requires forall x :: i <= x < k ==> Ends(r, t, x) == []
    ensures FindAll(r, t, i) == FindAll(r, t, k)
    decreases k - i
  {
    hide Ends;
    if i >= k {
    } else {
      SkipTo(r, t, i + 1, k);
    }
  }

  /** The scanner finds exactly what leftmost-first matching finds. */
  lemma {:induction false} ScanIsFindAll(t: Text, i: nat)
    ensures FindAll(SENTENCE, t, i) == Scan(t, i)
    decreases |t| - i
  {
    if i >= |t| {
    } else {
      SentenceEnds(t, i);
      var j := RunEnd(NotPunct, t, i);
      var k := RunEnd(Punct, t, j);
      if IsPunct(t[i]) {
        ScanIsFindAll(t, i + 1);
      } else if SentenceEnd(t, i) != [] {
        ScanIsFindAll(t, SentenceEnd(t, i)[0]);
      } else {
        forall x | i <= x < k
          ensures Ends(SENTENCE, t, x) == []
        {
          SentenceEnds(t, x);
          if x < j {
            InRun(NotPunct, t, i, x);
          } else {
            InRun(Punct, t, j, x);
          }
        }
        SkipTo(SENTENCE, t, i, k);
        ScanIsFindAll(t, k);
      }
    }
  }

  // ---------------------------------------------------------------- when nothing is lost

  /** The matched texts one after another. */
  function Matched(t: Text, ms: seq<Match>): Text
    requires forall m :: m in ms ==> m.lo <= m.hi <= |t|
  {
    if ms == [] then []
    else
      assert ms[0] in ms;
      t[ms[0].lo..ms[0].hi] + Matched(t, ms[1..])
  }

  lemma {:induction false} ScanInside(t: Text, i: nat)
    ensures forall m :: m in Scan(t, i) ==> i <= m.lo < m.hi <= |t|
    decreases |t| - i
  {
    if i >= |t| {
    } else {
      var j := RunEnd(NotPunct, t, i);
      var k := RunEnd(Punct, t, j);
      var m := RunEnd(Space, t, k);
      if IsPunct(t[i]) {
        ScanInside(t, i + 1);
      } else if j < |t| {
        ScanInside(t, if m > k || k == |t| then m else k);
      }
    }
  }

  /** From `i` on, the text starts with no punctuation, and each run of punctuation is followed by the end of the text
      or by blanks that lead to a non-punctuation character or to the end. */
  predicate LosslessFrom(t: Text, i: nat) {
    i >= |t| ||
    (!IsPunct(t[i]) &&
     forall k :: i < k < |t| ==> LosslessAt(t, k))
  }

  predicate LosslessAt(t: Text, k: nat)
    requires 0 < k < |t|
  {
    IsPunct(t[k - 1]) && !IsPunct(t[k]) ==>
      var m := RunEnd(Space, t, k);
      m > k && (m == |t| || !IsPunct(t[m]))
  }

  lemma NothingLeftToLose(t: Text, i: nat)
    requires i < |t| && RunEnd(NotPunct, t, i) == |t|
    ensures LosslessFrom(t, i)
  {
    InRun(NotPunct, t, i, i);
    forall x | i < x < |t|
      ensures LosslessAt(t, x)
    {
      InRun(NotPunct, t, i, x - 1);
    }
  }

  lemma SentenceLost(t: Text, i: nat)
    requires i < |t| && !IsPunct(t[i])
    requires var k := RunEnd(Punct, t, RunEnd(NotPunct, t, i));
             k < |t| && RunEnd(Space, t, k) == k
    ensures !LosslessFrom(t, i)
  {
    var j := RunEnd(NotPunct, t, i);
    var k := RunEnd(Punct, t, j);
    InRun(Punct, t, j, k - 1);
    assert !LosslessAt(t, k);
  }

  lemma {:induction false} MatchedFrom(t: Text, i: nat)
    requires i <= |t|
    ensures forall m :: m in Scan(t, i) ==> i <= m.lo < m.hi <= |t|
    ensures |Matched(t, Scan(t, i))| <= |t| - i
    ensures Matched(t, Scan(t, i)) == t[i..] <==> LosslessFrom(t, i)
    decreases |t| - i
  {
    hide LosslessAt;
    ScanInside(t, i);
    if i >= |t| {
    } else {
      var j := RunEnd(NotPunct, t, i);
      var k := RunEnd(Punct, t, j);
      var m := RunEnd(Space, t, k);
      if IsPunct(t[i]) {
        MatchedFrom(t, i + 1);
      } else if j == |t| {
        assert Scan(t, i)[1..] == [];
        NothingLeftToLose(t, i);
      } else if m > k || k == |t| {
        MatchedFrom(t, m);
        LosslessStep(t, i);
        MatchedSentence(t, i, m);
      } else {
        MatchedFrom(t, k);
        SentenceLost(t, i);
      }
    }
  }

  lemma MatchedSentence(t: Text, i: nat, m: nat)
    requires i < m <= |t| && (forall x :: x in Scan(t, m) ==> x.lo <= x.hi <= |t|)
    requires Scan(t, i) == [Match(i, m)] + Scan(t, m)
    ensures forall x :: x in Scan(t, i) ==> x.lo <= x.hi <= |t|
    ensures Matched(t, Scan(t, i)) == t[i..m] + Matched(t, Scan(t, m))
    ensures Matched(t, Scan(t, i)) == t[i..] <==> Matched(t, Scan(t, m)) == t[m..]
  {
    assert Scan(t, i)[1..] == Scan(t, m);
    hide Scan;
    assert t[i..] == t[i..m] + t[m..];
    AppendCancels(t[i..m], Matched(t, Scan(t, m)), t[m..]);
  }

  lemma AppendCancels(a: Text, b: Text, c: Text)
    ensures a + b == a + c <==> b == c
  {
    if a + b == a + c {
      assert b == (a + b)[|a|..] == (a + c)[|a|..] == c;
    }
  }

  lemma LosslessStep(t: Text, i: nat)
    requires i < |t| && !IsPunct(t[i])
    requires var j := RunEnd(NotPunct, t, i);
             var k := RunEnd(Punct, t, j);
             j < |t| && (RunEnd(Space, t, k) > k || k == |t|)
    ensures var m := RunEnd(Space, t, RunEnd(Punct, t, RunEnd(NotPunct, t, i)));
            LosslessFrom(t, i) <==> LosslessFrom(t, m)
  {
    var j := RunEnd(NotPunct, t, i);
    var k := RunEnd(Punct, t, j);
    var m := RunEnd(Space, t, k);
    QuietBlock(t, i, j, k, m);
    if k < |t| {
      InRun(Punct, t, j, k - 1);
      assert LosslessAt(t, k) <==> m == |t| || !IsPunct(t[m]);
    }
  }

  lemma QuietBlock(t: Text, i: nat, j: nat, k: nat, m: nat)
    requires i < j < |t| && j == RunEnd(NotPunct, t, i) && k == RunEnd(Punct, t, j) && m == RunEnd(Space, t, k)
    ensures forall x :: i < x < |t| && x <= m && x != k ==> LosslessAt(t, x)
  {
    forall x | i < x < |t| && x <= m && x != k
      ensures LosslessAt(t, x)
    {
      if x <= j {
        InRun(NotPunct, t, i, x - 1);
      }
      QuietInside(t, j, k, m, x);
    }
  }

  /** Inside a sentence only the end of its punctuation can lose anything. */
  lemma QuietInside(t: Text, j: nat, k: nat, m: nat, x: nat)
    requires 0 < x < |t| && x <= m && j <= k <= m <= |t| && x != k
    requires k == RunEnd(Punct, t, j) && m == RunEnd(Space, t, k)
    requires x <= j ==> Has(NotPunct, t[x - 1])
    ensures LosslessAt(t, x)
  {
    if j < x < k {
      InRun(Punct, t, j, x);
    } else if k < x {
      InRun(Space, t, k, x - 1);
    }
  }

  /** The expression keeps every byte of a text exactly when the text starts with no punctuation and every run of
      punctuation is followed by the end, or by blanks that lead to the end or to a non-punctuation character. */
  lemma LosslessIff(t: Text)
    ensures forall m :: m in FindAll(SENTENCE, t, 0) ==> m.lo < m.hi <= |t|
    ensures Matched(t, FindAll(SENTENCE, t, 0)) == t <==> LosslessFrom(t, 0)
  {
    ScanIsFindAll(t, 0);
    MatchedFrom(t, 0);
    assert t[0..] == t;
  }

  lemma ScanInnerPunctuation(t: Text)
    requires t == [97, 46, 98]
    ensures Scan(t, 0) == [Match(2, 3)]
  {
    assert RunEnd(NotPunct, t, 1) == 1 && RunEnd(Punct, t, 2) == 2;
    assert RunEnd(Space, t, 2) == 2 && RunEnd(NotPunct, t, 3) == 3;
    assert Scan(t, 0) == Scan(t, 2);
  }

  /** "a.b" loses its first two bytes. */
  lemma InnerPunctuationIsLost(t: Text)
    requires t == [97, 46, 98]
    ensures FindAll(SENTENCE, t, 0) == [Match(2, 3)] && Matched(t, [Match(2, 3)]) == [98]
  {
    hide Ends;
    ScanInnerPunctuation(t);
    hide Scan, RunEnd;
    ScanIsFindAll(t, 0);
    hide FindAll;
    assert [Match(2, 3)][1..] == [];
  }

  // ---------------------------------------------------------------- in bytes

  /** Which two bytes between letters end a sentence: a full stop, exclamation or question mark, and then a tab, newline,
      form feed, carriage return or space. */
  lemma SentenceBreakIff(b: Byte, c: Byte)
    ensures FindAll(SENTENCE, [97, b, c, 98], 0) == [Match(0, 3), Match(3, 4)]
            <==> (b as int == '.' as int || b as int == '!' as int || b as int == '?' as int)
                 && (c == 9 || c == 10 || c == 12 || c == 13 || c == 32)
  {
    var t: Text := [97, b, c, 98];
    ScanIsFindAll(t, 0);
    hide FindAll;
    LastLetter(t);
    SentenceBreakScanned(t);
  }

  lemma LastLetter(t: Text)
    requires |t| == 4 && t[3] == 98
    ensures RunEnd(NotPunct, t, 3) == 4 && RunEnd(Punct, t, 3) == 3 && RunEnd(Space, t, 3) == 3
    ensures Scan(t, 3) == [Match(3, 4)]
  {
    assert RunEnd(NotPunct, t, 4) == 4;
  }

  lemma SentenceBreakScanned(t: Text)
    requires |t| == 4 && t[0] == 97 && t[3] == 98
    requires RunEnd(NotPunct, t, 3) == 4 && RunEnd(Punct, t, 3) == 3 && RunEnd(Space, t, 3) == 3
    requires Scan(t, 3) == [Match(3, 4)]
    ensures Scan(t, 0) == [Match(0, 3), Match(3, 4)] <==> IsPunct(t[1]) && IsSpace(t[2])
  {
    if IsPunct(t[1]) {
      assert RunEnd(NotPunct, t, 1) == 1 && RunEnd(NotPunct, t, 0) == 1;
      assert RunEnd(Punct, t, 1) == RunEnd(Punct, t, 2) == if IsPunct(t[2]) then 3 else 2;
      assert RunEnd(Space, t, 2) == if IsSpace(t[2]) then 3 else 2;
      if IsPunct(t[2]) {
        assert Scan(t, 0) == Scan(t, 3);
      } else if IsSpace(t[2]) {
        assert Scan(t, 0) == [Match(0, 3)] + Scan(t, 3);
      } else {
        assert Scan(t, 0) == Scan(t, 2);
        ScanInside(t, 2);
        assert Scan(t, 2) != [] ==> Scan(t, 2)[0] in Scan(t, 2);
      }
    } else {
      assert RunEnd(NotPunct, t, 0) == RunEnd(NotPunct, t, 1) == RunEnd(NotPunct, t, 2);
      assert RunEnd(NotPunct, t, 2) == if IsPunct(t[2]) then 2 else 4;
      if IsPunct(t[2]) {
        assert RunEnd(Punct, t, 2) == 3;
        assert Scan(t, 0) == Scan(t, 3);
      } else {
        assert Scan(t, 0) == [Match(0, 4)];
      }
    }
  }

  lemma {:induction false} NothingScannedIff(t: Text, i: nat)
    requires i <= |t|
    ensures Scan(t, i) == [] <==> forall x :: i <= x < |t| ==> IsPunct(t[x])
    decreases |t| - i
  {
    if i == |t| {
    } else {
      var j := RunEnd(NotPunct, t, i);
      var k := RunEnd(Punct, t, j);
      if IsPunct(t[i]) {
        NothingScannedIff(t, i + 1);
      } else if j < |t| && k < |t| && RunEnd(Space, t, k) == k {
        NothingScannedIff(t, k);
      }
    }
  }

  /** No sentence is found exactly when there is nothing but punctuation. */
  lemma NoMatchIff(t: Text)
    ensures FindAll(SENTENCE, t, 0) == [] <==> forall x :: 0 <= x < |t| ==> IsPunct(t[x])
  {
    ScanIsFindAll(t, 0);
    NothingScannedIff(t, 0);
  }

  // ---------------------------------------------------------------- where the matches are

  /** Matches do not overlap, and come from left to right. */
  ghost predicate InOrder(ms: seq<Match>, from: nat, len: nat) {
    && (forall k :: 0 <= k < |ms| ==> from <= ms[k].lo < ms[k].hi <= len)
    && (forall j, k :: 0 <= j < k < |ms| ==> ms[j].hi <= ms[k].lo)
  }

  lemma InOrderCons(m: Match, rest: seq<Match>, from: nat, len: nat)
    requires from <= m.lo < m.hi <= len && InOrder(rest, m.hi, len)
    ensures InOrder([m] + rest, from, len)
  {
  }

  lemma InOrderEarlier(ms: seq<Match>, from: nat, later: nat, len: nat)
    requires from <= later && InOrder(ms, later, len)
    ensures InOrder(ms, from, len)
  {
  }

  lemma {:induction false} ScanInOrder(t: Text, i: nat)
    ensures InOrder(Scan(t, i), i, |t|)
    decreases |t| - i
  {
    if i >= |t| {
    } else {
      var j := RunEnd(NotPunct, t, i);
      var k := RunEnd(Punct, t, j);
      var m := RunEnd(Space, t, k);
      if IsPunct(t[i]) {
        ScanInOrder(t, i + 1);
        InOrderEarlier(Scan(t, i + 1), i, i + 1, |t|);
      } else if j < |t| {
        hide InOrder;
        if m > k || k == |t| {
          ScanInOrder(t, m);
          InOrderCons(Match(i, m), Scan(t, m), i, |t|);
        } else {
          ScanInOrder(t, k);
          InOrderEarlier(Scan(t, k), i, k, |t|);
        }
      }
    }
  }

  ghost predicate InMatch(ms: seq<Match>, x: nat) {
    exists k :: 0 <= k < |ms| && ms[k].lo <= x < ms[k].hi
  }

  /** Where nothing is lost every byte is in a match. */
  lemma {:induction false} LosslessIsMatched(t: Text, i: nat, x: nat)
    requires i <= x < |t| && LosslessFrom(t, i)
    ensures InMatch(Scan(t, i), x)
    decreases |t| - i
  {
    hide LosslessFrom, LosslessAt, InMatch;
    LosslessStarts(t, i);
    var j := RunEnd(NotPunct, t, i);
    var k := RunEnd(Punct, t, j);
    var m := RunEnd(Space, t, k);
    if j == |t| {
      InOne(Match(i, j), x);
    } else {
      if m == k && k < |t| {
        SentenceLost(t, i);
      }
      InOne(Match(i, m), x);
      InMatchAppend([Match(i, m)], Scan(t, m), x);
      if m <= x {
        LosslessStep(t, i);
        LosslessIsMatched(t, m, x);
      }
    }
  }

  lemma LosslessStarts(t: Text, i: nat)
    requires i < |t| && LosslessFrom(t, i)
    ensures !IsPunct(t[i])
  {
  }

  lemma InMatchAppend(a: seq<Match>, b: seq<Match>, x: nat)
    ensures InMatch(a + b, x) <==> InMatch(a, x) || InMatch(b, x)
  {
    if k :| 0 <= k < |a| && a[k].lo <= x < a[k].hi {
      assert (a + b)[k] == a[k];
    }
    if k :| 0 <= k < |b| && b[k].lo <= x < b[k].hi {
      assert (a + b)[|a| + k] == b[k];
    }
  }

  lemma InOne(m: Match, x: nat)
    ensures InMatch([m], x) <==> m.lo <= x < m.hi
  {
    assert [m][0] == m;
  }
}
