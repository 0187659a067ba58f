/**
  Batch insert serialises its documents in one goroutine each when there are 32 or more of them. The
  goroutines share a pool of string builders. A string built without a copy is a view of its builder's
  buffer, so what has to be shown is that reusing the builder cannot change it.

  A state gives every goroutine its program counter. A step moves one goroutine, lets the garbage collector
  take an idle builder, or is a step of some other request: searches, upserts and other batches print their
  vectors with builders from the same pool, before and during this batch. A schedule is any sequence of
  enabled steps since the process started.
 */
module SerializerPool {
  import opened Wrappers
  import opened Sequences
  import VectorCodec

  datatype Doc<F, M> = Doc(vector: seq<F>, metadata: M)

  /** The documents, and the two serialisers as functions; `marshal` gives the JSON text or the error. */
  datatype Job<!F(!new), !M, J> = Job(codec: VectorCodec.Codec<F>, marshal: M -> J, docs: seq<Doc<F, M>>)

  datatype Slot<J> = Slot(vectorStr: string, metadataJson: J)

  function Serialised<F(!new), M, J>(job: Job<F, M, J>, i: nat): Slot<J>
    requires i < |job.docs|
  {
    Slot(VectorCodec.Printed(job.codec, job.docs[i].vector), job.marshal(job.docs[i].metadata))
  }

  /** What the sequential branch computes for fewer than 32 documents. */
  method PrepareInline<F(!new), M, J>(job: Job<F, M, J>) returns (prepped: seq<Slot<J>>)
    ensures |prepped| == |job.docs|
    ensures forall i :: 0 <= i < |prepped| ==> prepped[i] == Serialised(job, i)
  {
    prepped := [];
    for i := 0 to |job.docs|
      invariant |prepped| == i
      invariant forall k :: 0 <= k < i ==> prepped[k] == Serialised(job, k)
    {
      var vectorStr := VectorCodec.VectorToString(job.codec, job.docs[i].vector);
      prepped := prepped + [Slot(vectorStr, job.marshal(job.docs[i].metadata))];
    }
  }

  // ---------------------------------------------------------------- what is written, piece by piece

  function Elements<F(!new)>(c: VectorCodec.Codec<F>, vec: seq<F>, i: nat): (pieces: seq<string>)
    requires i <= |vec|
    decreases |vec| - i
  {
    if i == |vec| then []
    else (if i > 0 then [","] else []) + [c.format(vec[i])] + Elements(c, vec, i + 1)
  }

  /** The arguments of the builder's write calls, in order. */
  function Pieces<F(!new)>(c: VectorCodec.Codec<F>, vec: seq<F>): seq<string> {
    ["["] + Elements(c, vec, 0) + ["]"]
  }

  function Concat(pieces: seq<string>): string {
    if pieces == [] then "" else Concat(pieces[..|pieces| - 1]) + pieces[|pieces| - 1]
  }

  lemma {:induction false} ConcatAppend(a: seq<string>, b: seq<string>)
    ensures Concat(a + b) == Concat(a) + Concat(b)
  {
    if b == [] {
      assert a + b == a;
    } else {
      var n := |b| - 1;
      ConcatAppend(a, b[..n]);
      assert (a + b)[..|a + b| - 1] == a + b[..n];
    }
  }

  lemma ConcatOne(s: string)
    ensures Concat([s]) == s
  {
    assert [s][..0] == [] && Concat([s][..0]) == "";
  }

  lemma {:induction false} ElementsJoin<F(!new)>(c: VectorCodec.Codec<F>, vec: seq<F>, i: nat)
    requires i <= |vec|
    ensures Concat(Elements(c, vec, i))
            == (if 0 < i < |vec| then "," else "") + Join(VectorCodec.Formatted(c, vec)[i..], ",")
    decreases |vec| - i
  {
    var parts := VectorCodec.Formatted(c, vec);
    if i < |vec| {
      var comma: seq<string>, one := if i > 0 then [","] else [], [c.format(vec[i])];
      ElementsJoin(c, vec, i + 1);
      ConcatAppend(comma + one, Elements(c, vec, i + 1));
      ConcatAppend(comma, one);
      ConcatOne(",");
      ConcatOne(c.format(vec[i]));
      assert parts[i..] == [parts[i]] + parts[i + 1..];
      if i + 1 < |vec| {
        JoinAppend([parts[i]], parts[i + 1..], ",");
      } else {
        assert parts[i + 1..] == [] && parts[i..] == [parts[i]];
      }
    } else {
      assert parts[i..] == [];
    }
  }

  /** The writes add up to the printed vector. */
  lemma PiecesMakeThePrintedVector<F(!new)>(c: VectorCodec.Codec<F>, vec: seq<F>)
    ensures Concat(Pieces(c, vec)) == VectorCodec.Printed(c, vec)
  {
    ElementsJoin(c, vec, 0);
    ConcatOne("[");
    ConcatOne("]");
    ConcatAppend(["["], Elements(c, vec, 0));
    ConcatAppend(["["] + Elements(c, vec, 0), ["]"]);
    assert VectorCodec.Formatted(c, vec)[0..] == VectorCodec.Formatted(c, vec);
  }

  // ---------------------------------------------------------------- the shared memory

  type BuilderId = nat
  type BufferId = nat

  /** A string that shares its bytes with a buffer. */
  datatype View = View(buffer: BufferId, len: nat)

  datatype Pc =
    | Start
    | Got(b: BuilderId)                    // builder taken from the pool, old buffer still attached
    | Clean(b: BuilderId)                  // after Reset: no buffer attached
    | Writing(b: BuilderId, done: nat)     // after Grow: `done` pieces written
    | Built(b: BuilderId, view: View)      // after String: builder not yet given back
    | Returned(view: View)                 // after Put: the string is in its slot
    | Finished(view: View)                 // metadata marshalled, wg.Done called

  /** `attached` gives each builder its buffer; `heap` gives each buffer the bytes written to it; `lent` are the
      builders other requests hold. */
  datatype State<J> = State(
    pcs: seq<Pc>,
    attached: map<BuilderId, Option<BufferId>>,
    heap: map<BufferId, string>,
    pool: multiset<BuilderId>,
    lent: set<BuilderId>,
    metas: map<nat, J>)

  datatype Step =
    | GetPooled(w: nat, b: BuilderId)
    | GetNew(w: nat, b: BuilderId)
    | Reset(w: nat)
    | Grow(w: nat, spare: BufferId)
    | WriteInPlace(w: nat)
    | WriteMoved(w: nat, spare: BufferId)  // the buffer was too small: its bytes move to a larger one
    | ToStr(w: nat)
    | Put(w: nat)
    | Marshal(w: nat)
    | Collect(b: BuilderId)
    | OtherGets(b: BuilderId)
    | OtherResets(b: BuilderId)
    | OtherGrows(b: BuilderId, spare: BufferId)
    | OtherWrites(b: BuilderId, text: string)
    | OtherMoves(b: BuilderId, spare: BufferId)
    | OtherPuts(b: BuilderId)
  {
    /** Not a step of one of the batch's goroutines. */
    predicate Outside() {
      Collect? || OtherGets? || OtherResets? || OtherGrows? || OtherWrites? || OtherMoves? || OtherPuts?
    }
  }

  function Init<F(!new), M, J>(job: Job<F, M, J>): State<J> {
    State(seq(|job.docs|, _ => Start), map[], map[], multiset{}, {}, map[])
  }

  function JobPieces<F(!new), M, J>(job: Job<F, M, J>, w: nat): seq<string>
    requires w < |job.docs|
  {
    Pieces(job.codec, job.docs[w].vector)
  }

  /** The builder a goroutine holds. */
  function Holder(pc: Pc): Option<BuilderId> {
    if pc.Got? || pc.Clean? || pc.Writing? || pc.Built? then Some(pc.b) else None
  }

  function Holders<J>(s: State<J>): (hs: seq<Option<BuilderId>>)
    ensures |hs| == |s.pcs|
    ensures forall w :: 0 <= w < |hs| ==> hs[w] == Holder(s.pcs[w])
  {
    seq(|s.pcs|, w requires 0 <= w < |s.pcs| => Holder(s.pcs[w]))
  }

  predicate HasView(pc: Pc) {
    pc.Built? || pc.Returned? || pc.Finished?
  }

  /** The builder of goroutine `w` has a buffer it may write to. */
  predicate Attached<J>(s: State<J>, b: BuilderId) {
    b in s.attached && s.attached[b].Some? && s.attached[b].value in s.heap
  }

  predicate Enabled<F(!new), M, J>(job: Job<F, M, J>, s: State<J>, step: Step) {
    && |s.pcs| == |job.docs|
    && (step.Outside() || step.w < |s.pcs|)
    && match step
       case GetPooled(w, b) => s.pcs[w].Start? && b in s.pool
       case GetNew(w, b) => s.pcs[w].Start? && b !in s.attached
       case Reset(w) => s.pcs[w].Got?
       case Grow(w, spare) => s.pcs[w].Clean? && s.pcs[w].b in s.attached && spare !in s.heap
       case WriteInPlace(w) =>
         s.pcs[w].Writing? && s.pcs[w].done < |JobPieces(job, w)| && Attached(s, s.pcs[w].b)
       case WriteMoved(w, spare) =>
         s.pcs[w].Writing? && s.pcs[w].done < |JobPieces(job, w)| && Attached(s, s.pcs[w].b) && spare !in s.heap
       case ToStr(w) => s.pcs[w].Writing? && s.pcs[w].done == |JobPieces(job, w)| && Attached(s, s.pcs[w].b)
       case Put(w) => s.pcs[w].Built?
       case Marshal(w) => s.pcs[w].Returned?
       case Collect(b) => b in s.pool
       case OtherGets(b) => b in s.pool || b !in s.attached
       case OtherResets(b) => b in s.lent
       case OtherGrows(b, spare) => b in s.lent && b in s.attached && spare !in s.heap
       case OtherWrites(b, _) => b in s.lent && Attached(s, b)
       case OtherMoves(b, spare) => b in s.lent && Attached(s, b) && spare !in s.heap
       case OtherPuts(b) => b in s.lent
  }

  function Apply<F(!new), M, J>(job: Job<F, M, J>, s: State<J>, step: Step): (t: State<J>)
    requires Enabled(job, s, step)
    ensures |t.pcs| == |job.docs|
  {
    match step
    case GetPooled(w, b) => s.(pcs := s.pcs[w := Got(b)], pool := s.pool - multiset{b})
    case GetNew(w, b) => s.(pcs := s.pcs[w := Got(b)], attached := s.attached[b := None])
    case Reset(w) =>
      var b := s.pcs[w].b;
      s.(pcs := s.pcs[w := Clean(b)], attached := s.attached[b := None])
    case Grow(w, spare) =>
      var b := s.pcs[w].b;
      // only a builder without a buffer gets a new one
      if s.attached[b].Some? then s.(pcs := s.pcs[w := Writing(b, 0)])
      else s.(pcs := s.pcs[w := Writing(b, 0)], attached := s.attached[b := Some(spare)], heap := s.heap[spare := ""])
    case WriteInPlace(w) =>
      var Writing(b, done) := s.pcs[w];
      var k := s.attached[b].value;
      s.(pcs := s.pcs[w := Writing(b, done + 1)], heap := s.heap[k := s.heap[k] + JobPieces(job, w)[done]])
    case WriteMoved(w, spare) =>
      var Writing(b, done) := s.pcs[w];
      var k := s.attached[b].value;
      s.(pcs := s.pcs[w := Writing(b, done + 1)], attached := s.attached[b := Some(spare)],
         heap := s.heap[spare := s.heap[k] + JobPieces(job, w)[done]])
    case ToStr(w) =>
      var b := s.pcs[w].b;
      var k := s.attached[b].value;
      s.(pcs := s.pcs[w := Built(b, View(k, |s.heap[k]|))])
    case Put(w) =>
      var Built(b, view) := s.pcs[w];
      s.(pcs := s.pcs[w := Returned(view)], pool := s.pool + multiset{b})
    case Marshal(w) =>
      s.(pcs := s.pcs[w := Finished(s.pcs[w].view)], metas := s.metas[w := job.marshal(job.docs[w].metadata)])
    case Collect(b) => s.(pool := s.pool - multiset{b})
    case OtherGets(b) =>
      if b in s.pool then s.(lent := s.lent + {b}, pool := s.pool - multiset{b})
      else s.(lent := s.lent + {b}, attached := s.attached[b := None])
    case OtherResets(b) => s.(attached := s.attached[b := None])
    case OtherGrows(b, spare) =>
      if s.attached[b].Some? then s
      else s.(attached := s.attached[b := Some(spare)], heap := s.heap[spare := ""])
    case OtherWrites(b, text) =>
      var k := s.attached[b].value;
      s.(heap := s.heap[k := s.heap[k] + text])
    case OtherMoves(b, spare) =>
      s.(attached := s.attached[b := Some(spare)], heap := s.heap[spare := s.heap[s.attached[b].value]])
    case OtherPuts(b) => s.(lent := s.lent - {b}, pool := s.pool + multiset{b})
  }

  /** The state a schedule leads to, if each of its steps is enabled when its turn comes. */
  function Run<F(!new), M, J>(job: Job<F, M, J>, schedule: seq<Step>): (r: Option<State<J>>)
    ensures r.Some? ==> |r.value.pcs| == |job.docs|
  {
    if schedule == [] then Some(Init(job))
    else
      var n := |schedule| - 1;
      match Run(job, schedule[..n])
      case None => None
      case Some(s) => if Enabled(job, s, schedule[n]) then Some(Apply(job, s, schedule[n])) else None
  }

  /** The bytes a view shows now. */
  function Deref<J>(s: State<J>, v: View): string {
    if v.buffer in s.heap && v.len <= |s.heap[v.buffer]| then s.heap[v.buffer][..v.len] else ""
  }

  // ---------------------------------------------------------------- the invariant

  /** A builder is idle in the pool at most once, or lent to another request, or held by at most one goroutine,
      never two of these. */
  ghost predicate Exclusive(holders: seq<Option<BuilderId>>, lent: set<BuilderId>, known: set<BuilderId>,
                            pool: multiset<BuilderId>) {
    && (forall b :: b in pool ==> b in known && pool[b] == 1)
    && (forall b :: b in lent ==> b in known && b !in pool)
    && (forall w :: 0 <= w < |holders| && holders[w].Some? ==>
          holders[w].value in known && holders[w].value !in pool && holders[w].value !in lent)
    && (forall v, w :: 0 <= v < |holders| && 0 <= w < |holders| && holders[v].Some? && holders[v] == holders[w] ==> v == w)
  }

  /** No two builders share a buffer. */
  ghost predicate Unshared(attached: map<BuilderId, Option<BufferId>>, heap: map<BufferId, string>) {
    && (forall b :: b in attached && attached[b].Some? ==> attached[b].value in heap)
    && (forall b, c :: b in attached && c in attached && attached[b].Some? && attached[b] == attached[c] ==> b == c)
  }

  /** How far goroutine `w` has got, in terms of bytes. */
  ghost predicate Progress<F(!new), M, J>(job: Job<F, M, J>, s: State<J>, w: nat)
    requires w < |s.pcs| == |job.docs|
  {
    var pc := s.pcs[w];
    && (pc.Clean? ==> pc.b in s.attached && s.attached[pc.b] == None)
    && (pc.Writing? ==> Attached(s, pc.b) && pc.done <= |JobPieces(job, w)|
                        && s.heap[s.attached[pc.b].value] == Concat(JobPieces(job, w)[..pc.done]))
    && (HasView(pc) ==> pc.view.buffer in s.heap && pc.view.len <= |s.heap[pc.view.buffer]|
                        && s.heap[pc.view.buffer][..pc.view.len] == Serialised(job, w).vectorStr)
    && (pc.Finished? ==> w in s.metas && s.metas[w] == Serialised(job, w).metadataJson)
  }

  ghost predicate Inv<F(!new), M, J>(job: Job<F, M, J>, s: State<J>) {
    && |s.pcs| == |job.docs|
    && Exclusive(Holders(s), s.lent, s.attached.Keys, s.pool)
    && Unshared(s.attached, s.heap)
    && forall w :: 0 <= w < |s.pcs| ==> Progress(job, s, w)
  }

  lemma PoolTake(hs: seq<Option<BuilderId>>, lent: set<BuilderId>, known: set<BuilderId>, pool: multiset<BuilderId>,
                 w: nat, b: BuilderId)
    requires Exclusive(hs, lent, known, pool) && w < |hs| && hs[w] == None
    ensures b in pool ==> Exclusive(hs[w := Some(b)], lent, known, pool - multiset{b})
    ensures b !in known ==> Exclusive(hs[w := Some(b)], lent, known + {b}, pool)
  {
  }

  lemma PoolGive(hs: seq<Option<BuilderId>>, lent: set<BuilderId>, known: set<BuilderId>, pool: multiset<BuilderId>,
                 w: nat, b: BuilderId)
    requires Exclusive(hs, lent, known, pool)
    ensures w < |hs| && hs[w] == Some(b) ==> Exclusive(hs[w := None], lent, known, pool + multiset{b})
    ensures b in pool ==> Exclusive(hs, lent, known, pool - multiset{b})
  {
  }

  lemma PoolLend(hs: seq<Option<BuilderId>>, lent: set<BuilderId>, known: set<BuilderId>, pool: multiset<BuilderId>,
                 b: BuilderId)
    requires Exclusive(hs, lent, known, pool)
    ensures b in pool ==> Exclusive(hs, lent + {b}, known, pool - multiset{b})
    ensures b !in known ==> Exclusive(hs, lent + {b}, known + {b}, pool)
    ensures b in lent ==> Exclusive(hs, lent - {b}, known, pool + multiset{b})
  {
  }

  lemma HoldersStay<F(!new), M, J>(job: Job<F, M, J>, s: State<J>, step: Step)
    requires Enabled(job, s, step) && !step.GetPooled? && !step.GetNew? && !step.Put?
    ensures Holders(Apply(job, s, step)) == Holders(s)
  {
    hide JobPieces;
    var t := Apply(job, s, step);
    assert forall w :: 0 <= w < |s.pcs| ==> Holders(t)[w] == Holders(s)[w];
  }

  /** Every other step keeps who holds what. */
  lemma HoldersKept<F(!new), M, J>(job: Job<F, M, J>, s: State<J>, step: Step)
    requires Exclusive(Holders(s), s.lent, s.attached.Keys, s.pool) && Enabled(job, s, step)
    requires !step.GetPooled? && !step.GetNew? && !step.OtherGets? && !step.Put?
    ensures var t := Apply(job, s, step);
            Holders(t) == Holders(s) && t.attached.Keys == s.attached.Keys
  {
    hide JobPieces;
    HoldersStay(job, s, step);
    assert step.Reset? ==> Holders(s)[step.w] == Some(s.pcs[step.w].b);
  }

  lemma ExclusiveKept<F(!new), M, J>(job: Job<F, M, J>, s: State<J>, step: Step)
    requires Exclusive(Holders(s), s.lent, s.attached.Keys, s.pool) && Enabled(job, s, step)
    ensures var t := Apply(job, s, step);
            Exclusive(Holders(t), t.lent, t.attached.Keys, t.pool)
  {
    hide Exclusive, JobPieces;
    if step.Outside() {
      OutsideKeepsExclusive(job, s, step);
    } else {
      var t := Apply(job, s, step);
      var hs, known := Holders(s), s.attached.Keys;
      match step
      case GetPooled(w, b) =>
        PoolTake(hs, s.lent, known, s.pool, w, b);
        assert Holders(t) == hs[w := Some(b)];
      case GetNew(w, b) =>
        PoolTake(hs, s.lent, known, s.pool, w, b);
        assert Holders(t) == hs[w := Some(b)] && t.attached.Keys == known + {b};
      case Put(w) =>
        PoolGive(hs, s.lent, known, s.pool, w, s.pcs[w].b);
        assert Holders(t) == hs[w := None];
      case _ =>
        HoldersKept(job, s, step);
    }
  }

  lemma OutsideKeepsExclusive<F(!new), M, J>(job: Job<F, M, J>, s: State<J>, step: Step)
    requires Exclusive(Holders(s), s.lent, s.attached.Keys, s.pool) && Enabled(job, s, step) && step.Outside()
    ensures var t := Apply(job, s, step);
            Exclusive(Holders(t), t.lent, t.attached.Keys, t.pool)
  {
    hide Exclusive, JobPieces;
    var t := Apply(job, s, step);
    var hs, known := Holders(s), s.attached.Keys;
    assert Holders(t) == hs;
    match step
    case Collect(b) => PoolGive(hs, s.lent, known, s.pool, 0, b);
    case OtherGets(b) =>
      PoolLend(hs, s.lent, known, s.pool, b);
      assert b !in s.pool ==> t.attached.Keys == known + {b};
    case OtherPuts(b) => PoolLend(hs, s.lent, known, s.pool, b);
    case _ => HoldersKept(job, s, step);
  }

  lemma UnsharedKept<F(!new), M, J>(job: Job<F, M, J>, s: State<J>, step: Step)
    requires Unshared(s.attached, s.heap) && Enabled(job, s, step)
    ensures Unshared(Apply(job, s, step).attached, Apply(job, s, step).heap)
  {
  }

  /** Buffers are only ever appended to, and only by the goroutine or request that holds their builder. */
  lemma HeapGrows<F(!new), M, J>(job: Job<F, M, J>, s: State<J>, step: Step, k: BufferId)
    requires Enabled(job, s, step) && k in s.heap
    ensures var t := Apply(job, s, step);
            && k in t.heap && s.heap[k] <= t.heap[k]
            && (t.heap[k] != s.heap[k] ==>
                  || (step.WriteInPlace? && s.attached[s.pcs[step.w].b] == Some(k))
                  || (step.OtherWrites? && s.attached[step.b] == Some(k)))
  {
  }

  /** No step attaches a buffer to a builder that somebody else holds. */
  lemma OthersAttached<F(!new), M, J>(job: Job<F, M, J>, s: State<J>, step: Step, v: nat)
    requires Exclusive(Holders(s), s.lent, s.attached.Keys, s.pool) && Enabled(job, s, step)
    requires v < |s.pcs| && (step.Outside() || step.w != v) && Holder(s.pcs[v]).Some?
    ensures var t, b := Apply(job, s, step), Holder(s.pcs[v]).value;
            b in s.attached && b in t.attached && t.attached[b] == s.attached[b]
  {
    hide JobPieces;
    assert Holders(s)[v] == Holder(s.pcs[v]);
    if !step.Outside() {
      assert Holders(s)[step.w] != Holders(s)[v];
    }
  }

  /** A step of one goroutine leaves the builder of another alone. */
  lemma OthersUntouched<F(!new), M, J>(job: Job<F, M, J>, s: State<J>, step: Step, v: nat)
    requires Inv(job, s) && Enabled(job, s, step) && v < |s.pcs| && (step.Outside() || step.w != v)
    requires s.pcs[v].Writing?
    ensures var t, b := Apply(job, s, step), s.pcs[v].b;
            Attached(t, b) && t.attached[b] == s.attached[b]
            && t.heap[t.attached[b].value] == s.heap[s.attached[b].value]
  {
    var b := s.pcs[v].b;
    assert Progress(job, s, v) && Holders(s)[v] == Some(b);
    OthersAttached(job, s, step, v);
    HeapGrows(job, s, step, s.attached[b].value);
    if !step.Outside() {
      assert Holders(s)[step.w] != Some(b);
    }
  }

  lemma OnlyOneMoves<F(!new), M, J>(job: Job<F, M, J>, s: State<J>, step: Step, v: nat)
    requires Enabled(job, s, step) && v < |s.pcs| && (step.Outside() || step.w != v)
    ensures var t := Apply(job, s, step);
            t.pcs[v] == s.pcs[v] && (v in s.metas ==> v in t.metas && t.metas[v] == s.metas[v])
  {
  }

  lemma ProgressKept<F(!new), M, J>(job: Job<F, M, J>, s: State<J>, step: Step, v: nat)
    requires Inv(job, s) && Enabled(job, s, step) && v < |s.pcs|
    ensures Progress(job, Apply(job, s, step), v)
  {
    hide Apply, Enabled, Exclusive, Unshared, JobPieces, Serialised;
    assert Progress(job, s, v);
    if step.Outside() || step.w != v {
      OnlyOneMoves(job, s, step, v);
      if HasView(s.pcs[v]) {
        HeapGrows(job, s, step, s.pcs[v].view.buffer);
      }
      if s.pcs[v].Clean? {
        OthersAttached(job, s, step, v);
      }
      if s.pcs[v].Writing? {
        OthersUntouched(job, s, step, v);
      }
    } else {
      OwnProgress(job, s, step);
    }
  }

  lemma OwnProgress<F(!new), M, J>(job: Job<F, M, J>, s: State<J>, step: Step)
    requires |s.pcs| == |job.docs| && Enabled(job, s, step) && !step.Outside() && Progress(job, s, step.w)
    ensures Progress(job, Apply(job, s, step), step.w)
  {
    var pieces := JobPieces(job, step.w);
    match s.pcs[step.w]
    case Clean(_) => assert pieces[..0] == [];
    case Writing(b, done) =>
      if done < |pieces| {
        assert pieces[..done + 1][..done] == pieces[..done];
      } else {
        assert pieces[..done] == pieces;
        PiecesMakeThePrintedVector(job.codec, job.docs[step.w].vector);
      }
    case Returned(view) => assert view.buffer in s.heap;
    case Built(_, view) => assert view.buffer in s.heap;
    case _ =>
  }

  lemma InvKept<F(!new), M, J>(job: Job<F, M, J>, s: State<J>, step: Step)
    requires Inv(job, s) && Enabled(job, s, step)
    ensures Inv(job, Apply(job, s, step))
  {
    var t := Apply(job, s, step);
    hide Apply, Enabled, Exclusive, Unshared, Progress;
    ExclusiveKept(job, s, step);
    UnsharedKept(job, s, step);
    forall v | 0 <= v < |s.pcs|
      ensures Progress(job, t, v)
    {
      ProgressKept(job, s, step, v);
    }
  }

  lemma InitInv<F(!new), M, J>(job: Job<F, M, J>)
    ensures Inv(job, Init(job))
  {
  }

  lemma {:induction false} InvHolds<F(!new), M, J>(job: Job<F, M, J>, schedule: seq<Step>)
    requires Run(job, schedule).Some?
    ensures Inv(job, Run(job, schedule).value)
  {
    hide Apply, Enabled;
    if schedule == [] {
      InitInv(job);
    } else {
      hide Inv;
      var n := |schedule| - 1;
      InvHolds(job, schedule[..n]);
      InvKept(job, Run(job, schedule[..n]).value, schedule[n]);
    }
  }

  // ---------------------------------------------------------------- the results

  /** `wg.Wait` lets go when every goroutine has finished. */
  ghost predicate AllFinished<J>(s: State<J>) {
    forall w :: 0 <= w < |s.pcs| ==> s.pcs[w].Finished?
  }

  /** Goroutine `w` has filled its slot. */
  predicate Filled<J>(s: State<J>, w: nat) {
    w < |s.pcs| && HasView(s.pcs[w]) && w in s.metas
  }

  function SlotOf<J>(s: State<J>, w: nat): Slot<J>
    requires Filled(s, w)
  {
    Slot(Deref(s, s.pcs[w].view), s.metas[w])
  }

  /** What the slots show once every goroutine has filled its own. */
  function Collected<J>(s: State<J>): (prepped: seq<Slot<J>>)
    requires forall w :: 0 <= w < |s.pcs| ==> Filled(s, w)
    ensures |prepped| == |s.pcs|
    ensures forall w :: 0 <= w < |s.pcs| ==> Filled(s, w) && prepped[w] == SlotOf(s, w)
  {
    seq(|s.pcs|, w requires 0 <= w < |s.pcs| && Filled(s, w) => SlotOf(s, w))
  }

  lemma FinishedSlot<F(!new), M, J>(job: Job<F, M, J>, s: State<J>, w: nat)
    requires |s.pcs| == |job.docs| && w < |s.pcs| && s.pcs[w].Finished? && Progress(job, s, w)
    ensures Filled(s, w) && SlotOf(s, w) == Serialised(job, w)
  {
  }

  /** Whatever the schedule, at `wg.Wait` the slots hold what the sequential branch computes. */
  lemma ParallelIsSequential<F(!new), M, J>(job: Job<F, M, J>, schedule: seq<Step>)
    requires Run(job, schedule).Some? && AllFinished(Run(job, schedule).value)
    ensures var s := Run(job, schedule).value;
            && |s.pcs| == |job.docs| && (forall w :: 0 <= w < |s.pcs| ==> Filled(s, w))
            && forall i :: 0 <= i < |job.docs| ==> Collected(s)[i] == Serialised(job, i)
  {
    hide Run, Serialised, SlotOf, Progress;
    InvHolds(job, schedule);
    var s := Run(job, schedule).value;
    forall w | 0 <= w < |job.docs|
      ensures Filled(s, w) && SlotOf(s, w) == Serialised(job, w)
    {
      FinishedSlot(job, s, w);
    }
  }

  /** In every reachable state a builder has at most one user, and is not at the same time in the pool. */
  lemma BuilderHasOneUser<F(!new), M, J>(job: Job<F, M, J>, schedule: seq<Step>, v: nat, w: nat, b: BuilderId)
    requires Run(job, schedule).Some? && v < |job.docs| && w < |job.docs|
    ensures var s := Run(job, schedule).value;
            && |s.pcs| == |job.docs| && s.pool[b] <= 1 && (b in s.lent ==> s.pool[b] == 0)
            && (Holder(s.pcs[v]) == Some(b) ==> s.pool[b] == 0 && b !in s.lent)
            && (Holder(s.pcs[v]) == Some(b) && Holder(s.pcs[w]) == Some(b) ==> v == w)
  {
    InvHolds(job, schedule);
    var s := Run(job, schedule).value;
    assert Holders(s)[v] == Holder(s.pcs[v]) && Holders(s)[w] == Holder(s.pcs[w]);
  }

  /** A string that has been returned never changes, whatever happens to the builder it came from. */
  lemma ReturnedStringsAreStable<F(!new), M, J>(job: Job<F, M, J>, schedule: seq<Step>, step: Step, w: nat)
    requires Run(job, schedule).Some? && Enabled(job, Run(job, schedule).value, step)
    requires w < |job.docs| && HasView(Run(job, schedule).value.pcs[w])
    ensures var s := Run(job, schedule).value;
            var t := Apply(job, s, step);
            HasView(t.pcs[w]) && t.pcs[w].view == s.pcs[w].view && Deref(t, s.pcs[w].view) == Deref(s, s.pcs[w].view)
  {
    hide Run, JobPieces, Serialised;
    InvHolds(job, schedule);
    var s := Run(job, schedule).value;
    assert Progress(job, s, w);
    HeapGrows(job, s, step, s.pcs[w].view.buffer);
  }

  lemma {:induction false} FreshExists(used: set<nat>) returns (k: nat)
    ensures forall x :: x in used ==> x < k
  {
    if used == {} {
      k := 0;
    } else {
      var x :| x in used;
      var j := FreshExists(used - {x});
      k := if x < j then j else x + 1;
      assert forall y :: y in used ==> y == x || y in used - {x};
    }
  }

  /** No schedule gets stuck before `wg.Wait`: an unfinished goroutine can always take its next step. */
  lemma NeverStuck<F(!new), M, J>(job: Job<F, M, J>, schedule: seq<Step>, w: nat) returns (step: Step)
    requires Run(job, schedule).Some? && w < |job.docs| && !Run(job, schedule).value.pcs[w].Finished?
    ensures Enabled(job, Run(job, schedule).value, step) && !step.Outside() && step.w == w
    ensures var s := Run(job, schedule).value;
            s.pcs[w].Start? ==> forall b :: b in s.pool ==> Enabled(job, s, GetPooled(w, b))
  {
    hide Run, Serialised, Exclusive, Unshared;
    InvHolds(job, schedule);
    var s := Run(job, schedule).value;
    var spare := FreshExists(s.heap.Keys + s.attached.Keys);
    assert Progress(job, s, w);
    assert spare !in s.heap && spare !in s.attached;
    match s.pcs[w]
    case Start => step := GetNew(w, spare);
    case Got(_) => step := Reset(w);
    case Clean(_) => step := Grow(w, spare);
    case Writing(_, done) => step := if done < |JobPieces(job, w)| then WriteInPlace(w) else ToStr(w);
    case Built(_, _) => step := Put(w);
    case Returned(_) => step := Marshal(w);
    case Finished(_) => assert false;
  }
}
