// struct slab (base/slab.c): equal slots cut from chunks, with a list of freed
// slots threaded through their first words.
module Slab {
  type Chunk = nat

  // The first chunk lies behind the struct itself; the others come one by one.
  datatype Home = Base | Extra(chunk: Chunk)

  datatype Slot = Slot(home: Home, index: nat)

  const HEADER: nat := 88      // sizeof(struct slab)
  const NEXT: nat := 8         // sizeof(struct next)

  // isize bytes a slot, nitem slots in every chunk but the first.
  datatype Shape = Shape(isize: nat, nitem: nat, first: nat)

  // chunks are the extra ones, newest first; pos slots of the newest chunk are
  // handed out; list are the freed slots, the last freed first.
  datatype State = State(shape: Shape, chunks: seq<Chunk>, pos: nat, list: seq<Slot>, live: set<Slot>)

  function Newest(chunks: seq<Chunk>): Home {
    if chunks == [] then Base else Extra(chunks[0])
  }

  function Capacity(shape: Shape, h: Home): nat {
    if h.Base? then shape.first else shape.nitem
  }

  predicate Known(chunks: seq<Chunk>, h: Home) {
    h.Base? || h.chunk in chunks
  }

  predicate NoDup<T(==)>(s: seq<T>) {
    forall i, j :: 0 <= i < j < |s| ==> s[i] != s[j]
  }

  // Slots that alloc has ever given.
  predicate HandedOut(st: State, s: Slot) {
    && Known(st.chunks, s.home)
    && s.index < if s.home == Newest(st.chunks) then st.pos else Capacity(st.shape, s.home)
  }

  // Slots of the chunks.
  predicate Owned(st: State, s: Slot) {
    Known(st.chunks, s.home) && s.index < Capacity(st.shape, s.home)
  }

  function Total(st: State): nat {
    st.shape.first + st.shape.nitem * |st.chunks|
  }

  // The live slots and the freed ones are apart and are all that is handed out;
  // together with the rest of the newest chunk they are all slots.
  ghost predicate Inv(st: State) {
    && st.shape.isize > 0 && st.shape.nitem > 0
    && NoDup(st.chunks) && NoDup(st.list)
    && st.pos <= Capacity(st.shape, Newest(st.chunks))
    && (forall s :: s in st.list ==> s !in st.live)
    && (forall s :: s in st.live || s in st.list <==> HandedOut(st, s))
    && |st.live| + |st.list| + (Capacity(st.shape, Newest(st.chunks)) - st.pos) == Total(st)
  }

  // slab_create gives nitem slots to the first chunk, slab_pool_alloc none.
  function Create(isize: nat, nitem: nat, first: nat): State {
    State(Shape(isize, nitem, first), [], 0, [], {})
  }

  lemma CreateInv(isize: nat, nitem: nat, first: nat)
    requires isize > 0 && nitem > 0
    ensures Inv(Create(isize, nitem, first))
  {
  }

  // slab_alloc; chunk is what the backing allocator gives if it is asked.
  function Alloc(st: State, chunk: Chunk): (State, Slot) {
    if st.list != [] then
      (st.(list := st.list[1..], live := st.live + {st.list[0]}), st.list[0])
    else if st.pos == Capacity(st.shape, Newest(st.chunks)) then
      var s := Slot(Extra(chunk), 0);
      (st.(chunks := [chunk] + st.chunks, pos := 1, live := st.live + {s}), s)
    else
      var s := Slot(Newest(st.chunks), st.pos);
      (st.(pos := st.pos + 1, live := st.live + {s}), s)
  }

  function Asks(st: State): bool {
    st.list == [] && st.pos == Capacity(st.shape, Newest(st.chunks))
  }

  // slab_dealloc
  function Dealloc(st: State, s: Slot): State {
    st.(list := [s] + st.list, live := st.live - {s})
  }

  // The slot given was not live: it is a freed one, or one never given before.
  lemma AllocInv(st: State, chunk: Chunk)
    requires Inv(st) && chunk !in st.chunks
    ensures var (st', s) := Alloc(st, chunk);
      Inv(st') && s !in st.live && st'.live == st.live + {s} && Owned(st', s)
  {
    var (st', s) := Alloc(st, chunk);
    if st.list != [] {
      AllocFreed(st);
    } else if Asks(st) {
      AllocChunk(st, chunk);
    } else {
      AllocBump(st);
    }
  }

  lemma AllocFreed(st: State)
    requires Inv(st) && st.list != []
    ensures Inv(st.(list := st.list[1..], live := st.live + {st.list[0]})) && Owned(st, st.list[0])
  {
    var s := st.list[0];
    var st' := st.(list := st.list[1..], live := st.live + {s});
    assert st.list == [s] + st.list[1..];
    forall x ensures x in st'.live || x in st'.list <==> HandedOut(st', x) {
      assert HandedOut(st', x) == HandedOut(st, x);
      assert x in st.list <==> x == s || x in st.list[1..];
    }
  }

  lemma AllocChunk(st: State, chunk: Chunk)
    requires Inv(st) && chunk !in st.chunks && Asks(st)
    ensures Inv(Alloc(st, chunk).0) && Slot(Extra(chunk), 0) !in st.live
  {
    var s := Slot(Extra(chunk), 0);
    var st' := Alloc(st, chunk).0;
    assert !HandedOut(st, s);
    forall x ensures x in st'.live || x in st'.list <==> HandedOut(st', x) {
      FullThenChunk(st, st', chunk, x);
      assert x in st.live <==> HandedOut(st, x);
    }
    NoDupCons(chunk, st.chunks);
    assert Total(st') == Total(st) + st.shape.nitem by { Distribute(st.shape.nitem, |st.chunks|); }
  }

  lemma NoDupCons<T>(x: T, s: seq<T>)
    requires NoDup(s) && x !in s
    ensures NoDup([x] + s)
  {
  }

  lemma Distribute(k: nat, n: nat)
    ensures k * (n + 1) == k * n + k
  {
  }

  // Behind a full chunk, a new one with one slot handed out.
  lemma FullThenChunk(st: State, st': State, chunk: Chunk, x: Slot)
    requires chunk !in st.chunks && st.pos == Capacity(st.shape, Newest(st.chunks))
    requires st'.shape == st.shape && st'.chunks == [chunk] + st.chunks && st'.pos == 1 && st.shape.nitem > 0
    ensures HandedOut(st', x) <==> HandedOut(st, x) || x == Slot(Extra(chunk), 0)
  {
    assert Known(st'.chunks, x.home) <==> Known(st.chunks, x.home) || x.home == Extra(chunk);
  }

  lemma AllocBump(st: State)
    requires Inv(st) && st.list == [] && st.pos < Capacity(st.shape, Newest(st.chunks))
    ensures Inv(Alloc(st, 0).0) && Slot(Newest(st.chunks), st.pos) !in st.live
  {
    var s := Slot(Newest(st.chunks), st.pos);
    var st' := Alloc(st, 0).0;
    assert !HandedOut(st, s);
    forall x ensures x in st'.live || x in st'.list <==> HandedOut(st', x) {
      assert HandedOut(st', x) <==> HandedOut(st, x) || x == s;
      assert x in st.live <==> HandedOut(st, x);
    }
  }

  lemma DeallocInv(st: State, s: Slot)
    requires Inv(st) && s in st.live
    ensures Inv(Dealloc(st, s))
  {
    var st' := Dealloc(st, s);
    forall x ensures x in st'.live || x in st'.list <==> HandedOut(st', x) {
      assert HandedOut(st', x) == HandedOut(st, x);
    }
  }

  // ---- runs -----------------------------------------------------------------

  datatype Op = AllocOp(chunk: Chunk) | DeallocOp(slot: Slot)

  // A caller may only give back what is live; the backing allocator only gives
  // chunks that are not in use.
  predicate Legal(st: State, op: Op) {
    match op
    case AllocOp(c) => c !in st.chunks
    case DeallocOp(s) => s in st.live
  }

  function Step(st: State, op: Op): State {
    match op
    case AllocOp(c) => Alloc(st, c).0
    case DeallocOp(s) => Dealloc(st, s)
  }

  predicate LegalRun(st: State, ops: seq<Op>)
    decreases |ops|
  {
    ops == [] || (Legal(st, ops[0]) && LegalRun(Step(st, ops[0]), ops[1..]))
  }

  function Run(st: State, ops: seq<Op>): State
    decreases |ops|
  {
    if ops == [] then st else Run(Step(st, ops[0]), ops[1..])
  }

  // The slots a run hands out, in order, and those it gives back.
  function Given(st: State, ops: seq<Op>): seq<Slot>
    decreases |ops|
  {
    if ops == [] then []
    else (if ops[0].AllocOp? then [Alloc(st, ops[0].chunk).1] else []) + Given(Step(st, ops[0]), ops[1..])
  }

  function Taken(ops: seq<Op>): seq<Slot> {
    if ops == [] then [] else (if ops[0].DeallocOp? then [ops[0].slot] else []) + Taken(ops[1..])
  }

  // One call, on how often s is live, handed out and given back.
  lemma StepCounts(st: State, op: Op, s: Slot)
    requires Inv(st) && Legal(st, op)
    ensures Inv(Step(st, op))
    ensures multiset(Step(st, op).live)[s] + (if op.DeallocOp? && op.slot == s then 1 else 0)
         == multiset(st.live)[s] + (if op.AllocOp? && Alloc(st, op.chunk).1 == s then 1 else 0)
  {
    match op
    case AllocOp(c) => AllocInv(st, c);
    case DeallocOp(x) => DeallocInv(st, x);
  }

  lemma {:induction false} RunCounts(st: State, ops: seq<Op>, s: Slot)
    requires Inv(st) && LegalRun(st, ops)
    ensures Inv(Run(st, ops))
    ensures multiset(Run(st, ops).live)[s] + multiset(Taken(ops))[s]
      == multiset(st.live)[s] + multiset(Given(st, ops))[s]
    decreases |ops|
  {
    hide Inv, Legal, Step, Alloc;
    if ops != [] {
      StepCounts(st, ops[0], s);
      RunCounts(Step(st, ops[0]), ops[1..], s);
    }
  }

  // Every run keeps the partition, and the slots live after it are those live
  // before and those it handed out, less those it gave back.
  lemma RunInv(st: State, ops: seq<Op>)
    requires Inv(st) && LegalRun(st, ops)
    ensures Inv(Run(st, ops))
    ensures multiset(Run(st, ops).live) + multiset(Taken(ops)) == multiset(st.live) + multiset(Given(st, ops))
  {
    hide Inv, LegalRun, Run, Taken, Given;
    var before := multiset(st.live) + multiset(Given(st, ops));
    var after := multiset(Run(st, ops).live) + multiset(Taken(ops));
    RunCounts(st, ops, Slot(Base, 0));
    forall s ensures after[s] == before[s] {
      RunCounts(st, ops, s);
    }
  }

  // Slots are reused newest first: slots given back one by one and asked for again
  // come in the opposite order, and the slab is as it was.
  function GiveBack(ss: seq<Slot>, chunk: Chunk): seq<Op> {
    if ss == [] then [] else [DeallocOp(ss[0])] + GiveBack(ss[1..], chunk) + [AllocOp(chunk)]
  }

  function Backwards(ss: seq<Slot>): seq<Slot> {
    if ss == [] then [] else Backwards(ss[1..]) + [ss[0]]
  }

  lemma {:induction false} RunConcat(st: State, a: seq<Op>, b: seq<Op>)
    ensures Run(st, a + b) == Run(Run(st, a), b) && Given(st, a + b) == Given(st, a) + Given(Run(st, a), b)
    decreases |a|
  {
    hide Step;
    if a == [] {
      assert a + b == b;
    } else {
      assert (a + b)[0] == a[0] && (a + b)[1..] == a[1..] + b;
      RunConcat(Step(st, a[0]), a[1..], b);
    }
  }

  lemma {:induction false} ReusedNewestFirst(st: State, ss: seq<Slot>, chunk: Chunk)
    requires NoDup(ss) && forall s :: s in ss ==> s in st.live
    ensures Run(st, GiveBack(ss, chunk)) == st && Given(st, GiveBack(ss, chunk)) == Backwards(ss)
    decreases |ss|
  {
    if ss != [] {
      var s, st1, inner := ss[0], Dealloc(st, ss[0]), GiveBack(ss[1..], chunk);
      ReusedNewestFirst(st1, ss[1..], chunk);
      RunConcat(st1, inner, [AllocOp(chunk)]);
      assert GiveBack(ss, chunk)[1..] == inner + [AllocOp(chunk)];
      OneAlloc(st1, chunk);
      assert st1.list[1..] == st.list && st1.live + {s} == st.live;
    }
  }

  lemma OneAlloc(st: State, chunk: Chunk)
    ensures var (st', s) := Alloc(st, chunk);
      Run(st, [AllocOp(chunk)]) == st' && Given(st, [AllocOp(chunk)]) == [s]
  {
    assert [AllocOp(chunk)][1..] == [];
  }

  // A slab asks for a chunk only when every slot it has is live.
  lemma AsksWhenFull(st: State)
    requires Inv(st)
    ensures Asks(st) <==> |st.live| == Total(st)
  {
  }

  // ---- addresses ------------------------------------------------------------

  datatype Ptr = Ptr(home: Home, off: nat)

  // The first slot of a chunk.
  function Begin(h: Home): nat {
    if h.Base? then HEADER else NEXT
  }

  function PtrOf(shape: Shape, s: Slot): Ptr {
    Ptr(s.home, Begin(s.home) + s.index * shape.isize)
  }

  // Distinct slots share no byte, and every slot lies inside its chunk.
  lemma SlotsApart(shape: Shape, s: Slot, t: Slot)
    requires s != t && s.home == t.home
    ensures var p, q := PtrOf(shape, s).off, PtrOf(shape, t).off;
      p + shape.isize <= q || q + shape.isize <= p
  {
    if s.index < t.index {
      Multiple(shape.isize, s.index + 1, t.index);
    } else {
      Multiple(shape.isize, t.index + 1, s.index);
    }
  }

  lemma SlotInside(shape: Shape, s: Slot)
    requires s.index < Capacity(shape, s.home)
    ensures Begin(s.home) <= PtrOf(shape, s).off
    ensures PtrOf(shape, s).off + shape.isize <= Begin(s.home) + Capacity(shape, s.home) * shape.isize
  {
    Multiple(shape.isize, s.index + 1, Capacity(shape, s.home));
  }

  // No two live slots share a byte, and none reaches out of its chunk.
  lemma LiveSlotsApart(st: State, s: Slot, t: Slot)
    requires Inv(st) && s in st.live && t in st.live && s != t
    ensures var p, q, size := PtrOf(st.shape, s), PtrOf(st.shape, t), st.shape.isize;
      && Known(st.chunks, s.home) && Begin(s.home) <= p.off
      && p.off + size <= Begin(s.home) + Capacity(st.shape, s.home) * size
      && (p.home == q.home ==> p.off + size <= q.off || q.off + size <= p.off)
  {
    assert HandedOut(st, s);
    SlotInside(st.shape, s);
    if s.home == t.home {
      SlotsApart(st.shape, s, t);
    }
  }

  lemma PtrInjective(shape: Shape, s: Slot, t: Slot)
    requires shape.isize > 0 && PtrOf(shape, s) == PtrOf(shape, t)
    ensures s == t
  {
    if s != t {
      SlotsApart(shape, s, t);
    }
  }

  lemma Multiple(k: nat, a: nat, b: nat)
    requires a <= b
    ensures a * k <= b * k
  {
    assert b * k == a * k + (b - a) * k;
    assert (b - a) * k >= 0;
  }

  lemma OneMore(k: nat, a: nat)
    ensures (a + 1) * k == a * k + k
  {
  }
}
