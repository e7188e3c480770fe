// struct slab_pool (base/slab.c): a slab whose slots are slabs.  Deleting it
// finds the live ones by their first word alone.
module SlabPool {
  import opened Options
  import opened Slab
  import opened SlabStruct

  // Who holds a chunk of the backing allocator: the pool's own slab, or the slab
  // in a slot.
  datatype Owner = Itself | Of(slot: Slot)

  // Position of a chunk on the chain, that of the first chunk being the last.
  function Position(chunks: seq<Chunk>, h: Home): (r: nat)
    ensures r <= |chunks|
  {
    if h.Base? || chunks == [] then |chunks|
    else if chunks[0] == h.chunk then 0
    else 1 + Position(chunks[1..], h)
  }

  function HomeAt(chunks: seq<Chunk>, k: nat): Home {
    if k < |chunks| then Extra(chunks[k]) else Base
  }

  lemma {:induction false} PositionOf(chunks: seq<Chunk>, h: Home)
    requires Known(chunks, h)
    ensures HomeAt(chunks, Position(chunks, h)) == h
  {
    if h.Extra? && chunks[0] != h.chunk {
      PositionOf(chunks[1..], h);
    }
  }

  lemma {:induction false} HomeAtPosition(chunks: seq<Chunk>, k: nat)
    requires NoDup(chunks) && k <= |chunks|
    ensures Position(chunks, HomeAt(chunks, k)) == k
  {
    if 0 < k && chunks != [] {
      HomeAtPosition(chunks[1..], k - 1);
      assert HomeAt(chunks, k) == HomeAt(chunks[1..], k - 1);
    }
  }

  // Live slots the backward scan still has in front of it when it stands at slot
  // i of chunk k.
  ghost function Ahead(st: State, k: nat, i: nat): set<Slot> {
    set s | s in st.live && Within(st.chunks, k, i, s)
  }

  predicate Within(chunks: seq<Chunk>, k: nat, i: nat, s: Slot) {
    var at := Position(chunks, s.home);
    at > k || (at == k && s.index < i)
  }

  lemma ScanStarts(st: State)
    requires Inv(st)
    ensures Ahead(st, 0, st.pos) == st.live
  {
    forall s | s in st.live ensures Within(st.chunks, 0, st.pos, s) {
      assert HandedOut(st, s);
      PositionOf(st.chunks, s.home);
    }
  }

  lemma ScanStep(st: State, k: nat, i: nat)
    requires Inv(st) && k <= |st.chunks|
    ensures Ahead(st, k, i) == Ahead(st, k, i + 1) - {Slot(HomeAt(st.chunks, k), i)}
    ensures Slot(HomeAt(st.chunks, k), i) in st.live ==> Slot(HomeAt(st.chunks, k), i) in Ahead(st, k, i + 1)
  {
    var x := Slot(HomeAt(st.chunks, k), i);
    HomeAtPosition(st.chunks, k);
    forall s | s in st.live && s != x ensures Within(st.chunks, k, i, s) == Within(st.chunks, k, i + 1, s) {
      if Position(st.chunks, s.home) == k && s.index == i {
        assert HandedOut(st, s);
        PositionOf(st.chunks, s.home);
        assert false;
      }
    }
  }

  // Older chunks are handed out to their last slot.
  lemma ScanTurns(st: State, k: nat)
    requires Inv(st) && k < |st.chunks|
    ensures Ahead(st, k, 0) == Ahead(st, k + 1, Capacity(st.shape, HomeAt(st.chunks, k + 1)))
  {
    forall s | s in st.live
      ensures Within(st.chunks, k, 0, s) == Within(st.chunks, k + 1, Capacity(st.shape, HomeAt(st.chunks, k + 1)), s)
    {
      assert HandedOut(st, s);
      PositionOf(st.chunks, s.home);
      HomeAtPosition(st.chunks, 0);
    }
  }

  lemma ScanEnds(st: State)
    ensures Ahead(st, |st.chunks|, 0) == {}
  {
  }

  // Slots behind the scan's start are handed out, so their first words are known.
  lemma ScanReads(st: State, k: nat, i: nat)
    requires Inv(st) && k <= |st.chunks|
    requires i < if k == 0 then st.pos else Capacity(st.shape, HomeAt(st.chunks, k))
    ensures HandedOut(st, Slot(HomeAt(st.chunks, k), i))
  {
    HomeAtPosition(st.chunks, 0);
    HomeAtPosition(st.chunks, k);
  }

  // The slots in left hold slabs, and these and the pool itself, whose chunks are
  // given, hold exactly the chunks of their chains.
  ghost predicate Holds(shape: Shape, chunks: seq<Chunk>, inner: map<Ptr, State>, held: map<Chunk, Owner>,
                        left: set<Slot>) {
    && (forall s :: s in left ==> HoldsItem(shape, inner, held, s))
    && (forall c :: c in chunks ==> c in held && held[c] == Itself)
    && (forall c :: c in held ==> HeldBy(shape, chunks, inner, left, c, held[c]))
  }

  ghost predicate HoldsItem(shape: Shape, inner: map<Ptr, State>, held: map<Chunk, Owner>, s: Slot) {
    var p := PtrOf(shape, s);
    p in inner && Inv(inner[p]) && forall c :: c in inner[p].chunks ==> c in held && held[c] == Of(s)
  }

  ghost predicate HeldBy(shape: Shape, chunks: seq<Chunk>, inner: map<Ptr, State>, left: set<Slot>, c: Chunk,
                         o: Owner) {
    match o
    case Itself => c in chunks
    case Of(s) => s in left && PtrOf(shape, s) in inner && c in inner[PtrOf(shape, s)].chunks
  }

  // A handed-out slot starts with the deallocation function exactly when it is
  // live.
  ghost predicate Marks(st: State, words: map<Ptr, Word>) {
    forall s :: HandedOut(st, s) ==> Marked(st, words, s)
  }

  ghost predicate Marked(st: State, words: map<Ptr, Word>, s: Slot) {
    var p := PtrOf(st.shape, s);
    p in words && (words[p] == DeallocFn <==> s in st.live)
  }

  lemma AllocHolds(st: State, chunk: Chunk, inner: map<Ptr, State>, held: map<Chunk, Owner>, sa: State)
    requires Inv(st) && Holds(st.shape, st.chunks, inner, held, st.live) && chunk !in held && chunk !in st.chunks
    requires Inv(sa) && sa.chunks == []
    ensures var (st', s) := Alloc(st, chunk);
      Holds(st'.shape, st'.chunks, inner[PtrOf(st.shape, s) := sa],
            if Asks(st) then held[chunk := Itself] else held, st'.live)
  {
    hide Inv, Asks, PtrOf, Holds;
    AllocInv(st, chunk);
    SizedSlots(st);
    AllocAsks(st, chunk);
    var (st', s) := Alloc(st, chunk);
    NewSlabHolds(st.shape, st.chunks, inner, held, st.live, s, sa);
    if Asks(st) {
      NewChunkHolds(st.shape, st.chunks, inner[PtrOf(st.shape, s) := sa], held, st'.live, chunk);
    }
  }

  lemma NewSlabHolds(shape: Shape, chunks: seq<Chunk>, inner: map<Ptr, State>, held: map<Chunk, Owner>, left: set<Slot>,
                     s: Slot, sa: State)
    requires shape.isize > 0 && Holds(shape, chunks, inner, held, left) && s !in left && Inv(sa) && sa.chunks == []
    ensures Holds(shape, chunks, inner[PtrOf(shape, s) := sa], held, left + {s})
  {
    hide Inv, PtrOf;
    var inner' := inner[PtrOf(shape, s) := sa];
    forall t | t in left ensures HoldsItem(shape, inner', held, t) {
      PtrsDiffer(shape, s, t);
      assert HoldsItem(shape, inner, held, t);
    }
    forall c | c in held ensures HeldBy(shape, chunks, inner', left + {s}, c, held[c]) {
      assert HeldBy(shape, chunks, inner, left, c, held[c]);
      if held[c].Of? {
        PtrsDiffer(shape, s, held[c].slot);
      }
    }
  }

  lemma NewChunkHolds(shape: Shape, chunks: seq<Chunk>, inner: map<Ptr, State>, held: map<Chunk, Owner>,
                      left: set<Slot>, chunk: Chunk)
    requires Holds(shape, chunks, inner, held, left) && chunk !in held
    ensures Holds(shape, [chunk] + chunks, inner, held[chunk := Itself], left)
  {
    hide Inv, PtrOf;
    var held' := held[chunk := Itself];
    forall t | t in left ensures HoldsItem(shape, inner, held', t) {
      assert HoldsItem(shape, inner, held, t);
    }
    forall c | c in held' ensures HeldBy(shape, [chunk] + chunks, inner, left, c, held'[c]) {
      if c != chunk {
        assert HeldBy(shape, chunks, inner, left, c, held[c]);
      }
    }
  }

  lemma AllocAsks(st: State, chunk: Chunk)
    ensures Alloc(st, chunk).0.chunks == if Asks(st) then [chunk] + st.chunks else st.chunks
    ensures Alloc(st, chunk).0.live == st.live + {Alloc(st, chunk).1} && Alloc(st, chunk).0.shape == st.shape
  {
  }

  lemma PtrsDiffer(shape: Shape, s: Slot, t: Slot)
    requires shape.isize > 0 && s != t
    ensures PtrOf(shape, s) != PtrOf(shape, t)
  {
    if PtrOf(shape, s) == PtrOf(shape, t) {
      PtrInjective(shape, s, t);
    }
  }

  lemma SizedSlots(st: State)
    requires Inv(st)
    ensures st.shape.isize > 0
  {
  }

  lemma AllocMarks(st: State, chunk: Chunk, words: map<Ptr, Word>)
    requires Inv(st) && Marks(st, words) && chunk !in st.chunks
    ensures var (st', s) := Alloc(st, chunk); Marks(st', words[PtrOf(st.shape, s) := DeallocFn])
  {
    AllocInv(st, chunk);
    var (st', s) := Alloc(st, chunk);
    var words' := words[PtrOf(st.shape, s) := DeallocFn];
    forall t | HandedOut(st', t) ensures Marked(st', words', t) {
      if t != s {
        assert t in st'.live || t in st'.list;
        assert t in st.live || t in st.list;
        assert Marked(st, words, t);
        if PtrOf(st.shape, t) == PtrOf(st.shape, s) {
          PtrInjective(st.shape, s, t);
        }
      }
    }
  }

  lemma DeallocMarks(st: State, s: Slot, words: map<Ptr, Word>, frees: Option<Ptr>)
    requires Inv(st) && Marks(st, words) && s in st.live
    ensures Marks(Dealloc(st, s), words[PtrOf(st.shape, s) := Link(frees)])
  {
    var st' := Dealloc(st, s);
    var words' := words[PtrOf(st.shape, s) := Link(frees)];
    forall t | HandedOut(st', t) ensures Marked(st', words', t) {
      assert HandedOut(st, t) && Marked(st, words, t);
      if t != s && PtrOf(st.shape, t) == PtrOf(st.shape, s) {
        PtrInjective(st.shape, s, t);
      }
    }
  }

  // The slab in slot s changes, asking for a chunk or not.
  lemma ItemHolds(shape: Shape, chunks: seq<Chunk>, inner: map<Ptr, State>, held: map<Chunk, Owner>, left: set<Slot>,
                  s: Slot, sa: State, more: seq<Chunk>)
    requires shape.isize > 0 && Holds(shape, chunks, inner, held, left) && s in left && Inv(sa)
    requires |more| <= 1 && sa.chunks == more + inner[PtrOf(shape, s)].chunks && forall c :: c in more ==> c !in held
    ensures Holds(shape, chunks, inner[PtrOf(shape, s) := sa],
                  if more == [] then held else held[more[0] := Of(s)], left)
  {
    hide Inv, PtrOf;
    var inner' := inner[PtrOf(shape, s) := sa];
    var held' := if more == [] then held else held[more[0] := Of(s)];
    assert HoldsItem(shape, inner, held, s);
    forall t | t in left ensures HoldsItem(shape, inner', held', t) {
      assert HoldsItem(shape, inner, held, t);
      if t != s {
        PtrsDiffer(shape, s, t);
      } else {
        forall c | c in sa.chunks ensures c in held' && held'[c] == Of(s) {
          assert c in more || c in inner[PtrOf(shape, s)].chunks;
        }
      }
    }
    forall c | c in held' ensures HeldBy(shape, chunks, inner', left, c, held'[c]) {
      if c in held {
        assert HeldBy(shape, chunks, inner, left, c, held[c]);
        if held[c].Of? && held[c].slot != s {
          PtrsDiffer(shape, s, held[c].slot);
        }
      }
    }
  }

  function Members(chain: seq<Chunk>): set<Chunk> {
    set c | c in chain
  }

  lemma OneMoreMember(chain: seq<Chunk>, i: nat)
    requires i < |chain| && NoDup(chain)
    ensures chain[..i + 1] == chain[..i] + [chain[i]] && chain[i] !in chain[..i]
    ensures Members(chain[..i + 1]) == Members(chain[..i]) + {chain[i]} && chain[i] !in Members(chain[..i])
  {
  }

  // What the slab in slot s held is given back.
  lemma FiniHolds(shape: Shape, chunks: seq<Chunk>, inner: map<Ptr, State>, held: map<Chunk, Owner>, left: set<Slot>,
                  s: Slot, held': map<Chunk, Owner>)
    requires Holds(shape, chunks, inner, held, left) && s in left
    requires held' == held - Members(inner[PtrOf(shape, s)].chunks)
    ensures Holds(shape, chunks, inner, held', left - {s})
  {
    hide Inv, PtrOf;
    assert HoldsItem(shape, inner, held, s);
    forall t | t in left - {s} ensures HoldsItem(shape, inner, held', t) {
      assert HoldsItem(shape, inner, held, t);
    }
    forall c | c in held' ensures HeldBy(shape, chunks, inner, left - {s}, c, held'[c]) {
      assert HeldBy(shape, chunks, inner, left, c, held[c]);
    }
  }

  lemma TakeOut<T>(s: set<T>, x: T)
    requires x in s
    ensures multiset(s - {x}) + multiset{x} == multiset(s)
  {
  }

  lemma Stride(i: nat)
    ensures i * HEADER > 0 <==> i > 0
    ensures i > 0 ==> i * HEADER == (i - 1) * HEADER + HEADER
  {
  }

  lemma AheadLive(st: State, k: nat, i: nat)
    ensures Ahead(st, k, i) <= st.live
  {
  }

  class Pool {
    const so: SlabObject
    var inner: map<Ptr, State>           // the slabs in the slots
    var given: seq<Chunk>                // chunks given back, in order
    ghost var held: map<Chunk, Owner>    // chunks obtained and not given back

    // The struct in slot s.
    ghost function At(s: Slot): Ptr
      reads so
    {
      PtrOf(so.view.shape, s)
    }

    ghost predicate Holding(left: set<Slot>)
      reads this, so
    {
      Holds(so.view.shape, so.view.chunks, inner, held, left)
    }

    ghost predicate Valid()
      reads this, so
    {
      so.Valid() && so.isize == HEADER && Marks(so.view, so.words) && Holding(so.view.live)
      && so.view.shape.first == so.view.shape.nitem
    }

    // slab_pool_create
    constructor (nitem: nat)
      requires nitem > 0
      ensures Valid() && so.view.live == {} && held == map[] && given == [] && fresh(so)
    {
      so := new SlabObject(nitem, HEADER);
      inner, given, held := map[], [], map[];
    }

    // slab_pool_idle
    predicate Idle()
      requires Valid()
      reads this, so
      ensures Idle() <==> so.view.live == {}
    {
      so.Idle()
    }

    // slab_pool_alloc
    method AllocSlab(nitem: nat, isize: nat, chunk: Chunk) returns (p: Ptr)
      requires Valid() && nitem > 0 && isize > 0 && chunk !in held
      modifies this`inner, this`held, so`allocnum, so`allocpos, so`sentinel, so`frees, so`ahead, so`view, so`words
      ensures Valid() && so.view == Slab.Alloc(old(so.view), chunk).0
      ensures p == At(Slab.Alloc(old(so.view), chunk).1) && inner == old(inner)[p := Create(isize, nitem, 0)]
    {
      hide Holds, Marks, Inv, Asks;
      PoolChunks(chunk);
      AllocInv(so.view, chunk);
      CreateInv(isize, nitem, 0);
      AllocHolds(so.view, chunk, inner, held, Create(isize, nitem, 0));
      AllocMarks(so.view, chunk, so.words);
      ghost var s := Slab.Alloc(so.view, chunk).1;
      if Asks(so.view) {
        held := held[chunk := Itself];
      }
      p := so.Alloc(chunk);
      so.Write(p, DeallocFn, s);
      inner := inner[p := Create(isize, nitem, 0)];
    }

    lemma PoolChunks(chunk: Chunk)
      requires Valid() && chunk !in held
      ensures chunk !in so.view.chunks
    {
    }

    lemma SlabAt(s: Slot, chunk: Chunk)
      requires Valid() && s in so.view.live
      ensures At(s) in inner && Inv(inner[At(s)]) && (chunk !in held ==> chunk !in inner[At(s)].chunks)
    {
    }

    // slab_alloc on the slab at p
    method AllocItem(p: Ptr, chunk: Chunk, ghost s: Slot) returns (item: Slot)
      requires Valid() && s in so.view.live && p == At(s) && chunk !in held
      modifies this`inner, this`held
      ensures Valid() && item == Slab.Alloc(old(inner)[p], chunk).1
      ensures p in old(inner) && inner == old(inner)[p := Slab.Alloc(old(inner)[p], chunk).0]
    {
      hide Holds, Marks, Inv;
      SlabAt(s, chunk);
      AllocInv(inner[p], chunk);
      var (sa, i) := Slab.Alloc(inner[p], chunk);
      ghost var more := if Asks(inner[p]) then [chunk] else [];
      assert sa.chunks == more + inner[p].chunks;
      ItemHolds(so.view.shape, so.view.chunks, inner, held, so.view.live, s, sa, more);
      if Asks(inner[p]) {
        held := held[chunk := Of(s)];
      }
      inner := inner[p := sa];
      item := i;
    }

    // slab_dealloc on the slab at p
    method DeallocItem(p: Ptr, item: Slot, ghost s: Slot)
      requires Valid() && s in so.view.live && p == At(s) && p in inner && item in inner[p].live
      modifies this`inner
      ensures Valid() && inner == old(inner)[p := Slab.Dealloc(old(inner)[p], item)]
    {
      hide Holds, Marks, Inv;
      SlabAt(s, 0);
      DeallocInv(inner[p], item);
      ItemHolds(so.view.shape, so.view.chunks, inner, held, so.view.live, s, Slab.Dealloc(inner[p], item), []);
      inner := inner[p := Slab.Dealloc(inner[p], item)];
    }

    // slab_pool_dealloc
    method DeallocSlab(p: Ptr, ghost s: Slot)
      requires Valid() && s in so.view.live && p == At(s)
      modifies this`held, this`given, so`allocnum, so`frees, so`words, so`view
      ensures Valid() && so.view == Slab.Dealloc(old(so.view), s)
      ensures p in old(inner) && given == old(given) + old(inner[p]).chunks
    {
      hide Holds, Marks, Inv;
      SlabAt(s, 0);
      DeallocMarks(so.view, s, so.words, so.frees);
      FiniSlab(p, s, so.view.live);
      so.Dealloc(p, s);
    }

    // The backing allocator's deallocation function: what it is called with must
    // be held, so nothing is given back twice.
    method Give(c: Chunk)
      requires c in held
      modifies this`held, this`given
      ensures given == old(given) + [c] && held == old(held) - {c} && Obtained() == old(Obtained())
    {
      TakeOut(held.Keys, c);
      assert (held - {c}).Keys == held.Keys - {c};
      given := given + [c];
      held := held - {c};
    }

    // The chunks of a chain, each once.
    method GiveAll(chain: seq<Chunk>)
      requires NoDup(chain) && forall c :: c in chain ==> c in held
      modifies this`held, this`given
      ensures given == old(given) + chain
      ensures held == old(held) - Members(chain) && Obtained() == old(Obtained())
    {
      hide NoDup, Members, Obtained;
      var i := 0;
      assert held - {} == held && Members(chain[..0]) == {} by { NoMembers(chain); }
      while i < |chain|
        invariant 0 <= i <= |chain| && given == old(given) + chain[..i]
        invariant held == old(held) - Members(chain[..i]) && Obtained() == old(Obtained())
      {
        OneMoreMember(chain, i);
        Give(chain[i]);
        assert old(held) - Members(chain[..i]) - {chain[i]} == old(held) - (Members(chain[..i]) + {chain[i]});
        i := i + 1;
      }
      assert chain[..i] == chain;
    }

    lemma NoMembers(chain: seq<Chunk>)
      ensures Members(chain[..0]) == {}
    {
    }

    // slab_fini on the slab at p
    method FiniSlab(p: Ptr, ghost s: Slot, ghost left: set<Slot>)
      requires Holding(left) && s in left && p == At(s)
      modifies this`held, this`given
      ensures Holding(left - {s})
      ensures p in inner && given == old(given) + inner[p].chunks
      ensures held == old(held) - Members(inner[p].chunks) && Obtained() == old(Obtained())
    {
      GiveAll(inner[p].chunks);
      FiniHolds(so.view.shape, so.view.chunks, inner, old(held), left, s, held);
    }

    // What is behind revptr on chunk k of the chain, at slot i.
    ghost predicate Scanning(n: Home, revptr: nat, k: nat, i: nat)
      reads so
    {
      && k <= |so.view.chunks| && n == HomeAt(so.view.chunks, k)
      && revptr == Begin(n) + i * HEADER
      && i <= if k == 0 then so.view.pos else Capacity(so.view.shape, n)
    }

    // All chunks ever obtained, given back or not.
    ghost function Obtained(): multiset<Chunk>
      reads this
    {
      multiset(given) + multiset(held.Keys)
    }

    // The inner loop of pool_fini: one chunk, from its last slot handed out down.
    method ScanChunk(n: Home, from: nat, ghost k: nat, ghost i0: nat) returns (ghost fin: seq<Slot>)
      requires so.Valid() && so.isize == HEADER && Marks(so.view, so.words)
      requires Scanning(n, from, k, i0) && Holding(Ahead(so.view, k, i0))
      modifies this`held, this`given
      ensures Holding(Ahead(so.view, k, 0)) && Obtained() == old(Obtained())
      ensures multiset(fin) + multiset(Ahead(so.view, k, 0)) == multiset(Ahead(so.view, k, i0))
    {
      hide Holds, Marks, Inv, Ahead;
      var revptr: nat := from;
      ghost var i: nat := i0;
      fin := [];
      while revptr > Begin(n)
        invariant Scanning(n, revptr, k, i) && i <= i0 && Holding(Ahead(so.view, k, i)) && Obtained() == old(Obtained())
        invariant multiset(fin) + multiset(Ahead(so.view, k, i)) == multiset(Ahead(so.view, k, i0))
      {
        Stride(i);
        revptr := revptr - HEADER;
        i := i - 1;
        ghost var s := Slot(n, i);
        SlotRead(n, revptr, k, i);
        ScanStep(so.view, k, i);
        if so.words[Ptr(n, revptr)] == DeallocFn {
          TakeOut(Ahead(so.view, k, i + 1), s);
          FiniSlab(Ptr(n, revptr), s, Ahead(so.view, k, i + 1));
          fin := fin + [s];
        } else {
          assert Ahead(so.view, k, i + 1) - {s} == Ahead(so.view, k, i + 1) by { AheadLive(so.view, k, i + 1); }
        }
      }
      Stride(i);
    }

    lemma SlotRead(n: Home, revptr: nat, k: nat, i: nat)
      requires so.Valid() && so.isize == HEADER && Marks(so.view, so.words)
      requires Scanning(n, revptr, k, i) && i < if k == 0 then so.view.pos else Capacity(so.view.shape, n)
      ensures Ptr(n, revptr) == At(Slot(n, i)) && Ptr(n, revptr) in so.words
      ensures so.words[Ptr(n, revptr)] == DeallocFn <==> Slot(n, i) in so.view.live
    {
      hide Inv;
      ScanReads(so.view, k, i);
      assert Marked(so.view, so.words, Slot(n, i));
    }

    // The outer loop of pool_fini: along the chain of chunks to the first one.
    // The slabs finalised are the live ones, each once.
    method ScanPool() returns (ghost fin: seq<Slot>)
      requires Valid()
      modifies this`held, this`given
      ensures Holding({}) && Obtained() == old(Obtained())
      ensures multiset(fin) == multiset(so.view.live)
    {
      hide Holds, Marks, Inv, Ahead;
      var i, n, revptr: nat := 0, Newest(so.ahead), so.allocpos;
      ScanStarts(so.view);
      assert n == HomeAt(so.view.chunks, 0);
      ghost var at := so.view.pos;
      fin := [];
      while true
        invariant 0 <= i <= |so.ahead| && Scanning(n, revptr, i, at) && Holding(Ahead(so.view, i, at))
        invariant Obtained() == old(Obtained())
        invariant multiset(fin) + multiset(Ahead(so.view, i, at)) == multiset(so.view.live)
        decreases |so.ahead| - i
      {
        ghost var some := ScanChunk(n, revptr, i, at);
        fin := fin + some;
        if n == Base {
          break;
        }
        ScanTurns(so.view, i);
        i := i + 1;
        n := if i < |so.ahead| then Extra(so.ahead[i]) else Base;
        revptr := Begin(n) - NEXT + so.chunksize;
        at := Capacity(so.view.shape, n);
      }
      ScanEnds(so.view);
    }

    // slab_pool_delete: pool_fini, and the pool's own chunks.  Nothing is held any
    // more, and every chunk that was has been given back once.
    method Delete() returns (ghost fin: seq<Slot>)
      requires Valid()
      modifies this`held, this`given
      ensures held == map[] && multiset(given) == old(Obtained())
      ensures multiset(fin) == multiset(so.view.live)
    {
      fin := ScanPool();
      var chain := so.Fini();
      GiveAll(chain);
    }
  }
}
