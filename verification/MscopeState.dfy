// The allocator's state as a value, its operations as functions on that value,
// and the invariant every operation keeps (base/mscope.c, LP64 layout).
module MscopeState {
  import opened MscopeBlocks

  const HEADER: nat := 32       // sizeof(union header)
  const ARENA_SIZE: nat := 4040
  const DUMMY: nat := 0         // the arena embedded in struct mscope

  datatype Arena = Arena(avail: nat, limit: nat)

  // local, global and frees are the prev-chains, newest arena first; the two
  // chains end in the dummy.  sizes holds the word alloc_local writes in front
  // of a block, bytes the memory of each arena.  obtained and returned record
  // the traffic with the backing allocator, gblocks and lblocks the blocks
  // handed out: global blocks as ranges, local ones with their size word.
  datatype Scope = Scope(
    arenas: map<nat, Arena>,
    local: seq<nat>,
    global: seq<nat>,
    frees: seq<nat>,
    segs: Segments,
    sizes: map<Addr, nat>,
    bytes: map<nat, seq<int>>,
    obtained: nat,
    returned: seq<nat>,
    gblocks: seq<Block>,
    lblocks: seq<Block>)

  // A chain without the dummy at its end.
  function Chain(s: seq<nat>): seq<nat>
    requires s != []
  {
    s[..|s| - 1]
  }

  function Payload(b: Block): Addr {
    Addr(b.at.arena, b.at.off + ALIGNMENT)
  }

  // ---- invariant ------------------------------------------------------------

  predicate Chained(s: seq<nat>) {
    s != [] && s[|s| - 1] == DUMMY
  }

  // All places an arena can be in; pend are arenas in the hands of an operation.
  function Handles(st: Scope, pend: seq<nat>): multiset<nat>
    requires st.local != [] && st.global != []
  {
    multiset(Chain(st.local)) + multiset(Chain(st.global)) + multiset(st.frees) + multiset(st.returned) + multiset(pend)
  }

  predicate ArenaOk(st: Scope, h: nat) {
    && h in st.arenas && h in st.bytes
    && HEADER <= st.arenas[h].avail <= st.arenas[h].limit == |st.bytes[h]|
    && (h != DUMMY ==> st.arenas[h].limit >= ARENA_SIZE)
  }

  // Every arena obtained is in exactly one place.
  ghost predicate HandleInv(st: Scope, pend: seq<nat>)
    requires st.local != [] && st.global != []
  {
    forall h: nat :: Handles(st, pend)[h] == One(1 <= h <= st.obtained)
  }

  // Besides, cached arenas have the standard size.
  ghost predicate ArenaInv(st: Scope, pend: seq<nat>) {
    && Chained(st.local) && Chained(st.global)
    && HandleInv(st, pend)
    && (forall h :: h in st.arenas ==> h <= st.obtained && ArenaOk(st, h))
    && (forall h :: h in st.local ==> h in st.arenas)
    && (forall h :: h in st.global ==> h in st.arenas)
    && DUMMY in st.arenas && st.arenas[DUMMY] == Arena(HEADER, HEADER)
    && (forall h :: h in st.frees ==> h in st.arenas && st.arenas[h].limit == ARENA_SIZE)
  }

  predicate InTail(st: Scope, p: Addr)
    requires st.global != [] && st.global[0] in st.arenas
  {
    p.arena == st.global[0] && st.arenas[p.arena].avail <= p.off < st.arenas[p.arena].limit
  }

  // How many global blocks, free segments and bump tails hold the byte at p.
  function GlobalCover(st: Scope, p: Addr): nat
    requires st.global != [] && st.global[0] in st.arenas
  {
    Cover(st.gblocks, p) + FreeTotal(st.segs, p) + One(InTail(st, p))
  }

  predicate InPayload(st: Scope, p: Addr)
    requires st.global != []
  {
    p.arena in Chain(st.global) && p.arena in st.arenas && HEADER <= p.off < st.arenas[p.arena].limit
  }

  // No byte has two owners, and only payload bytes of global arenas have one.
  ghost predicate Owners(st: Scope)
    requires st.global != [] && st.global[0] in st.arenas
  {
    forall p :: GlobalCover(st, p) <= One(InPayload(st, p))
  }

  ghost predicate GlobalInv(st: Scope)
    requires st.global != [] && st.global[0] in st.arenas
  {
    && |st.segs| == NSEGMENT && SizedLists(st.segs)
    && Owners(st)
    && st.arenas[st.global[0]].limit <= st.arenas[st.global[0]].avail + ARENA_SIZE - HEADER
  }

  predicate InLocal(st: Scope, pend: seq<nat>, p: Addr)
    requires st.local != []
  {
    p.arena in Chain(st.local) + pend && p.arena in st.arenas && HEADER <= p.off < st.arenas[p.arena].avail
  }

  // The local blocks tile the used part of every local arena.
  ghost predicate LocalInv(st: Scope, pend: seq<nat>)
    requires st.local != []
  {
    && (forall p :: Cover(st.lblocks, p) == One(InLocal(st, pend, p)))
    && (forall i :: 0 <= i < |st.lblocks| ==> SizeWord(st, st.lblocks[i]))
  }

  predicate SizeWord(st: Scope, b: Block) {
    b.size >= ALIGNMENT && Payload(b) in st.sizes && st.sizes[Payload(b)] == b.size - ALIGNMENT
  }

  ghost predicate Inv(st: Scope, pend: seq<nat>) {
    ArenaInv(st, pend) && GlobalInv(st) && LocalInv(st, pend)
  }

  // mscope_create.
  function Create(): Scope {
    Scope(map[DUMMY := Arena(HEADER, HEADER)], [DUMMY], [DUMMY], [], seq(NSEGMENT, _ => []), map[],
          map[DUMMY := seq(HEADER, _ => 0)], 0, [], [], [])
  }

  lemma {:induction false} FreeNothing(segs: Segments, n: nat, p: Addr)
    requires n <= |segs| && forall i :: 0 <= i < |segs| ==> segs[i] == []
    ensures FreeCover(segs, n, p) == 0
  {
    if n > 0 {
      FreeNothing(segs, n - 1, p);
    }
  }

  lemma CreateInv()
    ensures Inv(Create(), [])
  {
    var st := Create();
    forall p ensures GlobalCover(st, p) <= One(InPayload(st, p)) {
      FreeNothing(st.segs, |st.segs|, p);
    }
  }

  // ---- arenas ---------------------------------------------------------------

  function SetAvail(st: Scope, h: nat, avail: nat): Scope
    requires h in st.arenas
  {
    st.(arenas := st.arenas[h := Arena(avail, st.arenas[h].limit)])
  }

  // _mscope_acquire_arena: a cached arena if the request fits one, else a new
  // one, of the standard size or of exactly the size needed.
  function Acquire(st: Scope, hint: nat): (r: (Scope, nat))
    requires st.frees != [] ==> st.frees[0] in st.arenas
  {
    if hint + HEADER <= ARENA_SIZE && st.frees != [] then
      (SetAvail(st, st.frees[0], HEADER).(frees := st.frees[1..]), st.frees[0])
    else
      var size := if hint + HEADER <= ARENA_SIZE then ARENA_SIZE else hint + HEADER;
      var h := st.obtained + 1;
      (st.(arenas := st.arenas[h := Arena(HEADER, size)],
           bytes := st.bytes[h := seq(size, _ => 0)],
           obtained := h), h)
  }

  // A request that fits a standard arena takes the first cached one if there is one
  // and asks the backing allocator for nothing; any other obtains an arena of the
  // standard size or, if larger, of its own.
  lemma AcquireTakes(st: Scope, hint: nat)
    requires st.frees != [] ==> st.frees[0] in st.arenas
    ensures var (st', h) := Acquire(st, hint);
      && h in st'.arenas && st'.arenas[h].avail == HEADER && st'.returned == st.returned
      && (hint + HEADER <= ARENA_SIZE && st.frees != [] ==>
           && st.frees == [h] + st'.frees && st'.obtained == st.obtained && st'.bytes == st.bytes
           && st'.arenas[h].limit == st.arenas[h].limit)
      && (hint + HEADER > ARENA_SIZE || st.frees == [] ==>
           && h == st.obtained + 1 == st'.obtained && st'.frees == st.frees
           && st'.arenas[h].limit == Max(ARENA_SIZE, hint + HEADER))
  {
  }

  function Max(a: nat, b: nat): nat {
    if a < b then b else a
  }

  lemma HandlesPush(st: Scope, pend: seq<nat>, h: nat)
    requires st.local != [] && st.global != []
    ensures Handles(st, [h] + pend) == Handles(st, pend) + multiset{h}
  {
    assert multiset([h] + pend) == multiset{h} + multiset(pend);
  }

  lemma AcquireHandles(st: Scope, hint: nat, pend: seq<nat>)
    requires Chained(st.local) && Chained(st.global) && HandleInv(st, pend)
    requires st.frees != [] ==> st.frees[0] in st.arenas
    ensures var (st', h) := Acquire(st, hint); HandleInv(st', [h] + pend)
  {
    hide Handles;
    var (st', h) := Acquire(st, hint);
    HandlesPush(st', pend, h);
    if hint + HEADER <= ARENA_SIZE && st.frees != [] {
      HandlesTaken(st, st', pend, h);
    } else {
      HandlesSame(st, st', pend);
      assert Handles(st, pend)[h] == One(1 <= h <= st.obtained);
    }
  }

  lemma HandlesSame(st: Scope, st': Scope, pend: seq<nat>)
    requires st.local != [] && st.global != []
    requires st'.local == st.local && st'.global == st.global && st'.frees == st.frees && st'.returned == st.returned
    ensures Handles(st', pend) == Handles(st, pend)
  {
  }

  // The first cached arena is in hand instead.
  lemma HandlesTaken(st: Scope, st': Scope, pend: seq<nat>, h: nat)
    requires st.local != [] && st.global != [] && st.frees == [h] + st'.frees
    requires st'.local == st.local && st'.global == st.global && st'.returned == st.returned
    ensures Handles(st', pend) + multiset{h} == Handles(st, pend)
  {
    MoveOne(multiset(Chain(st.local)), multiset(Chain(st.global)), multiset(st'.frees),
            multiset(st.returned), multiset(pend), multiset{h});
  }

  lemma MoveOne(a: multiset<nat>, b: multiset<nat>, c: multiset<nat>, d: multiset<nat>, e: multiset<nat>,
                x: multiset<nat>)
    ensures a + b + c + d + e + x == a + b + (x + c) + d + e
    ensures a + b + c + d + e + x == (a + x) + b + c + d + e
  {
  }

  // An arena in hand is a real one, and is not on a chain nor in hand twice.
  lemma SinglePlace(st: Scope, pend: seq<nat>, h: nat)
    requires st.local != [] && st.global != [] && HandleInv(st, [h] + pend)
    ensures 1 <= h <= st.obtained
    ensures h !in Chain(st.local) && h !in Chain(st.global) && h !in st.frees && h !in st.returned && h !in pend
  {
    HandlesPush(st, pend, h);
    assert Handles(st, [h] + pend)[h] == One(1 <= h <= st.obtained);
  }

  lemma ChainSplit(s: seq<nat>)
    requires Chained(s)
    ensures s == Chain(s) + [DUMMY]
  {
  }

  // The global invariant looks only at the global chain, the lists and the
  // global blocks; the local one only at local arenas and blocks.
  lemma GlobalFrame(st: Scope, st': Scope)
    requires Chained(st.global) && st'.global == st.global && st'.gblocks == st.gblocks && st'.segs == st.segs
    requires forall h :: h in st.global ==> h in st.arenas && h in st'.arenas && st'.arenas[h] == st.arenas[h]
    requires GlobalInv(st)
    ensures GlobalInv(st')
  {
    forall p ensures GlobalCover(st', p) <= One(InPayload(st', p)) {
      assert GlobalCover(st, p) <= One(InPayload(st, p));
    }
  }

  lemma LocalFrame(st: Scope, st': Scope, pend: seq<nat>, pend': seq<nat>)
    requires st.local != [] && st'.local != [] && st'.lblocks == st.lblocks && st'.sizes == st.sizes
    requires forall p :: InLocal(st', pend', p) <==> InLocal(st, pend, p)
    requires LocalInv(st, pend)
    ensures LocalInv(st', pend')
  {
    forall p ensures Cover(st'.lblocks, p) == One(InLocal(st', pend', p)) {
      assert Cover(st.lblocks, p) == One(InLocal(st, pend, p));
    }
    forall i | 0 <= i < |st'.lblocks| ensures SizeWord(st', st'.lblocks[i]) {
      assert SizeWord(st, st.lblocks[i]);
    }
  }

  // An arena taken is in nobody else's hands, empty and large enough.
  predicate Fresh(st: Scope, h: nat, hint: nat) {
    && h != DUMMY && h !in st.local && h !in st.global
    && h in st.arenas && st.arenas[h].avail == HEADER && hint + HEADER <= st.arenas[h].limit
    && (st.arenas[h].limit == ARENA_SIZE || st.arenas[h].limit == hint + HEADER)
  }

  lemma AcquireArenas(st: Scope, hint: nat, pend: seq<nat>)
    requires ArenaInv(st, pend)
    ensures var (st', h) := Acquire(st, hint);
      ArenaInv(st', [h] + pend) && Fresh(st', h, hint) && h !in pend && st'.arenas == st.arenas[h := st'.arenas[h]]
  {
    hide HandleInv, ArenaOk;
    AcquireHandles(st, hint, pend);
    AcquireFresh(st, hint, pend);
    AcquireOk(st, hint, pend);
  }

  lemma AcquireFresh(st: Scope, hint: nat, pend: seq<nat>)
    requires ArenaInv(st, pend)
    ensures var (st', h) := Acquire(st, hint);
      Fresh(st', h, hint) && h !in pend && st'.arenas == st.arenas[h := st'.arenas[h]]
  {
    hide Handles, ArenaOk;
    var (st', h) := Acquire(st, hint);
    AcquireHandles(st, hint, pend);
    SinglePlace(st', pend, h);
    ChainSplit(st.local);
    ChainSplit(st.global);
  }

  lemma AcquireOk(st: Scope, hint: nat, pend: seq<nat>)
    requires ArenaInv(st, pend)
    ensures var st' := Acquire(st, hint).0; forall g :: g in st'.arenas ==> g <= st'.obtained && ArenaOk(st', g)
  {
    hide HandleInv;
    var (st', h) := Acquire(st, hint);
    if st.frees != [] {
      assert st.frees[0] in st.frees;
      assert ArenaOk(st, st.frees[0]);
    }
    forall g | g in st'.arenas ensures g <= st'.obtained && ArenaOk(st', g) {
      assert g in st.arenas ==> ArenaOk(st, g);
    }
  }

  lemma AcquireInv(st: Scope, hint: nat, pend: seq<nat>)
    requires Inv(st, pend)
    ensures var (st', h) := Acquire(st, hint); Inv(st', [h] + pend) && Fresh(st', h, hint) && h !in pend
  {
    var (st', h) := Acquire(st, hint);
    AcquireArenas(st, hint, pend);
    GlobalFrame(st, st');
    forall p ensures InLocal(st', [h] + pend, p) <==> InLocal(st, pend, p) {
    }
    LocalFrame(st, st', pend, [h] + pend);
  }

  // Moving one avail pointer within its arena keeps the arena invariant; the
  // dummy's never moves and cached arenas keep their size.
  lemma SetAvailArenas(st: Scope, h: nat, avail: nat, pend: seq<nat>)
    requires ArenaInv(st, pend) && h in st.arenas && HEADER <= avail <= st.arenas[h].limit
    ensures ArenaInv(SetAvail(st, h, avail), pend)
  {
    var st' := SetAvail(st, h, avail);
    assert ArenaOk(st, h) && ArenaOk(st, DUMMY);
    forall x: nat ensures Handles(st', pend)[x] == One(1 <= x <= st'.obtained) {
      assert Handles(st, pend)[x] == One(1 <= x <= st.obtained);
    }
    forall x | x in st'.arenas ensures x <= st'.obtained && ArenaOk(st', x) {
      assert ArenaOk(st, x);
    }
  }

  // An arena is on one chain only, and only once.
  lemma OnOneChain(st: Scope, pend: seq<nat>, h: nat)
    requires ArenaInv(st, pend) && h != DUMMY
    ensures multiset(Chain(st.local))[h] + multiset(Chain(st.global))[h] + multiset(st.frees)[h]
          + multiset(st.returned)[h] + multiset(pend)[h] <= 1
    ensures h in st.global ==> h !in st.local && h !in pend && h !in st.frees
    ensures h in st.local ==> h !in st.global && h !in pend && h !in st.frees
    ensures h in pend ==> h !in st.global && h !in st.local && h !in st.frees
  {
    assert Handles(st, pend)[h] == One(1 <= h <= st.obtained);
    ChainSplit(st.local);
    ChainSplit(st.global);
    assert h in st.global <==> h in Chain(st.global);
    assert h in st.local <==> h in Chain(st.local);
  }
}
