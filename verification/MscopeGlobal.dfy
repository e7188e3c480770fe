// _mscope_alloc_global: free segments first, then the bump arena, retiring its
// tail to the segment lists when it is too short.
module MscopeGlobal {
  import opened MscopeBlocks
  import opened MscopeState

  predicate Headed(st: Scope) {
    st.global != [] && st.global[0] in st.arenas
    && st.arenas[st.global[0]].avail <= st.arenas[st.global[0]].limit
  }

  // The current arena's unused tail, carved onto the lists.
  function TailCarved(st: Scope): Scope
    requires Headed(st)
  {
    var g := st.global[0];
    var a := st.arenas[g];
    st.(segs := Carve(st.segs, Addr(g, a.avail), a.limit - a.avail, |st.segs|))
  }

  // Carve the tail and put a new arena in front.
  function Retire(st: Scope, size: nat): Scope
    requires Headed(st) && (st.frees != [] ==> st.frees[0] in st.arenas)
  {
    var (st1, h) := Acquire(TailCarved(st), size);
    st1.(global := [h] + st1.global)
  }

  predicate TailTooShort(st: Scope, size: nat)
    requires st.global != [] && st.global[0] in st.arenas
  {
    st.arenas[st.global[0]].avail + size > st.arenas[st.global[0]].limit
  }

  function Bump(st: Scope, size: nat): (r: (Scope, Addr))
    requires st.global != [] && st.global[0] in st.arenas
  {
    var g := st.global[0];
    var at := Addr(g, st.arenas[g].avail);
    (SetAvail(st, g, at.off + size).(gblocks := st.gblocks + [Block(at, size)]), at)
  }

  function AllocGlobal(st: Scope, size: nat): (r: (Scope, Addr))
    requires ArenaInv(st, [])
  {
    if BestFit(st.segs, size).Fit? then
      var (segs, b) := TakeBlock(st.segs, size);
      (st.(segs := segs, gblocks := st.gblocks + [b]), b.at)
    else if TailTooShort(st, size) then
      Bump(Retire(st, size), size)
    else
      Bump(st, size)
  }

  lemma RetireArenas(st: Scope, size: nat)
    requires ArenaInv(st, [])
    ensures var st' := Retire(st, size);
      && ArenaInv(st', []) && st'.global[1..] == st.global
      && st'.local == st.local && st'.lblocks == st.lblocks && st'.sizes == st.sizes && st'.gblocks == st.gblocks
      && var h := st'.global[0];
         && h != DUMMY && h !in st.global && h !in st.local
         && st'.arenas == st.arenas[h := st'.arenas[h]]
         && st'.arenas[h].avail == HEADER && size + HEADER <= st'.arenas[h].limit
         && (st'.arenas[h].limit == ARENA_SIZE || st'.arenas[h].limit == size + HEADER)
  {
    var st0 := TailCarved(st);
    SameArenas(st, st0);
    AcquireArenas(st0, size, []);
    var (st1, h) := Acquire(st0, size);
    PushGlobal(st1, h, []);
  }

  lemma SameArenas(st: Scope, st': Scope)
    requires ArenaInv(st, []) && st'.arenas == st.arenas && st'.bytes == st.bytes && st'.obtained == st.obtained
    requires st'.local == st.local && st'.global == st.global && st'.frees == st.frees && st'.returned == st.returned
    ensures ArenaInv(st', [])
  {
    assert Handles(st', []) == Handles(st, []);
    assert HandleInv(st', []) by {
      forall h: nat ensures Handles(st', [])[h] == One(1 <= h <= st'.obtained) {
        assert Handles(st, [])[h] == One(1 <= h <= st.obtained);
      }
    }
    forall h | h in st'.arenas ensures h <= st'.obtained && ArenaOk(st', h) {
      assert ArenaOk(st, h);
    }
  }

  // An arena in hand may go to the front of the global chain.
  lemma PushGlobal(st: Scope, h: nat, pend: seq<nat>)
    requires ArenaInv(st, [h] + pend) && h in st.arenas
    ensures ArenaInv(st.(global := [h] + st.global), pend)
  {
    var st' := st.(global := [h] + st.global);
    HandlesPush(st, pend, h);
    assert Chain(st'.global) == [h] + Chain(st.global);
    assert Handles(st', pend) == Handles(st, [h] + pend);
    assert HandleInv(st', pend) by {
      forall x: nat ensures Handles(st', pend)[x] == One(1 <= x <= st'.obtained) {
        assert Handles(st, [h] + pend)[x] == One(1 <= x <= st.obtained);
      }
    }
    forall x | x in st'.arenas ensures x <= st'.obtained && ArenaOk(st', x) {
      assert ArenaOk(st, x);
    }
  }

  // The bytes a retired tail is too short to keep on any list.
  function Lost(st: Scope): Block
    requires st.global != [] && st.global[0] in st.arenas
    requires st.arenas[st.global[0]].avail <= st.arenas[st.global[0]].limit
  {
    var a := st.arenas[st.global[0]];
    Block(Addr(st.global[0], a.avail), Leftover(a.limit - a.avail, |st.segs|))
  }

  lemma LostIsShort(st: Scope)
    requires ArenaInv(st, []) && GlobalInv(st)
    ensures Lost(st).size < 16
  {
    hide Leftover, SegSize, HandleInv, Owners, SizedLists;
    var a := st.arenas[st.global[0]];
    assert ArenaOk(st, st.global[0]);
    SegSizeTop();
    LeftoverBelow16(a.limit - a.avail, |st.segs|);
  }

  // 2048 is more than half an arena's payload.
  lemma SegSizeTop()
    ensures SegSize(NSEGMENT) > ARENA_SIZE - HEADER
  {
    assert SegSize(4) == 256;
  }

  function Fill(st: Scope): Block
    requires st.global != [] && st.global[0] in st.arenas && HEADER <= st.arenas[st.global[0]].limit
  {
    Block(Addr(st.global[0], HEADER), st.arenas[st.global[0]].limit - HEADER)
  }

  lemma RetireCover(st: Scope, size: nat, p: Addr)
    requires ArenaInv(st, [])
    ensures var st' := Retire(st, size);
      && st'.global != [] && st'.global[0] in st'.arenas && HEADER <= st'.arenas[st'.global[0]].limit
      && GlobalCover(st', p) + One(Within(p, Lost(st))) == GlobalCover(st, p) + One(Within(p, Fill(st')))
  {
    RetireArenas(st, size);
    var g := st.global[0];
    var a := st.arenas[g];
    CarveCover(st.segs, Addr(g, a.avail), a.limit - a.avail, |st.segs|, p);
  }

  lemma BumpCover(st: Scope, size: nat, p: Addr)
    requires st.global != [] && st.global[0] in st.arenas && !TailTooShort(st, size)
    ensures GlobalCover(Bump(st, size).0, p) == GlobalCover(st, p)
  {
    var at := Addr(st.global[0], st.arenas[st.global[0]].avail);
    CoverConcat(st.gblocks, [Block(at, size)], p);
    assert [Block(at, size)][1..] == [];
  }

  lemma TakeCover(st: Scope, size: nat, p: Addr)
    requires ArenaInv(st, []) && SizedLists(st.segs) && size % 16 == 0 && BestFit(st.segs, size).Fit?
    ensures GlobalCover(AllocGlobal(st, size).0, p) == GlobalCover(st, p)
  {
    var (segs, b) := TakeBlock(st.segs, size);
    TakeBlockCover(st.segs, size, p);
    CoverConcat(st.gblocks, [b], p);
    assert [b][1..] == [];
  }

  predicate Retires(st: Scope, size: nat)
    requires st.global != [] && st.global[0] in st.arenas
  {
    BestFit(st.segs, size).NoFit? && TailTooShort(st, size)
  }

  // Conservation: one allocation moves bytes between the free lists, the tail
  // and the caller.  It loses bytes only when it retires a tail, then fewer
  // than 16, and gains exactly the payload of a new arena.
  lemma AllocGlobalConserves(st: Scope, size: nat, p: Addr)
    requires Inv(st, []) && size % 16 == 0
    ensures var st' := AllocGlobal(st, size).0;
      && st'.global != [] && st'.global[0] in st'.arenas && HEADER <= st'.arenas[st'.global[0]].limit
      && (!Retires(st, size) ==> GlobalCover(st', p) == GlobalCover(st, p))
      && (Retires(st, size) ==>
           && Lost(st).size < 16 && st'.global[0] !in st.global
           && GlobalCover(st', p) + One(Within(p, Lost(st))) == GlobalCover(st, p) + One(Within(p, Fill(st'))))
  {
    assert ArenaOk(st, st.global[0]);
    if BestFit(st.segs, size).Fit? {
      TakeCover(st, size, p);
    } else if TailTooShort(st, size) {
      RetireArenas(st, size);
      RetireCover(st, size, p);
      BumpCover(Retire(st, size), size, p);
      LostIsShort(st);
    } else {
      BumpCover(st, size, p);
    }
  }

  lemma AllocGlobalOwners(st: Scope, size: nat)
    requires Inv(st, []) && size % 16 == 0
    ensures var st' := AllocGlobal(st, size).0;
      st'.global != [] && st'.global[0] in st'.arenas && Owners(st')
  {
    var st' := AllocGlobal(st, size).0;
    AllocGlobalConserves(st, size, Addr(0, 0));
    forall p ensures GlobalCover(st', p) <= One(InPayload(st', p)) {
      AllocGlobalConserves(st, size, p);
      assert GlobalCover(st, p) <= One(InPayload(st, p));
      if Retires(st, size) {
        RetirePayload(st, size, p);
      }
    }
  }

  // The payload of a new arena joins that of the old ones.
  lemma RetirePayload(st: Scope, size: nat, p: Addr)
    requires ArenaInv(st, []) && Retires(st, size)
    ensures var st' := AllocGlobal(st, size).0;
      && st'.global != [] && st'.global[0] in st'.arenas && HEADER <= st'.arenas[st'.global[0]].limit
      && One(InPayload(st', p)) == One(InPayload(st, p)) + One(Within(p, Fill(st')))
  {
    RetireArenas(st, size);
    ChainSplit(st.global);
    assert Chain(Retire(st, size).global) == [Retire(st, size).global[0]] + Chain(st.global);
  }

  lemma BumpArenas(st: Scope, size: nat)
    requires ArenaInv(st, []) && !TailTooShort(st, size)
    ensures var st' := Bump(st, size).0; ArenaInv(st', [])
  {
    var g := st.global[0];
    var avail := st.arenas[g].avail + size;
    assert ArenaOk(st, g);
    SetAvailArenas(st, g, avail, []);
    SameArenas(SetAvail(st, g, avail), Bump(st, size).0);
  }

  lemma BumpLocals(st: Scope, size: nat)
    requires ArenaInv(st, []) && LocalInv(st, []) && !TailTooShort(st, size)
    ensures LocalInv(Bump(st, size).0, [])
  {
    var st' := Bump(st, size).0;
    if st.global[0] == DUMMY {
      assert st'.arenas[DUMMY] == st.arenas[DUMMY];
    } else {
      OnOneChain(st, [], st.global[0]);
    }
    forall p ensures InLocal(st', [], p) <==> InLocal(st, [], p) {
    }
    LocalFrame(st, st', [], []);
  }

  // A global allocation keeps the whole invariant: in particular no byte ever
  // belongs to two global blocks, free segments or bump tails.
  lemma AllocGlobalInv(st: Scope, size: nat)
    requires Inv(st, []) && size % 16 == 0
    ensures Inv(AllocGlobal(st, size).0, [])
  {
    var st' := AllocGlobal(st, size).0;
    AllocGlobalOwners(st, size);
    if BestFit(st.segs, size).Fit? {
      TakeBlockLists(st.segs, size);
      SameArenas(st, st');
      forall p ensures InLocal(st', [], p) <==> InLocal(st, [], p) {
      }
      LocalFrame(st, st', [], []);
    } else if TailTooShort(st, size) {
      RetireArenas(st, size);
      var st1 := Retire(st, size);
      CarvedSized(st);
      assert st1.segs == TailCarved(st).segs;
      RetireLocals(st, size);
      BumpArenas(st1, size);
      BumpLocals(st1, size);
    } else {
      BumpArenas(st, size);
      BumpLocals(st, size);
    }
  }

  lemma CarvedSized(st: Scope)
    requires Headed(st) && SizedLists(st.segs)
    ensures SizedLists(TailCarved(st).segs) && |TailCarved(st).segs| == |st.segs|
  {
    var a := st.arenas[st.global[0]];
    CarveSized(st.segs, Addr(st.global[0], a.avail), a.limit - a.avail, |st.segs|);
    CarveLists(st.segs, Addr(st.global[0], a.avail), a.limit - a.avail, |st.segs|);
  }

  lemma RetireLocals(st: Scope, size: nat)
    requires ArenaInv(st, []) && LocalInv(st, [])
    ensures var st' := Retire(st, size); st'.local == st.local && LocalInv(st', [])
  {
    assert ArenaOk(st, st.global[0]);
    RetireArenas(st, size);
    var st' := Retire(st, size);
    forall p ensures InLocal(st', [], p) <==> InLocal(st, [], p) {
    }
    LocalFrame(st, st', [], []);
  }

  // ---- pairwise disjointness ------------------------------------------------

  function Flatten(segs: Segments, n: nat): seq<Block>
    requires n <= |segs|
  {
    if n == 0 then [] else Flatten(segs, n - 1) + segs[n - 1]
  }

  lemma {:induction false} FlattenCover(segs: Segments, n: nat, p: Addr)
    requires n <= |segs|
    ensures Cover(Flatten(segs, n), p) == FreeCover(segs, n, p)
  {
    if n > 0 {
      FlattenCover(segs, n - 1, p);
      CoverConcat(Flatten(segs, n - 1), segs[n - 1], p);
    }
  }

  function Tail(st: Scope): Block
    requires Headed(st)
  {
    var a := st.arenas[st.global[0]];
    Block(Addr(st.global[0], a.avail), a.limit - a.avail)
  }

  // Everything on the global side: blocks handed out, free segments, bump tail.
  function GlobalRanges(st: Scope): seq<Block>
    requires Headed(st)
  {
    st.gblocks + (Flatten(st.segs, |st.segs|) + [Tail(st)])
  }

  lemma RangesCover(st: Scope, p: Addr)
    requires Headed(st)
    ensures Cover(GlobalRanges(st), p) == GlobalCover(st, p)
  {
    FlattenCover(st.segs, |st.segs|, p);
    CoverConcat(Flatten(st.segs, |st.segs|), [Tail(st)], p);
    CoverConcat(st.gblocks, Flatten(st.segs, |st.segs|) + [Tail(st)], p);
    assert [Tail(st)][1..] == [];
  }

  // Under the invariant any two non-empty ranges are disjoint, and each lies
  // inside the payload of one global arena.
  predicate Apart(a: Block, b: Block) {
    a.size == 0 || b.size == 0 || Disjoint(a, b)
  }

  lemma GlobalRangesDisjoint(st: Scope, i: nat, j: nat)
    requires Inv(st, []) && i < j < |GlobalRanges(st)|
    ensures Apart(GlobalRanges(st)[i], GlobalRanges(st)[j])
  {
    forall p ensures Cover(GlobalRanges(st), p) <= 1 {
      RangesCover(st, p);
      assert GlobalCover(st, p) <= One(InPayload(st, p));
    }
    CoverDisjoint(GlobalRanges(st), i, j);
  }

  lemma GlobalRangeInArena(st: Scope, i: nat)
    requires Inv(st, []) && i < |GlobalRanges(st)| && GlobalRanges(st)[i].size > 0
    ensures var b := GlobalRanges(st)[i];
      && b.at.arena in Chain(st.global)
      && HEADER <= b.at.off && b.at.off + b.size <= st.arenas[b.at.arena].limit
  {
    var b := GlobalRanges(st)[i];
    var first, last := b.at, Addr(b.at.arena, b.at.off + b.size - 1);
    CoverMember(GlobalRanges(st), b, first);
    CoverMember(GlobalRanges(st), b, last);
    RangesCover(st, first);
    RangesCover(st, last);
    assert GlobalCover(st, first) <= One(InPayload(st, first));
    assert GlobalCover(st, last) <= One(InPayload(st, last));
  }

  // ---- alignment ------------------------------------------------------------

  // Standard arenas end at 4040, which is 8 modulo 16, and tails are carved
  // from the high end.
  predicate TailPhase(a: Arena) {
    a.avail % 16 == 0 && (a.limit >= a.avail + 16 ==> a.limit % 16 == 8)
  }

  ghost predicate PhaseInv(st: Scope)
    requires Headed(st)
  {
    ListsInPhase(st.segs, 8) && TailPhase(st.arenas[st.global[0]])
  }

  lemma BumpPhase(a: Arena, size: nat)
    requires a.avail % 16 == 0 && size % 16 == 0 && a.avail + size <= a.limit
    requires a.limit % 16 == 8 || a.limit == a.avail + size || TailPhase(a)
    ensures TailPhase(Arena(a.avail + size, a.limit))
  {
    AddMultiple(a.avail, size);
  }

  lemma RetirePhase(st: Scope, size: nat)
    requires ArenaInv(st, []) && PhaseInv(st)
    ensures ListsInPhase(Retire(st, size).segs, 8)
  {
    var t := Tail(st);
    CarvePhase(st.segs, t.at, t.size, |st.segs|, 8);
    assert Retire(st, size).segs == TailCarved(st).segs;
  }

  // A global block is aligned as MAKEALIGN intends exactly if it was bumped and
  // not taken from a free list: every block on the lists starts 8 past a
  // multiple of 16.
  lemma AllocGlobalAlignment(st: Scope, size: nat)
    requires ArenaInv(st, []) && SizedLists(st.segs) && PhaseInv(st) && size % 16 == 0
    ensures var (st', at) := AllocGlobal(st, size);
      && Headed(st') && PhaseInv(st')
      && (at.off % 16 == 0 <==> BestFit(st.segs, size).NoFit?)
      && (at.off % 16 == 8 <==> BestFit(st.segs, size).Fit?)
  {
    if BestFit(st.segs, size).Fit? {
      TakeBlockPhase(st.segs, size, 8);
    } else if TailTooShort(st, size) {
      RetireArenas(st, size);
      RetirePhase(st, size);
      var st1 := Retire(st, size);
      assert ARENA_SIZE % 16 == 8 && HEADER % 16 == 0;
      BumpPhase(st1.arenas[st1.global[0]], size);
    } else {
      BumpPhase(st.arenas[st.global[0]], size);
    }
  }

  lemma {:induction false} CarveShortTail(segs: Segments, at: Addr, size: nat, i: nat)
    requires 0 < i <= |segs| && 16 <= size < 32
    ensures Carve(segs, at, size, i) == segs[0 := [Block(Addr(at.arena, at.off + size - 16), 16)] + segs[0]]
  {
    if i > 1 {
      SegSizeMonotone(1, i - 1);
      CarveShortTail(segs, at, size, i - 1);
    }
  }

  // Concretely: a first request of 3984 leaves 24 bytes of an arena; a request
  // of 32 retires it and puts 16 of them on a list, at offset 4024, and the next
  // request of 16 gets that block.
  lemma FirstRequest()
    ensures ArenaInv(Create(), [])
    ensures var st := AllocGlobal(Create(), 3984).0;
      Inv(st, []) && st.segs == Create().segs && st.global[0] == 1 && st.arenas[1] == Arena(4016, 4040)
  {
    CreateInv();
    AllocGlobalInv(Create(), 3984);
    assert BestFit(Create().segs, 3984).NoFit?;
  }

  lemma SecondRequest(st: Scope)
    requires ArenaInv(st, []) && st.segs == Create().segs && st.global[0] == 1 && st.arenas[1] == Arena(4016, 4040)
    ensures var segs := AllocGlobal(st, 32).0.segs; segs != [] && segs[0] == [Block(Addr(1, 4024), 16)]
  {
    CarveShortTail(st.segs, Addr(1, 4016), 24, |st.segs|);
    assert AllocGlobal(st, 32).0.segs == TailCarved(st).segs;
  }

  lemma ThirdRequest(st: Scope)
    requires ArenaInv(st, []) && st.segs != [] && st.segs[0] == [Block(Addr(1, 4024), 16)]
    ensures AllocGlobal(st, 16).1 == Addr(1, 4024)
  {
    assert Fits(st.segs, 16, 0);
    assert BestFit(st.segs, 16) == Fit(0);
  }

  lemma MisalignedBlock() returns (st1: Scope, st2: Scope)
    ensures ArenaInv(Create(), []) && st1 == AllocGlobal(Create(), 3984).0
    ensures ArenaInv(st1, []) && st2 == AllocGlobal(st1, 32).0
    ensures ArenaInv(st2, []) && AllocGlobal(st2, 16).1 == Addr(1, 4024)
  {
    FirstRequest();
    st1 := AllocGlobal(Create(), 3984).0;
    SecondRequest(st1);
    AllocGlobalInv(st1, 32);
    st2 := AllocGlobal(st1, 32).0;
    ThirdRequest(st2);
  }
}
