// The local side: a stack of arenas, scopes marked by the avail pointer at
// entry, and leave_local, which releases newer arenas and moves survivors out.
module MscopeLocal {
  import opened MscopeBlocks
  import opened MscopeState

  predicate LocalHeaded(st: Scope) {
    && st.local != [] && st.local[0] in st.arenas
    && forall h :: h in st.frees ==> h in st.arenas
  }

  // A new arena in front of the local chain if the request does not fit.
  function Room(st: Scope, total: nat): Scope
    requires LocalHeaded(st)
  {
    var a := st.arenas[st.local[0]];
    if a.avail + total > a.limit then
      var (st1, h) := Acquire(st, total);
      st1.(local := [h] + st1.local)
    else st
  }

  function AllocLocal(st: Scope, size: nat): (r: (Scope, Addr))
    requires LocalHeaded(st)
    ensures LocalHeaded(r.0)
  {
    var total := size + ALIGNMENT;
    var st1 := Room(st, total);
    (PushBlock(st1, TopBlock(st1, total)), Payload(TopBlock(st1, total)))
  }

  // The next block of the current local arena.
  function TopBlock(st: Scope, total: nat): Block
    requires LocalHeaded(st)
  {
    Block(Addr(st.local[0], st.arenas[st.local[0]].avail), total)
  }

  // Hand out b: move avail over it and write its size word.
  function PushBlock(st: Scope, b: Block): Scope
    requires b.at.arena in st.arenas && b.size >= ALIGNMENT
  {
    SetAvail(st, b.at.arena, b.at.off + b.size).(
      sizes := st.sizes[Payload(b) := b.size - ALIGNMENT], lblocks := st.lblocks + [b])
  }

  // ---- allocation keeps the invariant ---------------------------------------

  lemma PushLocal(st: Scope, h: nat, pend: seq<nat>)
    requires ArenaInv(st, [h] + pend) && h in st.arenas
    ensures ArenaInv(st.(local := [h] + st.local), pend)
  {
    var st' := st.(local := [h] + st.local);
    HandlesPush(st, pend, h);
    assert Chain(st'.local) == [h] + Chain(st.local);
    forall x: nat ensures Handles(st', pend)[x] == One(1 <= x <= st'.obtained) {
      assert Handles(st', pend) == Handles(st, [h] + pend);
      assert Handles(st, [h] + pend)[x] == One(1 <= x <= st.obtained);
    }
    forall x | x in st'.arenas ensures x <= st'.obtained && ArenaOk(st', x) {
      assert ArenaOk(st, x);
    }
  }

  lemma RoomInv(st: Scope, total: nat, pend: seq<nat>)
    requires Inv(st, pend) && total > 0
    ensures var st' := Room(st, total);
      && Inv(st', pend) && LocalHeaded(st') && st'.local[0] != DUMMY
      && st'.arenas[st'.local[0]].avail + total <= st'.arenas[st'.local[0]].limit
  {
    var a := st.arenas[st.local[0]];
    assert ArenaOk(st, st.local[0]);
    if a.avail + total > a.limit {
      var (st1, h) := Acquire(st, total);
      AcquireInv(st, total, pend);
      PushLocal(st1, h, pend);
      var st' := st1.(local := [h] + st1.local);
      GlobalFrame(st1, st');
      assert Chain(st'.local) == [h] + Chain(st1.local);
      forall p ensures InLocal(st', pend, p) <==> InLocal(st1, [h] + pend, p) {
      }
      LocalFrame(st1, st', [h] + pend, pend);
    }
  }

  // A live block lies below the avail pointer of a local arena.
  lemma BlockBelowAvail(st: Scope, pend: seq<nat>, b: Block)
    requires Inv(st, pend) && b in st.lblocks
    ensures b.at.arena in Chain(st.local) + pend && b.at.arena in st.arenas && b.size >= ALIGNMENT
    ensures HEADER <= b.at.off && b.at.off + b.size <= st.arenas[b.at.arena].avail <= st.arenas[b.at.arena].limit
    ensures ArenaOk(st, b.at.arena) && SizeWord(st, b)
  {
    var i :| 0 <= i < |st.lblocks| && st.lblocks[i] == b;
    assert SizeWord(st, st.lblocks[i]);
    var first, last := b.at, Addr(b.at.arena, b.at.off + b.size - 1);
    CoverMember(st.lblocks, b, first);
    CoverMember(st.lblocks, b, last);
    assert Cover(st.lblocks, first) == One(InLocal(st, pend, first));
    assert Cover(st.lblocks, last) == One(InLocal(st, pend, last));
  }

  // Two local blocks share no byte.
  lemma LocalBlocksDisjoint(st: Scope, pend: seq<nat>, b: Block, c: Block)
    requires Inv(st, pend) && b in st.lblocks && c in st.lblocks && b != c
    ensures Disjoint(b, c)
  {
    hide ArenaInv, GlobalInv, InLocal;
    BlockBelowAvail(st, pend, b);
    BlockBelowAvail(st, pend, c);
    var i :| 0 <= i < |st.lblocks| && st.lblocks[i] == b;
    var j :| 0 <= j < |st.lblocks| && st.lblocks[j] == c;
    AtMostOne(st, pend);
    if i < j {
      CoverDisjoint(st.lblocks, i, j);
    } else {
      CoverDisjoint(st.lblocks, j, i);
    }
  }

  lemma AtMostOne(st: Scope, pend: seq<nat>)
    requires Inv(st, pend)
    ensures forall p :: Cover(st.lblocks, p) <= 1
  {
    hide HandleInv, GlobalInv, InLocal;
    forall p ensures Cover(st.lblocks, p) <= 1 {
      assert Cover(st.lblocks, p) == One(InLocal(st, pend, p));
    }
  }

  lemma PushBlockLocals(st: Scope, b: Block, pend: seq<nat>)
    requires Inv(st, pend) && b.at.arena in Chain(st.local) && b.at.arena in st.arenas
    requires b.at.off == st.arenas[b.at.arena].avail && b.size >= ALIGNMENT
    ensures LocalInv(PushBlock(st, b), pend)
  {
    var st' := PushBlock(st, b);
    forall p ensures Cover(st'.lblocks, p) == One(InLocal(st', pend, p)) {
      CoverConcat(st.lblocks, [b], p);
      assert [b][1..] == [];
      assert Cover(st.lblocks, p) == One(InLocal(st, pend, p));
      assert ArenaOk(st, b.at.arena);
    }
    forall i | 0 <= i < |st'.lblocks| ensures SizeWord(st', st'.lblocks[i]) {
      if i < |st.lblocks| {
        assert SizeWord(st, st.lblocks[i]);
        BlockBelowAvail(st, pend, st.lblocks[i]);
      }
    }
  }

  lemma PushBlockArenas(st: Scope, b: Block, pend: seq<nat>)
    requires ArenaInv(st, pend) && b.at.arena in st.arenas && b.size >= ALIGNMENT
    requires b.at.off == st.arenas[b.at.arena].avail && b.at.off + b.size <= st.arenas[b.at.arena].limit
    ensures ArenaInv(PushBlock(st, b), pend)
  {
    assert ArenaOk(st, b.at.arena);
    SetAvailArenas(st, b.at.arena, b.at.off + b.size, pend);
    SameArenasLocal(SetAvail(st, b.at.arena, b.at.off + b.size), PushBlock(st, b), pend);
  }

  lemma TopBump(st: Scope, total: nat, pend: seq<nat>)
    requires Inv(st, pend) && LocalHeaded(st) && st.local[0] != DUMMY && total >= ALIGNMENT
    requires st.arenas[st.local[0]].avail + total <= st.arenas[st.local[0]].limit
    ensures Inv(PushBlock(st, TopBlock(st, total)), pend)
  {
    var b := TopBlock(st, total);
    ChainSplit(st.local);
    OnOneChain(st, pend, b.at.arena);
    PushBlockLocals(st, b, pend);
    PushBlockArenas(st, b, pend);
    GlobalFrame(st, PushBlock(st, b));
  }

  lemma SameArenasLocal(st: Scope, st': Scope, pend: seq<nat>)
    requires ArenaInv(st, pend) && st'.arenas == st.arenas && st'.obtained == st.obtained
    requires st'.local == st.local && st'.global == st.global && st'.frees == st.frees && st'.returned == st.returned
    requires forall h :: h in st.arenas ==> h in st'.bytes && |st'.bytes[h]| == |st.bytes[h]|
    ensures ArenaInv(st', pend)
  {
    assert Handles(st', pend) == Handles(st, pend);
    forall h: nat ensures Handles(st', pend)[h] == One(1 <= h <= st'.obtained) {
      assert Handles(st, pend)[h] == One(1 <= h <= st.obtained);
    }
    forall h | h in st'.arenas ensures h <= st'.obtained && ArenaOk(st', h) {
      assert ArenaOk(st, h);
    }
  }

  // What one local allocation does to the rest of the state.
  lemma AllocLocalInv(st: Scope, size: nat, pend: seq<nat>)
    requires Inv(st, pend)
    ensures var (st', p) := AllocLocal(st, size);
      && Inv(st', pend)
      && p.off >= ALIGNMENT
      && st'.lblocks == st.lblocks + [Block(Addr(p.arena, p.off - ALIGNMENT), size + ALIGNMENT)]
      && p.arena == st'.local[0] && st'.local[0] in Chain(st'.local)
  {
    assert LocalHeaded(st) by {
      hide GlobalInv, LocalInv;
    }
    hide Inv, Room;
    var total := size + ALIGNMENT;
    RoomInv(st, total, pend);
    RoomBlocks(st, total);
    TopBump(Room(st, total), total, pend);
    ChainSplit(Room(st, total).local);
  }

  lemma RoomBlocks(st: Scope, total: nat)
    requires LocalHeaded(st)
    ensures Room(st, total).lblocks == st.lblocks
  {
  }
}
