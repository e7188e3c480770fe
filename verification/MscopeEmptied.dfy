// Where a leave puts the arenas of the scopes it closes: a standard arena is
// emptied of its survivors and cached, an oversized one stays behind the top of
// the chain if it holds a survivor and goes back if not.
module MscopeEmptied {
  import opened MscopeBlocks
  import opened MscopeState
  import opened MscopeLocal
  import opened MscopeLeave
  import opened MscopeSurvive
  import opened MscopeScopes

  predicate Standard(st0: Scope, h: nat) {
    h in st0.arenas && st0.arenas[h].limit == ARENA_SIZE
  }

  predicate Used(cells0: seq<Cell>, h: nat) {
    exists k :: 0 <= k < |cells0| && PointsInto(cells0[k], h)
  }

  // b is the copy of a survivor, c0 before and c now, out of another arena, which
  // is a standard one.
  predicate CopyOf(st0: Scope, newer: seq<nat>, c0: Cell, c: Cell, b: Block) {
    && FromNewer(c0, newer) && Standard(st0, c0.at.arena)
    && c == Inside(Payload(b)) && b.at.arena != c0.at.arena
  }

  predicate Copied(st0: Scope, newer: seq<nat>, cells0: seq<Cell>, cells: seq<Cell>, b: Block)
    requires |cells| == |cells0|
  {
    exists k :: 0 <= k < |cells0| && CopyOf(st0, newer, cells0[k], cells[k], b)
  }

  // b has not been touched: it is the parent's, its turn is yet to come, or its
  // arena is oversized.
  predicate Stays(st0: Scope, sign: Addr, newer: seq<nat>, todo: seq<nat>, b: Block) {
    && b in st0.lblocks
    && (OfParent(sign, newer, b) || b.at.arena in todo || (b.at.arena in newer && !Standard(st0, b.at.arena)))
  }

  ghost predicate Blocks(st0: Scope, sign: Addr, newer: seq<nat>, cells0: seq<Cell>, st: Scope, cells: seq<Cell>,
                         todo: seq<nat>)
    requires |cells| == |cells0|
  {
    forall b :: b in st.lblocks ==> Stays(st0, sign, newer, todo, b) || Copied(st0, newer, cells0, cells, b)
  }

  predicate Holding(st: Scope, h: nat) {
    exists i :: 0 <= i < |st.lblocks| && st.lblocks[i].at.arena == h
  }

  // The chain ends in the arenas older than the signature's.
  predicate Ahead(older: seq<nat>, st: Scope) {
    |older| < |st.local| && st.local[|st.local| - |older|..] == older
  }

  function OlderChain(st: Scope, sign: Addr): seq<nat>
    requires SignInChain(st, sign)
  {
    st.local[IndexOf(st.local, sign.arena) + 1..]
  }

  // The place of an arena that has had its turn.
  predicate Placed(st0: Scope, cells0: seq<Cell>, older: seq<nat>, st: Scope, h: nat)
    requires st.local != []
  {
    if Standard(st0, h) then h in st.frees || (h in Chain(st.local) && Holding(st, h))
    else if Used(cells0, h) then Ahead(older, st) && h in st.local[1..|st.local| - |older|]
    else h in st.returned
  }

  predicate SameLimit(st0: Scope, st: Scope, h: nat) {
    h in st0.arenas && h in st.arenas && st.arenas[h].limit == st0.arenas[h].limit
  }

  ghost predicate Places(st0: Scope, newer: seq<nat>, cells0: seq<Cell>, older: seq<nat>, st: Scope, todo: seq<nat>)
    requires st.local != []
  {
    && (forall h :: h in newer ==> SameLimit(st0, st, h))
    && (forall h :: h in newer && h !in todo ==> Placed(st0, cells0, older, st, h))
  }

  // Survivors in oversized arenas are not moved.
  predicate Unmoved(st0: Scope, newer: seq<nat>, cells0: seq<Cell>, cells: seq<Cell>)
    requires |cells| == |cells0|
  {
    forall j :: 0 <= j < |cells| && FromNewer(cells0[j], newer) && !Standard(st0, cells0[j].at.arena) ==>
      cells[j] == cells0[j]
  }

  // All that is claimed of a leave under way.
  ghost predicate Emptying(st0: Scope, sign: Addr, cells0: seq<Cell>, newer: seq<nat>, older: seq<nat>,
                           st: Scope, cells: seq<Cell>, todo: seq<nat>) {
    && |cells| == |cells0| && st.local != []
    && Blocks(st0, sign, newer, cells0, st, cells, todo)
    && Ahead(older, st) && Places(st0, newer, cells0, older, st, todo)
    && Unmoved(st0, newer, cells0, cells)
  }

  // ---- one survivor moved -------------------------------------------------------

  // The chain, and the cache, after one local allocation.
  predicate Advanced(st: Scope, st': Scope) {
    && st.local != [] && st'.local != []
    && st'.returned == st.returned
    && (forall h :: h in st.arenas ==> h in st'.arenas && st'.arenas[h].limit == st.arenas[h].limit)
    && (st'.local == st.local || st'.local[1..] == st.local)
    && (forall h :: h in st.frees ==> h in st'.frees || h == st'.local[0])
  }

  lemma AllocAdvances(st: Scope, size: nat, pend: seq<nat>)
    requires ArenaInv(st, pend)
    ensures Advanced(st, AllocLocal(st, size).0)
  {
    if st.frees != [] {
      assert st.frees == [st.frees[0]] + st.frees[1..];
    }
  }

  lemma RelocateAdvances(st: Scope, src: Addr, pend: seq<nat>)
    requires ArenaInv(st, pend)
    ensures Advanced(st, Relocate(st, src).0)
  {
    AllocAdvances(st, SizeOf(st, src), pend);
  }

  lemma AdvancedPlaced(st0: Scope, cells0: seq<Cell>, older: seq<nat>, st: Scope, st': Scope, nb: Block, h: nat)
    requires Advanced(st, st') && st'.lblocks == st.lblocks + [nb] && nb.at.arena == st'.local[0]
    requires st'.local[0] in Chain(st'.local) && Placed(st0, cells0, older, st, h)
    ensures Placed(st0, cells0, older, st', h)
  {
    if Standard(st0, h) {
      if h == st'.local[0] {
        assert st'.lblocks[|st.lblocks|].at.arena == h;
      } else if h !in st'.frees {
        var i :| 0 <= i < |st.lblocks| && st.lblocks[i].at.arena == h;
        assert st'.lblocks[i].at.arena == h;
        ChainGrows(st.local, st'.local, h);
      }
    } else if Used(cells0, h) {
      assert st'.local != st.local ==> st'.local[1..] == st.local;
    }
  }

  lemma ChainGrows(a: seq<nat>, b: seq<nat>, h: nat)
    requires a != [] && b != [] && (b == a || b[1..] == a) && h in Chain(a)
    ensures h in Chain(b)
  {
    if b != a {
      assert Chain(b) == [b[0]] + Chain(a);
    }
  }

  // The block cell j points at, moved out of the arena cur.
  lemma RelocateBlocks(st0: Scope, sign: Addr, cells0: seq<Cell>, newer: seq<nat>, st: Scope, st': Scope,
                       cells: seq<Cell>, todo: seq<nat>, j: nat, nb: Block)
    requires |cells| == |cells0| && Blocks(st0, sign, newer, cells0, st, cells, todo)
    requires st'.lblocks == st.lblocks + [nb] && j < |cells| && cells[j] == cells0[j]
    requires FromNewer(cells0[j], newer) && Standard(st0, cells0[j].at.arena) && nb.at.arena != cells0[j].at.arena
    ensures Blocks(st0, sign, newer, cells0, st', cells[j := Inside(Payload(nb))], todo)
  {
    var cells' := cells[j := Inside(Payload(nb))];
    forall b | b in st'.lblocks
      ensures Stays(st0, sign, newer, todo, b) || Copied(st0, newer, cells0, cells', b)
    {
      if b in st.lblocks {
        if !Stays(st0, sign, newer, todo, b) {
          var k :| 0 <= k < |cells0| && CopyOf(st0, newer, cells0[k], cells[k], b);
          assert CopyOf(st0, newer, cells0[k], cells'[k], b);
        }
      } else {
        assert CopyOf(st0, newer, cells0[j], cells'[j], b);
      }
    }
  }

  lemma RelocatePlaces(st0: Scope, newer: seq<nat>, cells0: seq<Cell>, older: seq<nat>, st: Scope, st': Scope,
                       todo: seq<nat>, nb: Block)
    requires st.local != [] && Places(st0, newer, cells0, older, st, todo) && Advanced(st, st')
    requires st'.lblocks == st.lblocks + [nb] && nb.at.arena == st'.local[0] && st'.local[0] in Chain(st'.local)
    ensures Places(st0, newer, cells0, older, st', todo)
  {
    hide Placed, Advanced;
    AdvancedLimits(st, st');
    forall h | h in newer ensures SameLimit(st0, st', h) {
      assert SameLimit(st0, st, h);
    }
    forall h | h in newer && h !in todo ensures Placed(st0, cells0, older, st', h) {
      AdvancedPlaced(st0, cells0, older, st, st', nb, h);
    }
  }

  lemma AdvancedLimits(st: Scope, st': Scope)
    requires Advanced(st, st')
    ensures forall h :: h in st.arenas ==> h in st'.arenas && st'.arenas[h].limit == st.arenas[h].limit
  {
  }

  // A cell that still points into an arena whose turn has not passed is the
  // caller's.
  lemma NotYetMoved(st0: Scope, sign: Addr, cells0: seq<Cell>, newer: seq<nat>,
                    st: Scope, cells: seq<Cell>, todo: seq<nat>, j: nat)
    requires Leaving(st0, sign, cells0, newer, st, cells, todo)
    requires j < |cells| && cells[j].Inside? && cells[j].at.arena in todo && cells[j].at.arena in newer
    ensures |cells| == |cells0| && cells[j] == cells0[j] && FromNewer(cells0[j], newer)
    ensures BlockAt(st, cells[j].at) in st.lblocks && Payload(BlockAt(st, cells[j].at)) == cells[j].at
  {
    hide Inv, Kept, Copies;
    assert Tracked(st0, cells0[j], newer, st, cells[j], todo);
  }

  lemma RelocateEmpties(st0: Scope, sign: Addr, cells0: seq<Cell>, newer: seq<nat>, older: seq<nat>,
                        st: Scope, cells: seq<Cell>, cur: nat, todo: seq<nat>, j: nat)
    requires Leaving(st0, sign, cells0, newer, st, cells, todo)
    requires Emptying(st0, sign, cells0, newer, older, st, cells, todo)
    requires j < |cells| && cur in newer && cur in todo && PointsInto(cells[j], cur) && Standard(st0, cur)
    ensures var (st', p) := Relocate(st, cells[j].at);
      Emptying(st0, sign, cells0, newer, older, st', cells[j := Inside(p)], todo)
  {
    hide Blocks, Places, Relocate, BlockAt, GlobalInv, LocalInv, HandleInv, ArenaOk, Track, Kept, Copies, Handles,
         Advanced;
    NotYetMoved(st0, sign, cells0, newer, st, cells, todo, j);
    var b0 := BlockAt(st, cells[j].at);
    var (st', p) := Relocate(st, cells[j].at);
    var nb := BlockAt(st', p);
    RelocateInv(st, b0, todo);
    RelocateAdvances(st, cells[j].at, todo);
    NotInHand(st', todo, p.arena);
    RelocateBlocks(st0, sign, cells0, newer, st, st', cells, todo, j, nb);
    AdvancedHeaded(st, st');
    RelocatePlaces(st0, newer, cells0, older, st, st', todo, nb);
  }

  lemma AdvancedHeaded(st: Scope, st': Scope)
    requires Advanced(st, st')
    ensures st'.local != []
  {
  }

  // ---- an arena done with -------------------------------------------------------

  lemma InsetEmpties(st0: Scope, sign: Addr, cells0: seq<Cell>, newer: seq<nat>, older: seq<nat>,
                     st: Scope, cells: seq<Cell>, cur: nat, pend: seq<nat>)
    requires Emptying(st0, sign, cells0, newer, older, st, cells, [cur] + pend)
    requires cur in newer && !Standard(st0, cur) && Used(cells0, cur) && |st.local| >= 2
    ensures Emptying(st0, sign, cells0, newer, older, Inset(st, cur), cells, pend)
  {
    hide Used;
    var st' := Inset(st, cur);
    forall b | b in st'.lblocks ensures Stays(st0, sign, newer, pend, b) || Copied(st0, newer, cells0, cells, b) {
      assert Stays(st0, sign, newer, [cur] + pend, b) || Copied(st0, newer, cells0, cells, b);
    }
    InsetChain(st.local, cur);
    forall h | h in newer ensures SameLimit(st0, st', h) {
      assert SameLimit(st0, st, h);
    }
    forall h | h in newer && h !in pend ensures Placed(st0, cells0, older, st', h) {
      if h == cur {
        assert st'.local[1] == cur;
      } else {
        assert Placed(st0, cells0, older, st, h);
        InsetPlaced(st0, cells0, older, st, cur, h);
      }
    }
  }

  lemma InsetSlices(s: seq<nat>, cur: nat, n: nat)
    requires |s| >= 2 && 1 <= n <= |s|
    ensures var t := [s[0], cur] + s[1..];
      t[1..n + 1] == [cur] + s[1..n] && t[n + 1..] == s[n..]
  {
    var t := [s[0], cur] + s[1..];
    assert forall i :: 1 <= i < |s| ==> t[i + 1] == s[i];
  }

  lemma InsetPlaced(st0: Scope, cells0: seq<Cell>, older: seq<nat>, st: Scope, cur: nat, h: nat)
    requires |st.local| >= 2 && Placed(st0, cells0, older, st, h)
    ensures Placed(st0, cells0, older, Inset(st, cur), h)
  {
    hide Used;
    var st' := Inset(st, cur);
    InsetChain(st.local, cur);
    if Ahead(older, st) {
      InsetSlices(st.local, cur, |st.local| - |older|);
    }
    assert Holding(st, h) ==> Holding(st', h);
  }

  lemma ReleaseEmpties(st0: Scope, sign: Addr, cells0: seq<Cell>, newer: seq<nat>, older: seq<nat>,
                       st: Scope, cells: seq<Cell>, cur: nat, pend: seq<nat>)
    requires Leaving(st0, sign, cells0, newer, st, cells, [cur] + pend)
    requires Emptying(st0, sign, cells0, newer, older, st, cells, [cur] + pend)
    requires cur in newer && cur in st.arenas && NonePointsInto(cells, |cells|, cur)
    ensures Emptying(st0, sign, cells0, newer, older, Release(st, cur), cells, pend)
  {
    hide Inv, Track, Kept, Copies, Leaving, Used, Placed;
    var st' := Release(st, cur);
    forall b | b in st'.lblocks ensures Stays(st0, sign, newer, pend, b) || Copied(st0, newer, cells0, cells, b) {
      WithoutMember(st.lblocks, cur, b);
      assert Stays(st0, sign, newer, [cur] + pend, b) || Copied(st0, newer, cells0, cells, b);
    }
    forall h | h in newer ensures SameLimit(st0, st', h) {
      assert SameLimit(st0, st, h);
    }
    forall h | h in newer && h !in pend ensures Placed(st0, cells0, older, st', h) {
      if h == cur {
        NoneUsed(st0, cells0, newer, cells, cur);
        assert Inv(st, [cur] + pend) by { LeavingInv(st0, sign, cells0, newer, st, cells, [cur] + pend); }
        InHand(st, cur, pend);
        CurPlaced(st0, cells0, older, st, cur);
      } else {
        ReleasePlaced(st0, cells0, older, st, cur, h);
      }
    }
  }

  // An oversized arena that no cell points into held no survivor at the start.
  lemma NoneUsed(st0: Scope, cells0: seq<Cell>, newer: seq<nat>, cells: seq<Cell>, cur: nat)
    requires |cells| == |cells0| && Unmoved(st0, newer, cells0, cells)
    requires cur in newer && NonePointsInto(cells, |cells|, cur)
    ensures Used(cells0, cur) ==> Standard(st0, cur)
  {
  }

  lemma LeavingInv(st0: Scope, sign: Addr, cells0: seq<Cell>, newer: seq<nat>,
                   st: Scope, cells: seq<Cell>, todo: seq<nat>)
    requires Leaving(st0, sign, cells0, newer, st, cells, todo)
    ensures Inv(st, todo) && LocalHeaded(st)
  {
  }

  lemma InHand(st: Scope, cur: nat, pend: seq<nat>)
    requires Inv(st, [cur] + pend) && cur in st.arenas
    ensures ArenaOk(st, cur) && cur != DUMMY
  {
    hide Handles, GlobalInv, LocalInv;
    SinglePlace(st, pend, cur);
  }

  lemma CurPlaced(st0: Scope, cells0: seq<Cell>, older: seq<nat>, st: Scope, cur: nat)
    requires st.local != [] && SameLimit(st0, st, cur) && ArenaOk(st, cur) && cur != DUMMY
    requires Used(cells0, cur) ==> Standard(st0, cur)
    ensures Placed(st0, cells0, older, Release(st, cur), cur)
  {
    hide Used;
  }

  lemma ReleasePlaced(st0: Scope, cells0: seq<Cell>, older: seq<nat>, st: Scope, cur: nat, h: nat)
    requires st.local != [] && cur in st.arenas && Placed(st0, cells0, older, st, h) && h != cur
    ensures Placed(st0, cells0, older, Release(st, cur), h)
  {
    hide Used;
    if Holding(st, h) {
      var i :| 0 <= i < |st.lblocks| && st.lblocks[i].at.arena == h;
      WithoutMember(st.lblocks, cur, st.lblocks[i]);
    }
  }

  // ---- the whole leave ----------------------------------------------------------

  lemma {:induction false} MoveOutEmpties(st0: Scope, sign: Addr, cells0: seq<Cell>, newer: seq<nat>, older: seq<nat>,
                         st: Scope, cells: seq<Cell>, cur: nat, pend: seq<nat>, j: nat)
    requires Leaving(st0, sign, cells0, newer, st, cells, [cur] + pend)
    requires Emptying(st0, sign, cells0, newer, older, st, cells, [cur] + pend)
    requires cur in newer && cur in st.arenas && j <= |cells| && NonePointsInto(cells, j, cur)
    ensures var r := MoveOut(st, cells, cur, j);
      && (r.Scanned? && r.inset ==> Emptying(st0, sign, cells0, newer, older, r.st, r.cells, pend))
      && (r.Scanned? && !r.inset ==> Emptying(st0, sign, cells0, newer, older, r.st, r.cells, [cur] + pend))
    decreases |cells| - j
  {
    hide Leaving, Emptying, Relocate, Used, Standard;
    LeavingInv(st0, sign, cells0, newer, st, cells, [cur] + pend);
    StandardOrNot(st0, sign, cells0, newer, older, st, cells, cur, pend);
    if j == |cells| {
    } else if !PointsInto(cells[j], cur) {
      MoveOutEmpties(st0, sign, cells0, newer, older, st, cells, cur, pend, j + 1);
    } else if st.arenas[cur].limit > ARENA_SIZE {
      if |st.local| >= 2 {
        NotYetMoved(st0, sign, cells0, newer, st, cells, [cur] + pend, j);
        UsedBy(cells0, j, cur);
        InsetEmpties(st0, sign, cells0, newer, older, st, cells, cur, pend);
      }
    } else {
      var (st1, p) := Relocate(st, cells[j].at);
      RelocateLeaves(st0, sign, cells0, newer, st, cells, cur, [cur] + pend, j);
      RelocateEmpties(st0, sign, cells0, newer, older, st, cells, cur, [cur] + pend, j);
      MoveOutEmpties(st0, sign, cells0, newer, older, st1, cells[j := Inside(p)], cur, pend, j + 1);
    }
  }

  lemma UsedBy(cells0: seq<Cell>, j: nat, cur: nat)
    requires j < |cells0| && PointsInto(cells0[j], cur)
    ensures Used(cells0, cur)
  {
  }

  lemma StandardOrNot(st0: Scope, sign: Addr, cells0: seq<Cell>, newer: seq<nat>, older: seq<nat>,
                      st: Scope, cells: seq<Cell>, cur: nat, pend: seq<nat>)
    requires Inv(st, [cur] + pend) && Emptying(st0, sign, cells0, newer, older, st, cells, [cur] + pend)
    requires cur in newer && cur in st.arenas
    ensures Standard(st0, cur) <==> !(st.arenas[cur].limit > ARENA_SIZE)
    ensures |st.local| < 2 ==> st.local == [DUMMY]
  {
    hide Blocks, Unmoved, GlobalInv, LocalInv, HandleInv, Placed;
    InHand(st, cur, pend);
    assert SameLimit(st0, st, cur);
  }

  lemma {:induction false} ReleaseAllEmpties(st0: Scope, sign: Addr, cells0: seq<Cell>, newer: seq<nat>,
                            older: seq<nat>, st: Scope, cells: seq<Cell>, chain: seq<nat>)
    requires Leaving(st0, sign, cells0, newer, st, cells, chain)
    requires Emptying(st0, sign, cells0, newer, older, st, cells, chain)
    requires forall h :: h in chain ==> h in newer && h in st.arenas
    ensures LocalHeaded(st)
    ensures var r := ReleaseAll(st, cells, chain);
      r.Left? ==> Emptying(st0, sign, cells0, newer, older, r.st, r.cells, [])
    decreases |chain|
  {
    hide Leaving, Emptying, Release;
    LeavingInv(st0, sign, cells0, newer, st, cells, chain);
    if chain != [] {
      var cur, pend := chain[0], chain[1..];
      assert chain == [cur] + pend;
      var r := MoveOut(st, cells, cur, 0);
      MoveOutArenas(st, cells, cur, 0);
      MoveOutLeaves(st0, sign, cells0, newer, st, cells, cur, pend, 0);
      MoveOutEmpties(st0, sign, cells0, newer, older, st, cells, cur, pend, 0);
      if r.Abort? {
      } else if r.inset {
        ReleaseAllEmpties(st0, sign, cells0, newer, older, r.st, r.cells, pend);
      } else {
        ReleaseLeaves(st0, sign, cells0, newer, r.st, r.cells, cur, pend);
        ReleaseEmpties(st0, sign, cells0, newer, older, r.st, r.cells, cur, pend);
        ReleasedHeaded(r.st, cur);
        ReleaseAllEmpties(st0, sign, cells0, newer, older, Release(r.st, cur), r.cells, pend);
      }
    }
  }

  lemma ReleasedHeaded(st: Scope, cur: nat)
    requires cur in st.arenas
    ensures Release(st, cur).arenas == st.arenas
  {
  }

  lemma EmptyingStarts(st: Scope, sign: Addr, cells: seq<Cell>)
    requires Inv(st, []) && ValidSign(st, sign) && ValidCells(st, cells)
    ensures Emptying(st, sign, cells, Newer(st, sign), OlderChain(st, sign), Rewound(st, sign), cells, Newer(st, sign))
  {
    hide Inv, Used;
    RewoundInv(st, sign);
    var st1 := Rewound(st, sign);
    var newer := Newer(st, sign);
    forall b | b in st1.lblocks
      ensures Stays(st, sign, newer, newer, b) || Copied(st, newer, cells, cells, b)
    {
      BelowMember(st.lblocks, sign, b);
    }
    assert forall h :: h in newer ==> h in st.local;
  }

  // The survivor was moved out of its arena if that is a standard one, and is
  // where it was if not.
  predicate Evacuated(st0: Scope, c0: Cell, c: Cell)
    requires c0.Inside?
  {
    if Standard(st0, c0.at.arena) then c.Inside? && c.at.arena != c0.at.arena else c == c0
  }

  // Whatever the survivors, leaving empties the arenas of the scopes it closes.
  // Each survivor of a standard arena is moved out of it; the arena is cached, or
  // is on the chain again for copies out of other arenas and holds nothing else.
  // An oversized arena goes behind the top of the chain, but in front of the arenas
  // older than the signature's, if a cell points into it, and back if none does.
  // No block is left but the parent's, those of oversized arenas and the copies.
  lemma LeaveEmptiesArenas(st: Scope, sign: Addr, cells: seq<Cell>)
    requires Inv(st, []) && ValidSign(st, sign) && ValidCells(st, cells)
    ensures forall j :: 0 <= j < |cells| ==> !FirstLoopMoves(st, sign, cells[j])
    ensures var r, newer := Leave(st, sign, cells), Newer(st, sign);
      r.Left? ==>
        && |r.cells| == |cells| && r.st.local != []
        && (forall j :: 0 <= j < |cells| && FromNewer(cells[j], newer) ==> Evacuated(st, cells[j], r.cells[j]))
        && (forall h :: h in newer ==> Placed(st, cells, OlderChain(st, sign), r.st, h))
        && (forall b :: b in r.st.lblocks ==>
             Stays(st, sign, newer, [], b) || Copied(st, newer, cells, r.cells, b))
        && (forall b :: b in r.st.lblocks && b.at.arena in newer && Standard(st, b.at.arena) ==>
             Copied(st, newer, cells, r.cells, b))
  {
    hide Inv, Leaving, ValidSign, ValidCells, Used, Placed, Copied, Standard, Rewound, Evacuated;
    CanLeave(st, sign);
    LeaveInv(st, sign, cells);
    LeavingStarts(st, sign, cells);
    EmptyingStarts(st, sign, cells);
    var newer := Newer(st, sign);
    assert forall h :: h in newer ==> h in st.local;
    ReleaseAllEmpties(st, sign, cells, newer, OlderChain(st, sign), Rewound(st, sign), cells, newer);
    var r := Leave(st, sign, cells);
    if r.Left? {
      forall j | 0 <= j < |cells| && FromNewer(cells[j], newer) ensures Evacuated(st, cells[j], r.cells[j]) {
        SurvivorEvacuated(st, sign, cells, newer, OlderChain(st, sign), r.st, r.cells, j);
      }
    }
  }

  lemma CanLeave(st: Scope, sign: Addr)
    requires Inv(st, []) && ValidSign(st, sign)
    ensures LocalHeaded(st) && SignInChain(st, sign)
  {
  }

  lemma SurvivorEvacuated(st0: Scope, sign: Addr, cells0: seq<Cell>, newer: seq<nat>, older: seq<nat>,
                          st: Scope, cells: seq<Cell>, j: nat)
    requires Leaving(st0, sign, cells0, newer, st, cells, [])
    requires Emptying(st0, sign, cells0, newer, older, st, cells, [])
    requires j < |cells| && FromNewer(cells0[j], newer)
    ensures Evacuated(st0, cells0[j], cells[j])
  {
    hide Inv, Kept, Copies, Places;
    if Standard(st0, cells0[j].at.arena) {
      assert Tracked(st0, cells0[j], newer, st, cells[j], []);
    }
  }

  // Left with the one survivor c and then, to the same signature, with none, the
  // state still has block b.
  ghost predicate Outlives(st: Scope, sign: Addr, c: Cell, b: Block) {
    && LocalHeaded(st) && SignInChain(st, sign) && !FirstLoopMoves(st, sign, c)
    && (var r := Leave(st, sign, [c]);
        && r.Left? && LocalHeaded(r.st) && SignInChain(r.st, sign)
        && (var r' := Leave(r.st, sign, []); r'.Left? && b in r'.st.lblocks))
  }

  // An oversized survivor is kept behind the signature's arena, so it outlives the
  // scope it was kept for: enter twice, make a large block, leave both scopes, the
  // second without survivors, and the block is still there.
  lemma OversizedOutlives(st: Scope, size: nat)
    requires Inv(st, []) && st.local[0] != DUMMY && size + ALIGNMENT + HEADER > ARENA_SIZE
    requires st.arenas[st.local[0]].avail + size + ALIGNMENT > st.arenas[st.local[0]].limit
    ensures var sign := Addr(st.local[0], st.arenas[st.local[0]].avail);
      var (st1, p) := AllocLocal(st, size);
      p.off >= ALIGNMENT && Outlives(st1, sign, Inside(p), Block(Addr(p.arena, p.off - ALIGNMENT), size + ALIGNMENT))
  {
    hide Inv, Outlives, AllocLocal;
    LocalsHeaded(st);
    var sign := Addr(st.local[0], st.arenas[st.local[0]].avail);
    var (st1, p) := AllocLocal(st, size);
    LargeBlock(st, size);
    KeptBehind(st1, sign, p, Block(Addr(p.arena, p.off - ALIGNMENT), size + ALIGNMENT), st.local);
  }

  lemma LocalsHeaded(st: Scope)
    requires Inv(st, [])
    ensures LocalHeaded(st)
  {
  }

  lemma LargeBlock(st: Scope, size: nat)
    requires Inv(st, []) && st.local[0] != DUMMY && size + ALIGNMENT + HEADER > ARENA_SIZE
    requires st.arenas[st.local[0]].avail + size + ALIGNMENT > st.arenas[st.local[0]].limit
    ensures var (st1, p) := AllocLocal(st, size);
      && p.off >= ALIGNMENT && Block(Addr(p.arena, p.off - ALIGNMENT), size + ALIGNMENT) in st1.lblocks
      && st1.local == [p.arena] + st.local && p.arena !in st.local
      && p.arena in st1.arenas && st1.arenas[p.arena].limit > ARENA_SIZE
      && (forall h :: h in st1.local ==> h in st1.arenas)
      && st1.arenas[st.local[0]] == st.arenas[st.local[0]]
  {
    hide HandleInv, GlobalInv, LocalInv;
    AllocLocalInv(st, size, []);
    AcquireArenas(st, size + ALIGNMENT, []);
    AcquireTakes(st, size + ALIGNMENT);
  }

  lemma KeptBehind(st: Scope, sign: Addr, p: Addr, b: Block, older: seq<nat>)
    requires st.local == [p.arena] + older && p.arena !in older && older != [] && older[0] == sign.arena != DUMMY
    requires (forall h :: h in st.local ==> h in st.arenas) && st.arenas[p.arena].limit > ARENA_SIZE
    requires (forall h :: h in st.frees ==> h in st.arenas) && st.arenas[sign.arena].avail == sign.off
    requires b in st.lblocks && b.at.arena == p.arena
    ensures Outlives(st, sign, Inside(p), b)
  {
    var h, st1 := p.arena, Rewound(st, sign);
    assert IndexOf(st.local, sign.arena) == 1;
    assert Newer(st, sign) == [h] && st1.local == older;
    BelowMember(st.lblocks, sign, b);
    OneCellKept(st1, p, h);
    var st2 := Inset(st1, h);
    assert Leave(st, sign, [Inside(p)]) == Left(st2, [Inside(p)]);
    assert IndexOf(st2.local, sign.arena) == 0;
    BelowMember(st2.lblocks, sign, b);
    assert Leave(st2, sign, []) == Left(Rewound(st2, sign), []);
  }

  lemma OneCellKept(st: Scope, p: Addr, h: nat)
    requires LocalHeaded(st) && st.local != [DUMMY] && h in st.arenas && st.arenas[h].limit > ARENA_SIZE
    requires p.arena == h
    ensures ReleaseAll(st, [Inside(p)], [h]) == Left(Inset(st, h), [Inside(p)])
  {
    assert [h][1..] == [];
  }
}
