// The theorems about leaving a scope: survivors, the exact condition under
// which all of them are kept, and the LIFO discipline of nested scopes.
module MscopeScopes {
  import opened MscopeBlocks
  import opened MscopeState
  import opened MscopeLocal
  import opened MscopeLeave
  import opened MscopeSurvive

  // A cell that pointed into an arena of newer now points at a live block of
  // the same size and contents; it has not moved while its arena is in todo.
  // Any other cell is unchanged.
  predicate Tracked(st0: Scope, c0: Cell, newer: seq<nat>, st: Scope, c: Cell, todo: seq<nat>) {
    if c0.Inside? && c0.at.arena in newer then
      && c.Inside? && Payload(BlockAt(st, c.at)) == c.at
      && Holds(st, BlockAt(st, c.at), st0, BlockAt(st0, c0.at))
      && (c.at.arena in todo ==> c == c0)
    else c == c0
  }

  predicate FromNewer(c0: Cell, newer: seq<nat>) {
    c0.Inside? && c0.at.arena in newer
  }

  ghost predicate Track(st0: Scope, cells0: seq<Cell>, newer: seq<nat>, st: Scope, cells: seq<Cell>, todo: seq<nat>) {
    && |cells| == |cells0|
    && (forall j :: 0 <= j < |cells0| ==> Tracked(st0, cells0[j], newer, st, cells[j], todo))
    && (forall j, k | 0 <= j < |cells0| && 0 <= k < |cells0| ::
          FromNewer(cells0[j], newer) && FromNewer(cells0[k], newer) ==>
          cells[j] == cells[k] ==> cells0[j] == cells0[k])
  }

  // A block of the scope left to: older than the newer arenas, below the signature.
  predicate OfParent(sign: Addr, newer: seq<nat>, b: Block) {
    b.at.arena !in newer && !(b.at.arena == sign.arena && b.at.off >= sign.off)
  }

  // The parent's blocks are as they were, and no survivor has been moved onto one.
  ghost predicate Kept(st0: Scope, sign: Addr, cells0: seq<Cell>, newer: seq<nat>, st: Scope, cells: seq<Cell>) {
    && |cells| == |cells0|
    && (forall i :: 0 <= i < |st0.lblocks| && OfParent(sign, newer, st0.lblocks[i]) ==>
          Holds(st, st0.lblocks[i], st0, st0.lblocks[i]))
    && (forall i, j :: 0 <= i < |st0.lblocks| && OfParent(sign, newer, st0.lblocks[i])
                       && 0 <= j < |cells0| && FromNewer(cells0[j], newer) ==>
          cells[j] != Inside(Payload(st0.lblocks[i])))
  }

  // Blocks above the signature in its own arena are copies of survivors.
  ghost predicate Copies(sign: Addr, cells0: seq<Cell>, newer: seq<nat>, st: Scope, cells: seq<Cell>) {
    && |cells| == |cells0|
    && forall i :: 0 <= i < |st.lblocks| && st.lblocks[i].at.arena == sign.arena && st.lblocks[i].at.off >= sign.off ==>
         exists k :: 0 <= k < |cells0| && FromNewer(cells0[k], newer) && cells[k] == Inside(Payload(st.lblocks[i]))
  }

  // One survivor moved: everything tracked so far stays tracked.
  lemma RelocateTracked(st0: Scope, c0: Cell, newer: seq<nat>, st: Scope, c: Cell, todo: seq<nat>, b0: Block)
    requires Inv(st, todo) && b0 in st.lblocks && Tracked(st0, c0, newer, st, c, todo)
    ensures var (st', p) := Relocate(st, Payload(b0));
      && Tracked(st0, c0, newer, st', c, todo)
      && (FromNewer(c0, newer) ==> c != Inside(p))
  {
    if FromNewer(c0, newer) {
      var b := BlockAt(st, c.at);
      RelocateInv(st, b0, todo);
      RelocateContents(st, b0, todo, b);
      var (st', p) := Relocate(st, Payload(b0));
      LiveBlockAt(st', todo, b);
    }
  }

  // The cell of the survivor moved is tracked too.
  lemma RelocateMoved(st0: Scope, c0: Cell, newer: seq<nat>, st: Scope, c: Cell, todo: seq<nat>)
    requires Inv(st, todo) && Tracked(st0, c0, newer, st, c, todo) && FromNewer(c0, newer)
    ensures var (st', p) := Relocate(st, c.at);
      && Tracked(st0, c0, newer, st', Inside(p), todo) && p.arena !in todo
  {
    hide GlobalInv, LocalInv, Relocate, Handles, HandleInv;
    var b0 := BlockAt(st, c.at);
    RelocateInv(st, b0, todo);
    RelocateContents(st, b0, todo, b0);
    var (st', p) := Relocate(st, c.at);
    NotInHand(st', todo, p.arena);
  }

  // The arena a block is moved to is not among those being released.
  lemma NotInHand(st: Scope, todo: seq<nat>, h: nat)
    requires ArenaInv(st, todo) && h in Chain(st.local)
    ensures h !in todo
  {
    hide Handles;
    HandlesSplit(st, todo, h);
    assert Handles(st, todo)[h] == One(1 <= h <= st.obtained);
  }

  lemma HandlesSplit(st: Scope, todo: seq<nat>, h: nat)
    requires st.local != [] && st.global != []
    ensures h in Chain(st.local) && h in todo ==> Handles(st, todo)[h] >= 2
  {
  }

  lemma RelocateTrack(st0: Scope, cells0: seq<Cell>, newer: seq<nat>, st: Scope, cells: seq<Cell>, todo: seq<nat>,
                      j: nat)
    requires Inv(st, todo) && Track(st0, cells0, newer, st, cells, todo)
    requires j < |cells0| && FromNewer(cells0[j], newer)
    ensures var (st', p) := Relocate(st, cells[j].at);
      Track(st0, cells0, newer, st', cells[j := Inside(p)], todo) && p.arena !in todo
  {
    var (st', p) := Relocate(st, cells[j].at);
    var cells' := cells[j := Inside(p)];
    assert Tracked(st0, cells0[j], newer, st, cells[j], todo);
    RelocateMoved(st0, cells0[j], newer, st, cells[j], todo);
    forall k | 0 <= k < |cells0|
      ensures Tracked(st0, cells0[k], newer, st', cells'[k], todo)
      ensures k != j && FromNewer(cells0[k], newer) ==> cells'[k] != Inside(p)
    {
      if k != j {
        RelocateTracked(st0, cells0[k], newer, st, cells[k], todo, BlockAt(st, cells[j].at));
      }
    }
  }

  lemma RelocateKept(st0: Scope, sign: Addr, cells0: seq<Cell>, newer: seq<nat>, st: Scope, cells: seq<Cell>,
                     todo: seq<nat>, b0: Block, j: nat)
    requires Inv(st, todo) && b0 in st.lblocks && Kept(st0, sign, cells0, newer, st, cells) && j < |cells|
    ensures var (st', p) := Relocate(st, Payload(b0));
      Kept(st0, sign, cells0, newer, st', cells[j := Inside(p)])
  {
    var (st', p) := Relocate(st, Payload(b0));
    forall i | 0 <= i < |st0.lblocks| && OfParent(sign, newer, st0.lblocks[i])
      ensures Holds(st', st0.lblocks[i], st0, st0.lblocks[i]) && p != Payload(st0.lblocks[i])
    {
      RelocateContents(st, b0, todo, st0.lblocks[i]);
    }
  }

  lemma RelocateCopies(sign: Addr, cells0: seq<Cell>, newer: seq<nat>, st: Scope, cells: seq<Cell>, todo: seq<nat>,
                       b0: Block, j: nat)
    requires Inv(st, todo) && b0 in st.lblocks && Copies(sign, cells0, newer, st, cells)
    requires j < |cells| && FromNewer(cells0[j], newer) && cells[j].Inside? && cells[j].at.arena != sign.arena
    ensures var (st', p) := Relocate(st, Payload(b0));
      Copies(sign, cells0, newer, st', cells[j := Inside(p)])
  {
    RelocateInv(st, b0, todo);
    var (st', p) := Relocate(st, Payload(b0));
    var cells' := cells[j := Inside(p)];
    forall i | 0 <= i < |st'.lblocks| && st'.lblocks[i].at.arena == sign.arena && st'.lblocks[i].at.off >= sign.off
      ensures exists k :: 0 <= k < |cells0| && FromNewer(cells0[k], newer) &&
                cells'[k] == Inside(Payload(st'.lblocks[i]))
    {
      if i < |st.lblocks| {
        var k :| 0 <= k < |cells0| && FromNewer(cells0[k], newer) && cells[k] == Inside(Payload(st.lblocks[i]));
        assert k != j;
        assert cells'[k] == Inside(Payload(st'.lblocks[i]));
      } else {
        assert cells'[j] == Inside(Payload(st'.lblocks[i]));
      }
    }
  }

  // All that holds while newer arenas are being released.
  ghost predicate Leaving(st0: Scope, sign: Addr, cells0: seq<Cell>, newer: seq<nat>,
                          st: Scope, cells: seq<Cell>, todo: seq<nat>) {
    && Inv(st, todo) && LocalHeaded(st) && sign.arena !in newer
    && Track(st0, cells0, newer, st, cells, todo)
    && Kept(st0, sign, cells0, newer, st, cells)
    && Copies(sign, cells0, newer, st, cells)
  }

  // What does not change on the global side, and the chain only grows.
  predicate SameGlobals(st0: Scope, st: Scope) {
    && st.global == st0.global && st.gblocks == st0.gblocks && st.segs == st0.segs
    && |st.local| >= |st0.local| && forall h :: h in st0.local ==> h in st.local
  }

  lemma RelocateGlobals(st: Scope, src: Addr)
    requires LocalHeaded(st)
    ensures SameGlobals(st, Relocate(st, src).0)
  {
  }

  predicate NonePointsInto(cells: seq<Cell>, n: nat, h: nat)
    requires n <= |cells|
  {
    forall k :: 0 <= k < n ==> !PointsInto(cells[k], h)
  }

  lemma {:induction false} MoveOutLeaves(st0: Scope, sign: Addr, cells0: seq<Cell>, newer: seq<nat>,
                        st: Scope, cells: seq<Cell>, cur: nat, pend: seq<nat>, j: nat)
    requires Leaving(st0, sign, cells0, newer, st, cells, [cur] + pend)
    requires cur in newer && cur in st.arenas && j <= |cells|
    requires NonePointsInto(cells, j, cur)
    ensures var r := MoveOut(st, cells, cur, j);
      && (r.Scanned? ==> SameGlobals(st, r.st) && cur in r.st.arenas && LocalHeaded(r.st))
      && (r.Scanned? && r.inset ==> Leaving(st0, sign, cells0, newer, r.st, r.cells, pend))
      && (r.Scanned? && !r.inset ==> Leaving(st0, sign, cells0, newer, r.st, r.cells, [cur] + pend))
      && (r.Scanned? && !r.inset ==> NonePointsInto(r.cells, |r.cells|, cur))
      && (r.Abort? ==> |st.local| == 1)
    decreases |cells| - j
  {
    hide GlobalInv, LocalInv, HandleInv, Track, Kept, Copies, Relocate;
    if j == |cells| {
    } else if !PointsInto(cells[j], cur) {
      MoveOutLeaves(st0, sign, cells0, newer, st, cells, cur, pend, j + 1);
    } else if st.arenas[cur].limit > ARENA_SIZE {
      if |st.local| >= 2 {
        InsetLeaves(st0, sign, cells0, newer, st, cells, cur, pend);
      }
    } else {
      var (st1, p) := Relocate(st, cells[j].at);
      RelocateLeaves(st0, sign, cells0, newer, st, cells, cur, [cur] + pend, j);
      MoveOutLeaves(st0, sign, cells0, newer, st1, cells[j := Inside(p)], cur, pend, j + 1);
    }
  }

  // What is known of the survivor about to be moved.
  lemma MovedSurvivor(st0: Scope, sign: Addr, cells0: seq<Cell>, newer: seq<nat>,
                      st: Scope, cells: seq<Cell>, cur: nat, todo: seq<nat>, j: nat)
    requires Leaving(st0, sign, cells0, newer, st, cells, todo)
    requires j < |cells| && cur in newer && cur in todo && PointsInto(cells[j], cur)
    ensures j < |cells0| && |cells| == |cells0| && FromNewer(cells0[j], newer) && cells[j].at.arena != sign.arena
    ensures BlockAt(st, cells[j].at) in st.lblocks && Payload(BlockAt(st, cells[j].at)) == cells[j].at
  {
    hide Inv, Kept, Copies;
    assert Tracked(st0, cells0[j], newer, st, cells[j], todo);
  }

  lemma RelocateDomain(st: Scope, src: Addr)
    requires LocalHeaded(st)
    ensures st.arenas.Keys <= Relocate(st, src).0.arenas.Keys
  {
  }

  lemma RelocateLeaves(st0: Scope, sign: Addr, cells0: seq<Cell>, newer: seq<nat>,
                       st: Scope, cells: seq<Cell>, cur: nat, todo: seq<nat>, j: nat)
    requires Leaving(st0, sign, cells0, newer, st, cells, todo)
    requires j < |cells| && cur in newer && cur in todo && cur in st.arenas && PointsInto(cells[j], cur)
    requires NonePointsInto(cells, j, cur)
    ensures var (st', p) := Relocate(st, cells[j].at);
      && Leaving(st0, sign, cells0, newer, st', cells[j := Inside(p)], todo)
      && NonePointsInto(cells[j := Inside(p)], j + 1, cur)
      && SameGlobals(st, st') && cur in st'.arenas
  {
    hide Inv, Track, Tracked, Kept, Copies, Relocate, SameGlobals, BlockAt;
    MovedSurvivor(st0, sign, cells0, newer, st, cells, cur, todo, j);
    var b0 := BlockAt(st, cells[j].at);
    RelocateInv(st, b0, todo);
    RelocateDomain(st, cells[j].at);
    RelocateTrack(st0, cells0, newer, st, cells, todo, j);
    RelocateKept(st0, sign, cells0, newer, st, cells, todo, b0, j);
    RelocateCopies(sign, cells0, newer, st, cells, todo, b0, j);
    RelocateGlobals(st, cells[j].at);
  }

  lemma InsetLeaves(st0: Scope, sign: Addr, cells0: seq<Cell>, newer: seq<nat>,
                    st: Scope, cells: seq<Cell>, cur: nat, pend: seq<nat>)
    requires Leaving(st0, sign, cells0, newer, st, cells, [cur] + pend)
    requires cur in st.arenas && |st.local| >= 2
    ensures Leaving(st0, sign, cells0, newer, Inset(st, cur), cells, pend)
    ensures SameGlobals(st, Inset(st, cur))
  {
    InsetInv(st, cur, pend);
    var st' := Inset(st, cur);
    forall k | 0 <= k < |cells0| ensures Tracked(st0, cells0[k], newer, st', cells[k], pend) {
      assert Tracked(st0, cells0[k], newer, st, cells[k], [cur] + pend);
    }
    forall i | 0 <= i < |st0.lblocks| && OfParent(sign, newer, st0.lblocks[i])
      ensures Holds(st', st0.lblocks[i], st0, st0.lblocks[i])
    {
      assert Holds(st, st0.lblocks[i], st0, st0.lblocks[i]);
    }
  }

  lemma ReleaseLeaves(st0: Scope, sign: Addr, cells0: seq<Cell>, newer: seq<nat>,
                      st: Scope, cells: seq<Cell>, cur: nat, pend: seq<nat>)
    requires Leaving(st0, sign, cells0, newer, st, cells, [cur] + pend)
    requires cur in newer && cur in st.arenas && NonePointsInto(cells, |cells|, cur)
    ensures Leaving(st0, sign, cells0, newer, Release(st, cur), cells, pend)
  {
    hide Inv;
    ReleaseInv(st, cur, pend);
    var st' := Release(st, cur);
    forall k | 0 <= k < |cells0| ensures Tracked(st0, cells0[k], newer, st', cells[k], pend) {
      assert Tracked(st0, cells0[k], newer, st, cells[k], [cur] + pend);
      if FromNewer(cells0[k], newer) {
        WithoutMember(st.lblocks, cur, BlockAt(st, cells[k].at));
      }
    }
    forall i | 0 <= i < |st0.lblocks| && OfParent(sign, newer, st0.lblocks[i])
      ensures Holds(st', st0.lblocks[i], st0, st0.lblocks[i])
    {
      assert Holds(st, st0.lblocks[i], st0, st0.lblocks[i]);
      WithoutMember(st.lblocks, cur, st0.lblocks[i]);
    }
    forall i | 0 <= i < |st'.lblocks| && st'.lblocks[i].at.arena == sign.arena && st'.lblocks[i].at.off >= sign.off
      ensures exists k :: 0 <= k < |cells0| && FromNewer(cells0[k], newer) &&
                cells[k] == Inside(Payload(st'.lblocks[i]))
    {
      WithoutMember(st.lblocks, cur, st'.lblocks[i]);
      var m :| 0 <= m < |st.lblocks| && st.lblocks[m] == st'.lblocks[i];
    }
  }

  lemma {:induction false} ReleaseAllLeaves(st0: Scope, sign: Addr, cells0: seq<Cell>, newer: seq<nat>,
                           st: Scope, cells: seq<Cell>, chain: seq<nat>)
    requires Leaving(st0, sign, cells0, newer, st, cells, chain)
    requires forall h :: h in chain ==> h in newer && h in st.arenas
    ensures var r := ReleaseAll(st, cells, chain);
      && (r.Left? ==> Leaving(st0, sign, cells0, newer, r.st, r.cells, []) && SameGlobals(st, r.st))
      && (r.Aborted? ==> |st.local| == 1)
    decreases |chain|
  {
    if chain != [] {
      var cur, pend := chain[0], chain[1..];
      assert chain == [cur] + pend;
      var r := MoveOut(st, cells, cur, 0);
      MoveOutArenas(st, cells, cur, 0);
      MoveOutLeaves(st0, sign, cells0, newer, st, cells, cur, pend, 0);
      if r.Abort? {
      } else if r.inset {
        ReleaseAllLeaves(st0, sign, cells0, newer, r.st, r.cells, pend);
      } else {
        ReleaseLeaves(st0, sign, cells0, newer, r.st, r.cells, cur, pend);
        ReleaseAllLeaves(st0, sign, cells0, newer, Release(r.st, cur), r.cells, pend);
      }
    }
  }

  // ---- the theorem ----------------------------------------------------------

  // A cell that points at a live local block.
  ghost predicate PointsToBlock(st: Scope, c: Cell) {
    c.Inside? && c.at.off >= ALIGNMENT && BlockAt(st, c.at) in st.lblocks
  }

  // Cells hold results of alloc_local that are still live, or pointers that have
  // nothing to do with the local chain.
  ghost predicate ValidCells(st: Scope, cells: seq<Cell>) {
    forall j :: 0 <= j < |cells| && cells[j].Inside? && cells[j].at.arena in st.local ==> PointsToBlock(st, cells[j])
  }

  // The survivor lies in the signature's own arena, above the signature.
  predicate InOwnArena(sign: Addr, c: Cell) {
    c.Inside? && c.at.arena == sign.arena && c.at.off > sign.off
  }

  // The cell points at a live block of the local chain, as large as, and holding
  // what, the original block did.
  ghost predicate Survives(st: Scope, c: Cell, st': Scope, c': Cell) {
    && c.Inside? && PointsToBlock(st', c') && Holds(st', BlockAt(st', c'.at), st, BlockAt(st, c.at))
    && st'.local != [] && c'.at.arena in Chain(st'.local)
  }

  // The block c' points at shares no byte with b.
  ghost predicate ApartFrom(st': Scope, c': Cell, b: Block) {
    c'.Inside? && Disjoint(BlockAt(st', c'.at), b)
  }

  ghost predicate CellsApart(st': Scope, c': Cell, d': Cell) {
    d'.Inside? && ApartFrom(st', c', BlockAt(st', d'.at))
  }

  // Every local survivor survives, in a block that shares no byte with that of a
  // survivor from another address, nor, if it came out of a released arena, with
  // any block of the scope left to.
  ghost predicate AllSurvive(st: Scope, sign: Addr, cells: seq<Cell>, st': Scope, cells': seq<Cell>)
    requires SignInChain(st, sign)
  {
    && |cells'| == |cells|
    && (forall j :: 0 <= j < |cells| && PointsToBlock(st, cells[j]) ==> Survives(st, cells[j], st', cells'[j]))
    && (forall j, k | 0 <= j < |cells| && 0 <= k < |cells| ::
          PointsToBlock(st, cells[j]) && PointsToBlock(st, cells[k]) ==>
          cells[j] != cells[k] ==> CellsApart(st', cells'[j], cells'[k]))
    && (forall j, b :: 0 <= j < |cells| && FromNewer(cells[j], Newer(st, sign)) && ParentBlock(st, sign, b) ==>
          ApartFrom(st', cells'[j], b))
  }

  ghost predicate ParentBlock(st: Scope, sign: Addr, b: Block)
    requires SignInChain(st, sign)
  {
    b in st.lblocks && OfParent(sign, Newer(st, sign), b)
  }

  lemma NoFirstLoopMoves(st: Scope, sign: Addr, cells: seq<Cell>)
    requires Inv(st, []) && ValidSign(st, sign) && ValidCells(st, cells)
    ensures forall j :: 0 <= j < |cells| ==> !FirstLoopMoves(st, sign, cells[j])
  {
    forall j | 0 <= j < |cells| ensures !FirstLoopMoves(st, sign, cells[j]) {
      if PointsInto(cells[j], sign.arena) {
        BlockBelowAvail(st, [], BlockAt(st, cells[j].at));
      }
    }
  }

  lemma LeavingStarts(st: Scope, sign: Addr, cells: seq<Cell>)
    requires Inv(st, []) && ValidSign(st, sign) && ValidCells(st, cells)
    ensures Leaving(st, sign, cells, Newer(st, sign), Rewound(st, sign), cells, Newer(st, sign))
  {
    RewoundInv(st, sign);
    var st1 := Rewound(st, sign);
    var newer := Newer(st, sign);
    forall j | 0 <= j < |cells| ensures Tracked(st, cells[j], newer, st1, cells[j], newer) {
      if FromNewer(cells[j], newer) {
        BelowMember(st.lblocks, sign, BlockAt(st, cells[j].at));
      }
    }
    forall i | 0 <= i < |st.lblocks| && OfParent(sign, newer, st.lblocks[i])
      ensures Holds(st1, st.lblocks[i], st, st.lblocks[i])
    {
      BelowMember(st.lblocks, sign, st.lblocks[i]);
    }
    forall i | 0 <= i < |st1.lblocks|
      ensures !(st1.lblocks[i].at.arena == sign.arena && st1.lblocks[i].at.off >= sign.off) {
      BelowMember(st.lblocks, sign, st1.lblocks[i]);
    }
  }

  // Leaving keeps the allocator's invariant and its global side; it aborts, as
  // the source asserts, only if the scope left to has no arena yet.
  lemma LeaveInv(st: Scope, sign: Addr, cells: seq<Cell>)
    requires Inv(st, []) && ValidSign(st, sign) && ValidCells(st, cells)
    ensures forall j :: 0 <= j < |cells| ==> !FirstLoopMoves(st, sign, cells[j])
    ensures var r := Leave(st, sign, cells);
      && (r.Left? ==> Leaving(st, sign, cells, Newer(st, sign), r.st, r.cells, []))
      && (r.Left? ==> SameGlobals(Rewound(st, sign), r.st))
      && (r.Aborted? ==> sign.arena == DUMMY)
  {
    NoFirstLoopMoves(st, sign, cells);
    LeavingStarts(st, sign, cells);
    var newer := Newer(st, sign);
    assert forall h :: h in newer ==> h in st.local;
    ReleaseAllLeaves(st, sign, cells, newer, Rewound(st, sign), cells, newer);
    var suffix := Rewound(st, sign).local;
    assert suffix[0] == sign.arena && suffix[|suffix| - 1] == DUMMY;
  }

  // A cell not in a newer arena is not changed, and if it points at a block of
  // the parent's that block survives.
  lemma ParentSurvives(st: Scope, sign: Addr, cells: seq<Cell>, r: Left, j: nat)
    requires Inv(st, []) && ValidSign(st, sign) && ValidCells(st, cells) && j < |cells|
    requires r.Left? && Leaving(st, sign, cells, Newer(st, sign), r.st, r.cells, [])
    requires PointsToBlock(st, cells[j]) && !FromNewer(cells[j], Newer(st, sign)) && !InOwnArena(sign, cells[j])
    ensures r.cells[j] == cells[j] && Survives(st, cells[j], r.st, r.cells[j])
    ensures OfParent(sign, Newer(st, sign), BlockAt(st, cells[j].at))
  {
    assert Tracked(st, cells[j], Newer(st, sign), r.st, r.cells[j], []);
    var b := BlockAt(st, cells[j].at);
    var i :| 0 <= i < |st.lblocks| && st.lblocks[i] == b;
    assert Holds(r.st, st.lblocks[i], st, st.lblocks[i]);
    LiveBlockAt(r.st, [], b);
    BlockBelowAvail(r.st, [], b);
  }

  lemma NewerSurvives(st: Scope, sign: Addr, cells: seq<Cell>, r: Left, j: nat)
    requires Inv(st, []) && ValidSign(st, sign) && ValidCells(st, cells) && j < |cells|
    requires r.Left? && Leaving(st, sign, cells, Newer(st, sign), r.st, r.cells, [])
    requires FromNewer(cells[j], Newer(st, sign))
    ensures Survives(st, cells[j], r.st, r.cells[j])
  {
    assert Tracked(st, cells[j], Newer(st, sign), r.st, r.cells[j], []);
    BlockBelowAvail(r.st, [], BlockAt(r.st, r.cells[j].at));
  }

  // A survivor from a released arena is apart from every block of the parent's.
  lemma SurvivorBesideParent(st: Scope, sign: Addr, cells: seq<Cell>, r: Left, j: nat, b: Block)
    requires Inv(st, []) && ValidSign(st, sign) && ValidCells(st, cells) && j < |cells|
    requires r.Left? && Leaving(st, sign, cells, Newer(st, sign), r.st, r.cells, [])
    requires FromNewer(cells[j], Newer(st, sign)) && b in st.lblocks && OfParent(sign, Newer(st, sign), b)
    ensures b in r.st.lblocks && ApartFrom(r.st, r.cells[j], b)
  {
    hide Inv, Clean;
    NewerSurvives(st, sign, cells, r, j);
    var i :| 0 <= i < |st.lblocks| && st.lblocks[i] == b;
    assert Holds(r.st, st.lblocks[i], st, st.lblocks[i]) && r.cells[j] != Inside(Payload(st.lblocks[i]));
    BlockOfCell(r.st, r.cells[j]);
    LocalBlocksDisjoint(r.st, [], BlockAt(r.st, r.cells[j].at), b);
  }

  lemma BlockOfCell(st: Scope, c: Cell)
    requires PointsToBlock(st, c)
    ensures Payload(BlockAt(st, c.at)) == c.at && BlockAt(st, c.at).size >= ALIGNMENT
  {
  }

  // Survivors in different blocks are apart.
  lemma SurvivorsApart(st': Scope, c': Cell, d': Cell)
    requires Inv(st', []) && PointsToBlock(st', c') && PointsToBlock(st', d') && c' != d'
    ensures CellsApart(st', c', d')
  {
    hide Inv;
    BlockOfCell(st', c');
    BlockOfCell(st', d');
    LocalBlocksDisjoint(st', [], BlockAt(st', c'.at), BlockAt(st', d'.at));
  }

  lemma DifferentBlocks(st: Scope, sign: Addr, cells: seq<Cell>, r: Left, j: nat, k: nat)
    requires Inv(st, []) && ValidSign(st, sign) && ValidCells(st, cells) && j < |cells| && k < |cells|
    requires r.Left? && Leaving(st, sign, cells, Newer(st, sign), r.st, r.cells, [])
    requires PointsToBlock(st, cells[j]) && PointsToBlock(st, cells[k]) && cells[j] != cells[k]
    requires !InOwnArena(sign, cells[j]) && !InOwnArena(sign, cells[k])
    ensures r.cells[j] != r.cells[k]
  {
    hide Inv, Clean;
    var newer := Newer(st, sign);
    assert Tracked(st, cells[j], newer, r.st, r.cells[j], []);
    assert Tracked(st, cells[k], newer, r.st, r.cells[k], []);
    if FromNewer(cells[j], newer) != FromNewer(cells[k], newer) {
      var m, o := if FromNewer(cells[j], newer) then j else k, if FromNewer(cells[j], newer) then k else j;
      ParentSurvives(st, sign, cells, r, o);
      var b := BlockAt(st, cells[o].at);
      var i :| 0 <= i < |st.lblocks| && st.lblocks[i] == b;
      assert r.cells[m] != Inside(Payload(st.lblocks[i]));
    }
  }

  lemma AllSurviveIf(st: Scope, sign: Addr, cells: seq<Cell>, r: Left)
    requires Inv(st, []) && ValidSign(st, sign) && ValidCells(st, cells)
    requires r.Left? && Leaving(st, sign, cells, Newer(st, sign), r.st, r.cells, [])
    requires forall j :: 0 <= j < |cells| && PointsToBlock(st, cells[j]) ==> !InOwnArena(sign, cells[j])
    ensures AllSurvive(st, sign, cells, r.st, r.cells)
  {
    hide Inv, Survives, CellsApart, ApartFrom, Clean, Kept, Copies, Track, PointsToBlock, OfParent;
    var newer := Newer(st, sign);
    SameCount(st, sign, cells, r);
    forall j | 0 <= j < |cells| && PointsToBlock(st, cells[j])
      ensures Survives(st, cells[j], r.st, r.cells[j])
    {
      OneSurvives(st, sign, cells, r, j);
    }
    forall j, k | 0 <= j < |cells| && 0 <= k < |cells| && PointsToBlock(st, cells[j]) && PointsToBlock(st, cells[k])
                  && cells[j] != cells[k]
      ensures CellsApart(r.st, r.cells[j], r.cells[k])
    {
      DifferentBlocks(st, sign, cells, r, j, k);
      SurvivesPoints(st, cells[j], r.st, r.cells[j]);
      SurvivesPoints(st, cells[k], r.st, r.cells[k]);
      SurvivorsApart(r.st, r.cells[j], r.cells[k]);
    }
    forall j, b | 0 <= j < |cells| && FromNewer(cells[j], newer) && ParentBlock(st, sign, b)
      ensures ApartFrom(r.st, r.cells[j], b)
    {
      SurvivorBesideParent(st, sign, cells, r, j, b);
    }
  }

  lemma SameCount(st: Scope, sign: Addr, cells: seq<Cell>, r: Left)
    requires SignInChain(st, sign) && r.Left? && Leaving(st, sign, cells, Newer(st, sign), r.st, r.cells, [])
    ensures |r.cells| == |cells|
  {
  }

  lemma OneSurvives(st: Scope, sign: Addr, cells: seq<Cell>, r: Left, j: nat)
    requires Inv(st, []) && ValidSign(st, sign) && ValidCells(st, cells) && j < |cells|
    requires r.Left? && |r.cells| == |cells| && Leaving(st, sign, cells, Newer(st, sign), r.st, r.cells, [])
    requires PointsToBlock(st, cells[j]) && !InOwnArena(sign, cells[j])
    ensures Survives(st, cells[j], r.st, r.cells[j])
  {
    hide Inv, Leaving, Survives, PointsToBlock;
    if FromNewer(cells[j], Newer(st, sign)) {
      NewerSurvives(st, sign, cells, r, j);
    } else {
      ParentSurvives(st, sign, cells, r, j);
    }
  }

  lemma SurvivesPoints(st: Scope, c: Cell, st': Scope, c': Cell)
    requires Survives(st, c, st', c')
    ensures PointsToBlock(st', c')
  {
  }

  lemma OwnArenaLost(st: Scope, sign: Addr, cells: seq<Cell>, r: Left, j: nat)
    requires Inv(st, []) && ValidSign(st, sign) && ValidCells(st, cells) && j < |cells|
    requires r.Left? && Leaving(st, sign, cells, Newer(st, sign), r.st, r.cells, [])
    requires PointsToBlock(st, cells[j]) && InOwnArena(sign, cells[j])
    ensures !AllSurvive(st, sign, cells, r.st, r.cells)
  {
    var newer := Newer(st, sign);
    assert Tracked(st, cells[j], newer, r.st, r.cells[j], []);
    BlockBelowAvail(st, [], BlockAt(st, cells[j].at));
    if Survives(st, cells[j], r.st, r.cells[j]) {
      var i :| 0 <= i < |r.st.lblocks| && r.st.lblocks[i] == BlockAt(r.st, r.cells[j].at);
      var k :| 0 <= k < |cells| && FromNewer(cells[k], newer) && r.cells[k] == Inside(Payload(r.st.lblocks[i]));
      assert r.cells[k] == r.cells[j] && cells[k] != cells[j] && PointsToBlock(st, cells[k]);
      assert !CellsApart(r.st, r.cells[k], r.cells[j]);
    }
  }

  // Leaving a scope keeps every survivor, contents and all, each in the parent
  // scope and byte for byte apart from survivors of other addresses and from the
  // parent's blocks, if and only if none of them lies in the signature's own
  // arena above the signature.
  lemma LeaveKeepsSurvivors(st: Scope, sign: Addr, cells: seq<Cell>)
    requires Inv(st, []) && ValidSign(st, sign) && ValidCells(st, cells)
    ensures forall j :: 0 <= j < |cells| ==> !FirstLoopMoves(st, sign, cells[j])
    ensures var r := Leave(st, sign, cells);
      r.Left? ==>
        && Inv(r.st, [])
        && (AllSurvive(st, sign, cells, r.st, r.cells) <==>
             forall j :: 0 <= j < |cells| && PointsToBlock(st, cells[j]) ==> !InOwnArena(sign, cells[j]))
  {
    LeaveInv(st, sign, cells);
    var r := Leave(st, sign, cells);
    if r.Left? {
      if j :| 0 <= j < |cells| && PointsToBlock(st, cells[j]) && InOwnArena(sign, cells[j]) {
        OwnArenaLost(st, sign, cells, r, j);
      } else {
        AllSurviveIf(st, sign, cells, r);
      }
    }
  }

  // Whatever the cells, the blocks of the scope left to are untouched, and cells
  // that pointed to none of the released arenas are unchanged.
  lemma LeaveKeepsParent(st: Scope, sign: Addr, cells: seq<Cell>)
    requires Inv(st, []) && ValidSign(st, sign) && ValidCells(st, cells)
    ensures forall j :: 0 <= j < |cells| ==> !FirstLoopMoves(st, sign, cells[j])
    ensures var r := Leave(st, sign, cells);
      r.Left? ==>
        && |r.cells| == |cells|
        && (forall j :: 0 <= j < |cells| && !FromNewer(cells[j], Newer(st, sign)) ==> r.cells[j] == cells[j])
        && (forall b :: b in st.lblocks && OfParent(sign, Newer(st, sign), b) ==> Holds(r.st, b, st, b))
        && r.st.gblocks == st.gblocks && r.st.segs == st.segs && r.st.global == st.global
  {
    LeaveInv(st, sign, cells);
    var r := Leave(st, sign, cells);
    if r.Left? {
      forall j | 0 <= j < |cells| && !FromNewer(cells[j], Newer(st, sign)) ensures r.cells[j] == cells[j] {
        assert Tracked(st, cells[j], Newer(st, sign), r.st, r.cells[j], []);
      }
      forall b | b in st.lblocks && OfParent(sign, Newer(st, sign), b) ensures Holds(r.st, b, st, b) {
        var i :| 0 <= i < |st.lblocks| && st.lblocks[i] == b;
        assert Holds(r.st, st.lblocks[i], st, st.lblocks[i]);
      }
    }
  }

  // The failing case, concretely: enter, allocate in the current arena, leave
  // with that block as survivor; the next request of the same size gets the
  // survivor's own memory.
  lemma SurvivorReused(st: Scope, size: nat)
    requires Inv(st, []) && st.local[0] != DUMMY
    requires st.arenas[st.local[0]].avail + size + ALIGNMENT <= st.arenas[st.local[0]].limit
    ensures var sign := Addr(st.local[0], st.arenas[st.local[0]].avail);
      var (st1, p) := AllocLocal(st, size);
      && SignInChain(st1, sign) && !FirstLoopMoves(st1, sign, Inside(p))
      && var r := Leave(st1, sign, [Inside(p)]);
         r.Left? && r.cells == [Inside(p)] && LocalHeaded(r.st) && AllocLocal(r.st, size).1 == p
  {
    var sign := Addr(st.local[0], st.arenas[st.local[0]].avail);
    var (st1, p) := AllocLocal(st, size);
    assert IndexOf(st1.local, sign.arena) == 0;
    assert ReleaseAll(Rewound(st1, sign), [Inside(p)], []) == Left(Rewound(st1, sign), [Inside(p)]);
  }
}
