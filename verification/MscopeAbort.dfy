// When leaving a scope runs into the assertion of _mscope_inset_local: the exact
// condition, in terms of what the caller sees before the call.
module MscopeAbort {
  import opened MscopeBlocks
  import opened MscopeState
  import opened MscopeLocal
  import opened MscopeLeave
  import opened MscopeSurvive
  import opened MscopeScopes
  import opened MscopeNested

  predicate NonePoint(cells: seq<Cell>, h: nat) {
    forall j :: 0 <= j < |cells| ==> !PointsInto(cells[j], h)
  }

  predicate Oversized(st: Scope, h: nat) {
    h in st.arenas && st.arenas[h].limit > ARENA_SIZE
  }

  // The newest arena that holds a survivor is oversized.
  predicate NewestSurvivorIsOversized(st: Scope, cells: seq<Cell>, chain: seq<nat>) {
    chain != [] &&
    if NonePoint(cells, chain[0]) then NewestSurvivorIsOversized(st, cells, chain[1..]) else Oversized(st, chain[0])
  }

  // With an arena to put it behind, an oversized one never meets the assertion.
  lemma {:induction false} MoveOutStays(st: Scope, cells: seq<Cell>, cur: nat, j: nat)
    requires LocalHeaded(st) && cur in st.arenas && j <= |cells| && |st.local| >= 2
    ensures var r := MoveOut(st, cells, cur, j); r.Scanned? && |r.st.local| >= 2
    decreases |cells| - j
  {
    if j == |cells| {
    } else if !PointsInto(cells[j], cur) {
      MoveOutStays(st, cells, cur, j + 1);
    } else if st.arenas[cur].limit <= ARENA_SIZE {
      var (st1, p) := Relocate(st, cells[j].at);
      MoveOutStays(st1, cells[j := Inside(p)], cur, j + 1);
    }
  }

  lemma {:induction false} ReleaseAllStays(st: Scope, cells: seq<Cell>, chain: seq<nat>)
    requires LocalHeaded(st) && (forall h :: h in chain ==> h in st.arenas) && |st.local| >= 2
    ensures ReleaseAll(st, cells, chain).Left?
    decreases |chain|
  {
    if chain != [] {
      var r := MoveOut(st, cells, chain[0], 0);
      MoveOutArenas(st, cells, chain[0], 0);
      MoveOutStays(st, cells, chain[0], 0);
      ReleaseAllStays(if r.inset then r.st else Release(r.st, chain[0]), r.cells, chain[1..]);
    }
  }

  lemma {:induction false} MoveOutNone(st: Scope, cells: seq<Cell>, cur: nat, j: nat)
    requires LocalHeaded(st) && cur in st.arenas && j <= |cells| && NonePoint(cells, cur)
    ensures MoveOut(st, cells, cur, j) == Scanned(st, cells, false)
    decreases |cells| - j
  {
    if j < |cells| {
      MoveOutNone(st, cells, cur, j + 1);
    }
  }

  // On the dummy, which is full, the first survivor decides.
  lemma {:induction false} MoveOutFirst(st: Scope, cells: seq<Cell>, cur: nat, j: nat)
    requires LocalHeaded(st) && cur in st.arenas && j <= |cells| && !NonePoint(cells[j..], cur)
    requires st.local == [DUMMY] && st.arenas[DUMMY].avail == st.arenas[DUMMY].limit
    ensures var r := MoveOut(st, cells, cur, j);
      if st.arenas[cur].limit > ARENA_SIZE then r.Abort? else r.Scanned? && |r.st.local| >= 2
    decreases |cells| - j
  {
    if j == |cells| {
    } else if !PointsInto(cells[j], cur) {
      assert forall i :: 0 <= i < |cells[j..]| && i > 0 ==> cells[j..][i] == cells[j + 1..][i - 1];
      MoveOutFirst(st, cells, cur, j + 1);
    } else if st.arenas[cur].limit <= ARENA_SIZE {
      var (st1, p) := Relocate(st, cells[j].at);
      MoveOutStays(st1, cells[j := Inside(p)], cur, j + 1);
    }
  }

  lemma {:induction false} ReleaseAllAborts(st: Scope, cells: seq<Cell>, chain: seq<nat>)
    requires LocalHeaded(st) && forall h :: h in chain ==> h in st.arenas
    requires st.local == [DUMMY] && st.arenas[DUMMY].avail == st.arenas[DUMMY].limit
    ensures ReleaseAll(st, cells, chain).Aborted? <==> NewestSurvivorIsOversized(st, cells, chain)
    decreases |chain|
  {
    if chain != [] {
      var cur := chain[0];
      var r := MoveOut(st, cells, cur, 0);
      MoveOutArenas(st, cells, cur, 0);
      if NonePoint(cells, cur) {
        MoveOutNone(st, cells, cur, 0);
        ReleaseAllAborts(Release(st, cur), cells, chain[1..]);
        SameArenasSame(st, Release(st, cur), cells, chain[1..]);
      } else {
        assert cells[0..] == cells;
        MoveOutFirst(st, cells, cur, 0);
        if r.Scanned? {
          ReleaseAllStays(if r.inset then r.st else Release(r.st, cur), r.cells, chain[1..]);
        }
      }
    }
  }

  lemma {:induction false} SameArenasSame(st: Scope, st': Scope, cells: seq<Cell>, chain: seq<nat>)
    requires st'.arenas == st.arenas
    ensures NewestSurvivorIsOversized(st', cells, chain) == NewestSurvivorIsOversized(st, cells, chain)
  {
    if chain != [] {
      SameArenasSame(st, st', cells, chain[1..]);
    }
  }

  lemma DummyAlone(s: seq<nat>)
    requires Chained(s)
    ensures s[0] == DUMMY && DUMMY !in Chain(s) ==> s == [DUMMY]
  {
    if |s| > 1 {
      assert Chain(s)[0] == s[0];
    }
  }

  // Leaving a scope stops at the assertion exactly when the scope was entered
  // before there was any local arena and the newest arena with a survivor in it
  // is larger than standard.
  lemma LeaveAbortsIff(st: Scope, sign: Addr, cells: seq<Cell>)
    requires Inv(st, []) && ValidSign(st, sign) && ValidCells(st, cells)
    ensures forall j :: 0 <= j < |cells| ==> !FirstLoopMoves(st, sign, cells[j])
    ensures Leave(st, sign, cells).Aborted? <==>
            sign.arena == DUMMY && NewestSurvivorIsOversized(st, cells, Newer(st, sign))
  {
    hide GlobalInv, LocalInv;
    NoFirstLoopMoves(st, sign, cells);
    RewoundInv(st, sign);
    var st' := Rewound(st, sign);
    var newer := Newer(st, sign);
    assert forall h :: h in newer ==> h in st.local;
    assert st'.local[0] == sign.arena && st'.local[|st'.local| - 1] == DUMMY;
    if sign.arena == DUMMY {
      assert Handles(st', newer)[DUMMY] == One(1 <= DUMMY <= st'.obtained);
      DummyAlone(st'.local);
      ReleaseAllAborts(st', cells, newer);
      NewerStandard(st, st', sign, cells, newer);
    } else {
      ReleaseAllStays(st', cells, newer);
    }
  }

  // Rewinding leaves the sizes of arenas alone.
  lemma {:induction false} NewerStandard(st: Scope, st': Scope, sign: Addr, cells: seq<Cell>, chain: seq<nat>)
    requires SignInChain(st, sign) && st' == Rewound(st, sign)
    ensures NewestSurvivorIsOversized(st', cells, chain) == NewestSurvivorIsOversized(st, cells, chain)
  {
    if chain != [] {
      NewerStandard(st, st', sign, cells, chain[1..]);
    }
  }

  // It happens: a scope entered on the fresh allocator, one block larger than a
  // standard arena, and that block for a survivor.
  lemma OversizedSurvivorAborts()
    ensures LocalHeaded(Create()) && EnterSign(Create()) == Addr(DUMMY, HEADER)
    ensures var (st, p) := AllocLocal(Create(), 4096);
      && SignInChain(st, Addr(DUMMY, HEADER)) && !FirstLoopMoves(st, Addr(DUMMY, HEADER), Inside(p))
      && Leave(st, Addr(DUMMY, HEADER), [Inside(p)]) == Aborted
  {
    var (st, p) := AllocLocal(Create(), 4096);
    var sign := Addr(DUMMY, HEADER);
    assert st.local == [1, DUMMY] && p.arena == 1 && st.arenas[1].limit > ARENA_SIZE;
    assert Newer(st, sign) == [1] && Rewound(st, sign).local == [DUMMY];
    assert MoveOut(Rewound(st, sign), [Inside(p)], 1, 0) == Abort;
  }
}
