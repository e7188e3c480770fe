// The alignment of global blocks in every reachable state: local calls never
// touch the arena global blocks are bumped from.
module MscopeAlignment {
  import opened MscopeBlocks
  import opened MscopeState
  import opened MscopeGlobal
  import opened MscopeLocal
  import opened MscopeLeave
  import opened MscopeSurvive
  import opened MscopeScopes
  import opened MscopeNested
  import opened MscopeHistory

  // Arena g is none that a local call may take or fill.
  predicate Elsewhere(st: Scope, g: nat) {
    g in st.arenas && g <= st.obtained && g !in st.local && g !in st.frees
  }

  // st' has the segment lists and the global chain of st, and g as it was.
  predicate SameBump(st: Scope, st': Scope, g: nat) {
    g in st.arenas && Elsewhere(st', g) && st'.arenas[g] == st.arenas[g] &&
    st'.segs == st.segs && st'.global == st.global
  }

  lemma AllocLocalBump(st: Scope, size: nat, g: nat)
    requires LocalHeaded(st) && Elsewhere(st, g)
    ensures g in st.arenas && SameBump(st, AllocLocal(st, size).0, g)
  {
    assert AllocLocal(st, size).0.local[0] != g;
  }

  lemma {:induction false} MoveOutBump(st: Scope, cells: seq<Cell>, cur: nat, j: nat, g: nat)
    requires LocalHeaded(st) && cur in st.arenas && j <= |cells| && Elsewhere(st, g) && cur != g
    ensures var r := MoveOut(st, cells, cur, j); r.Scanned? ==> SameBump(st, r.st, g)
    decreases |cells| - j
  {
    if j == |cells| {
    } else if !PointsInto(cells[j], cur) {
      MoveOutBump(st, cells, cur, j + 1, g);
    } else if st.arenas[cur].limit > ARENA_SIZE {
    } else {
      var (st1, p) := Relocate(st, cells[j].at);
      AllocLocalBump(st, SizeOf(st, cells[j].at), g);
      MoveOutBump(st1, cells[j := Inside(p)], cur, j + 1, g);
    }
  }

  lemma {:induction false} ReleaseAllBump(st: Scope, cells: seq<Cell>, chain: seq<nat>, g: nat)
    requires LocalHeaded(st) && (forall h :: h in chain ==> h in st.arenas) && Elsewhere(st, g) && g !in chain
    ensures var r := ReleaseAll(st, cells, chain); r.Left? ==> SameBump(st, r.st, g)
    decreases |chain|
  {
    if chain != [] {
      var r := MoveOut(st, cells, chain[0], 0);
      MoveOutArenas(st, cells, chain[0], 0);
      MoveOutBump(st, cells, chain[0], 0, g);
      if r.Scanned? {
        ReleaseAllBump(if r.inset then r.st else Release(r.st, chain[0]), r.cells, chain[1..], g);
      }
    }
  }

  // The head of the global chain is out of the local calls' reach.
  lemma HeadElsewhere(st: Scope)
    requires Inv(st, [])
    ensures Headed(st) && (st.global[0] == DUMMY || Elsewhere(st, st.global[0]))
  {
    hide GlobalInv, LocalInv;
    var g := st.global[0];
    if g != DUMMY {
      OnOneChain(st, [], g);
    }
  }

  // A call that leaves the head as it was keeps the phase.
  lemma SamePhase(st: Scope, st': Scope)
    requires Inv(st, []) && Inv(st', []) && Headed(st) && PhaseInv(st) && st'.segs == st.segs && st'.global == st.global
    requires st.global[0] == DUMMY || SameBump(st, st', st.global[0])
    ensures Headed(st') && PhaseInv(st')
  {
    hide GlobalInv, LocalInv, ListsInPhase;
  }

  lemma ExitPhase(st: Scope, s: Addr, cells: seq<Cell>)
    requires Inv(st, []) && Headed(st) && PhaseInv(st) && ValidSign(st, s) && ValidCells(st, cells)
    ensures forall j :: 0 <= j < |cells| ==> !FirstLoopMoves(st, s, cells[j])
    ensures var r := Leave(st, s, cells); r.Left? ==> Inv(r.st, []) && Headed(r.st) && PhaseInv(r.st)
  {
    hide GlobalInv, LocalInv, Clean, PhaseInv, Leaving, Elsewhere;
    LeaveInv(st, s, cells);
    HeadElsewhere(st);
    RewoundBump(st, s);
    var r := Leave(st, s, cells);
    if r.Left? {
      LeftInv(st, s, cells);
      if st.global[0] != DUMMY {
        ReleaseAllBump(Rewound(st, s), cells, Newer(st, s), st.global[0]);
        BumpTransitive(st, Rewound(st, s), r.st, st.global[0]);
      }
      SamePhase(st, r.st);
    }
  }

  lemma LeftInv(st: Scope, s: Addr, cells: seq<Cell>)
    requires Inv(st, []) && ValidSign(st, s) && ValidCells(st, cells)
    ensures forall j :: 0 <= j < |cells| ==> !FirstLoopMoves(st, s, cells[j])
    ensures var r := Leave(st, s, cells); r.Left? ==> Inv(r.st, []) && r.st.segs == st.segs && r.st.global == st.global
  {
    LeaveInv(st, s, cells);
  }

  lemma BumpTransitive(a: Scope, b: Scope, c: Scope, g: nat)
    requires g in a.arenas && SameBump(a, b, g) && SameBump(b, c, g)
    ensures SameBump(a, c, g)
  {
  }

  lemma RewoundBump(st: Scope, s: Addr)
    requires Inv(st, []) && ValidSign(st, s)
    ensures LocalHeaded(Rewound(st, s)) && forall h :: h in Newer(st, s) ==> h in st.local && h in Rewound(st, s).arenas
    ensures forall g :: Elsewhere(st, g) ==> SameBump(st, Rewound(st, s), g) && g !in Newer(st, s)
  {
    hide GlobalInv, LocalInv, Clean;
    RewoundInv(st, s);
  }

  lemma CreatePhase()
    ensures Headed(Create()) && PhaseInv(Create())
  {
  }

  lemma CallKeepsPhase(m: Machine, op: Op)
    requires m.Machine? && MachineInv(m) && Legal(m, op) && Headed(m.st) && PhaseInv(m.st)
    ensures var m' := Call(m, op); m'.Machine? ==> Headed(m'.st) && PhaseInv(m'.st)
  {
    hide GlobalInv, LocalInv, PhaseInv, SignsOk, Elsewhere;
    CallKeepsInv(m, op);
    HeadElsewhere(m.st);
    match op
    case AllocateGlobal(size) =>
      GlobalPhase(m.st, AlignSize(size));
    case AllocateLocal(size) =>
      if m.st.global[0] != DUMMY {
        AllocLocalBump(m.st, AlignSize(size), m.st.global[0]);
      }
      AllocLocalGlobals(m.st, AlignSize(size));
      SamePhase(m.st, Call(m, op).st);
    case Enter =>
    case Exit(k, cells) =>
      OneSign(m, k);
      ExitPhase(m.st, m.signs[k], cells);
    case Reclaim =>
      CollectBump(m.st, m.st.global[0]);
      SamePhase(m.st, CollectFrees(m.st));
    case Write(bytes) =>
      WriteBump(m.st, bytes, m.st.global[0]);
      SamePhase(m.st, m.st.(bytes := bytes));
  }

  lemma OneSign(m: Machine, k: nat)
    requires m.Machine? && MachineInv(m) && k < |m.signs|
    ensures ValidSign(m.st, m.signs[k])
  {
  }

  lemma GlobalPhase(st: Scope, size: nat)
    requires Inv(st, []) && Headed(st) && PhaseInv(st) && size % 16 == 0
    ensures Headed(AllocGlobal(st, size).0) && PhaseInv(AllocGlobal(st, size).0)
  {
    AllocGlobalAlignment(st, size);
  }

  lemma AllocLocalGlobals(st: Scope, size: nat)
    requires LocalHeaded(st)
    ensures AllocLocal(st, size).0.segs == st.segs && AllocLocal(st, size).0.global == st.global
  {
  }

  lemma CollectBump(st: Scope, g: nat)
    requires g in st.arenas && (g == DUMMY || Elsewhere(st, g))
    ensures g == DUMMY || SameBump(st, CollectFrees(st), g)
    ensures CollectFrees(st).segs == st.segs && CollectFrees(st).global == st.global
  {
  }

  lemma WriteBump(st: Scope, bytes: map<nat, seq<int>>, g: nat)
    requires g in st.arenas && (g == DUMMY || Elsewhere(st, g))
    ensures g == DUMMY || SameBump(st, st.(bytes := bytes), g)
  {
  }

  lemma {:induction false} HistoryKeepsPhase(m: Machine, ops: seq<Op>, m': Machine)
    requires MachineInv(m) && Reaches(m, ops, m') && (m.Machine? ==> Headed(m.st) && PhaseInv(m.st))
    ensures m'.Machine? ==> Headed(m'.st) && PhaseInv(m'.st)
    decreases |ops|
  {
    hide PhaseInv, Inv, SignsOk;
    if ops != [] {
      CallKeepsInv(m, ops[0]);
      CallKeepsPhase(m, ops[0]);
      HistoryKeepsPhase(Call(m, ops[0]), ops[1..], m');
    }
  }

  // After every history from creation, a global request is aligned as MAKEALIGN
  // intends exactly if no class of the free lists serves it, and stands 8 past a
  // multiple of 16 exactly if one does.
  lemma ReachableAlignment(ops: seq<Op>, m: Machine, size: nat)
    requires MachineInv(Created()) && Reaches(Created(), ops, m) && m.Machine?
    ensures MachineInv(m)
    ensures var at := AllocGlobal(m.st, AlignSize(size)).1;
      && (at.off % 16 == 0 <==> BestFit(m.st.segs, AlignSize(size)).NoFit?)
      && (at.off % 16 == 8 <==> BestFit(m.st.segs, AlignSize(size)).Fit?)
  {
    CreatePhase();
    HistoryKeepsInv(Created(), ops, m);
    HistoryKeepsPhase(Created(), ops, m);
    AllocGlobalAlignment(m.st, AlignSize(size));
  }
}
