// What the callers of the allocator get: every pointer starts a live block of the
// size asked for, taken from where the source takes it, and stays one.
module MscopeAnswers {
  import opened MscopeBlocks
  import opened MscopeState
  import opened MscopeGlobal
  import opened MscopeLocal
  import opened MscopeLeave
  import opened MscopeSurvive
  import opened MscopeScopes
  import opened MscopeNested
  import opened MscopeHistory

  // A global request is answered with the start of one new block of its size: the
  // high end of the first block of the smallest class that fits, else the start of
  // the tail, else the start of a new arena, which goes in front of the others.
  lemma AllocGlobalAnswers(st: Scope, size: nat)
    requires Inv(st, []) && size % 16 == 0
    ensures var (st', at) := AllocGlobal(st, size);
      && st'.gblocks == st.gblocks + [Block(at, size)]
      && (BestFit(st.segs, size).Fit? ==>
           FromList(st, size, at) && st' == st.(segs := st'.segs, gblocks := st'.gblocks))
      && (BestFit(st.segs, size).NoFit? && !TailTooShort(st, size) ==>
           && at == Addr(st.global[0], st.arenas[st.global[0]].avail)
           && st' == st.(arenas := st'.arenas, gblocks := st'.gblocks)
           && st'.arenas == st.arenas[at.arena := Arena(at.off + size, st.arenas[at.arena].limit)])
      && (Retires(st, size) ==>
           && st'.global == [at.arena] + st.global && at.off == HEADER
           && at.arena in st'.arenas && st'.arenas[at.arena].avail == HEADER + size
           && Taken(st, size, st', at.arena))
  {
    if Retires(st, size) {
      var st0 := TailCarved(st);
      AcquireTakes(st0, size);
      RetireArenas(st, size);
    }
  }

  // The high end of the popped block.
  predicate FromList(st: Scope, size: nat, at: Addr)
    requires BestFit(st.segs, size).Fit?
  {
    var k := BestFit(st.segs, size).k;
    at.arena == st.segs[k][0].at.arena && at.off + size == st.segs[k][0].at.off + SegSize(k)
  }

  // The arena is the first cached one, or one newly obtained.
  predicate Taken(st: Scope, hint: nat, st': Scope, h: nat) {
    && h in st'.arenas && st'.returned == st.returned
    && if hint + HEADER <= ARENA_SIZE && st.frees != [] then
         st.frees == [h] + st'.frees && st'.obtained == st.obtained
       else
         && h == st.obtained + 1 == st'.obtained && st'.frees == st.frees
         && st'.arenas[h].limit == Max(ARENA_SIZE, hint + HEADER)
  }

  // A local request is answered from the newest arena if it fits there, else from
  // the start of an arena that goes in front of it.
  lemma AllocLocalAnswers(st: Scope, size: nat)
    requires Inv(st, [])
    ensures var (st', p) := AllocLocal(st, size);
      var total, top := size + ALIGNMENT, st.arenas[st.local[0]];
      && (top.avail + total <= top.limit ==>
           st'.local == st.local && p == Addr(st.local[0], top.avail + ALIGNMENT) && st'.frees == st.frees
           && st'.obtained == st.obtained)
      && (top.avail + total > top.limit ==>
           st'.local == [p.arena] + st.local && p.off == HEADER + ALIGNMENT && Taken(st, total, st', p.arena))
      && st'.gblocks == st.gblocks && st'.segs == st.segs && st'.global == st.global
  {
    if st.arenas[st.local[0]].avail + size + ALIGNMENT > st.arenas[st.local[0]].limit {
      AcquireTakes(st, size + ALIGNMENT);
    }
  }

  // A standard arena released is the next one taken, and asks nothing of the backing
  // allocator.
  lemma ReleasedIsReused(st: Scope, h: nat, hint: nat)
    requires h in st.arenas && st.arenas[h].limit == ARENA_SIZE && hint + HEADER <= ARENA_SIZE
    ensures var (st', g) := Acquire(Release(st, h), hint);
      && g == h && st'.frees == st.frees && st'.returned == st.returned && st'.obtained == st.obtained
      && st'.arenas == st.arenas[h := Arena(HEADER, ARENA_SIZE)]
  {
    AcquireTakes(Release(st, h), hint);
  }

  // ---- over histories -----------------------------------------------------------

  lemma CallKeepsGlobals(m: Machine, op: Op)
    requires m.Machine? && MachineInv(m) && Legal(m, op)
    ensures var m' := Call(m, op); m'.Machine? ==> m.st.gblocks <= m'.st.gblocks
  {
    hide Inv, SignsOk, Leave;
    match op
    case AllocateGlobal(size) => AllocGlobalAnswers(m.st, AlignSize(size));
    case AllocateLocal(size) => AllocLocalAnswers(m.st, AlignSize(size));
    case Exit(k, cells) =>
      assert ValidSign(m.st, m.signs[k]) by { SignAt(m, k); }
      LeaveKeepsParent(m.st, m.signs[k], cells);
    case _ =>
  }

  lemma SignAt(m: Machine, k: nat)
    requires m.Machine? && MachineInv(m) && k < |m.signs|
    ensures ValidSign(m.st, m.signs[k])
  {
  }

  lemma {:induction false} HistoryKeepsGlobals(m: Machine, ops: seq<Op>, m': Machine)
    requires m.Machine? && MachineInv(m) && Reaches(m, ops, m') && m'.Machine?
    ensures m.st.gblocks <= m'.st.gblocks
    decreases |ops|
  {
    hide MachineInv, Legal, Call;
    if ops != [] {
      CallKeepsInv(m, ops[0]);
      CallKeepsGlobals(m, ops[0]);
      if Call(m, ops[0]).Machine? {
        HistoryKeepsGlobals(Call(m, ops[0]), ops[1..], m');
      }
    }
  }

  // Whatever is called afterwards, what a global request returns starts a block of
  // the aligned size that stays the caller's for good, apart from the block of
  // every other request, every free segment and the tail.
  lemma GlobalAnswerLives(m: Machine, size: nat, after: seq<Op>, m': Machine)
    requires m.Machine? && MachineInv(m) && Reaches(m, [AllocateGlobal(size)] + after, m') && m'.Machine?
    ensures var b, n := Block(AllocGlobal(m.st, AlignSize(size)).1, AlignSize(size)), |m.st.gblocks|;
      && n < |m'.st.gblocks| && m'.st.gblocks[n] == b && Headed(m'.st)
      && forall i :: 0 <= i < |GlobalRanges(m'.st)| && i != n ==> Apart(GlobalRanges(m'.st)[i], b)
  {
    hide SignsOk, Apart, AllocGlobal, ArenaInv, GlobalInv, LocalInv;
    var ops := [AllocateGlobal(size)] + after;
    assert ops[0] == AllocateGlobal(size) && ops[1..] == after;
    AllocGlobalAnswers(m.st, AlignSize(size));
    HistoryKeepsInv(m, ops, m');
    CallKeepsInv(m, ops[0]);
    var m1 := Call(m, ops[0]);
    HistoryKeepsGlobals(m1, after, m');
    GlobalHeaded(m'.st);
    var n := |m.st.gblocks|;
    assert m1.st.gblocks[n] == m'.st.gblocks[n] == GlobalRanges(m'.st)[n];
    forall i | 0 <= i < |GlobalRanges(m'.st)| && i != n
      ensures Apart(GlobalRanges(m'.st)[i], m'.st.gblocks[n])
    {
      if i < n {
        GlobalRangesDisjoint(m'.st, i, n);
      } else {
        GlobalRangesDisjoint(m'.st, n, i);
        ApartBack(GlobalRanges(m'.st)[n], GlobalRanges(m'.st)[i]);
      }
    }
  }

  lemma ApartBack(a: Block, b: Block)
    requires Apart(a, b)
    ensures Apart(b, a)
  {
  }

  // ---- local blocks over histories ------------------------------------------------

  // b is live, and below every signature but the oldest depth ones.
  ghost predicate Keeps(m: Machine, depth: nat, b: Block) {
    && m.Machine? && b in m.st.lblocks && depth <= |m.signs|
    && forall i :: 0 <= i < |m.signs| - depth ==> Older(m.st, m.signs[i], b)
  }

  ghost predicate Older(st: Scope, sign: Addr, b: Block) {
    SignInChain(st, sign) && OfParent(sign, Newer(st, sign), b)
  }

  // The call leaves no scope but those entered when more than depth were open.
  predicate LeavesNewer(m: Machine, depth: nat, op: Op)
    requires m.Machine?
  {
    op.Exit? ==> op.k + depth < |m.signs|
  }

  lemma OlderGrown(st: Scope, st': Scope, sign: Addr, b: Block)
    requires Grown(st, st') && Older(st, sign, b) && b.at.arena in st.local && ValidSign(st', sign)
    ensures Older(st', sign, b)
  {
    hide IndexOf;
  }

  lemma LeaveGrown(st: Scope, s: Addr, cells: seq<Cell>)
    requires Inv(st, []) && ValidSign(st, s) && ValidCells(st, cells)
    ensures forall j :: 0 <= j < |cells| ==> !FirstLoopMoves(st, s, cells[j])
    ensures var r := Leave(st, s, cells); r.Left? ==> Grown(Rewound(st, s), r.st)
  {
    LeaveInv(st, s, cells);
    LeavingStarts(st, s, cells);
    assert forall h :: h in Newer(st, s) ==> h in st.local;
    ReleaseAllGrown(st, s, cells, Newer(st, s), Rewound(st, s), cells, Newer(st, s));
  }

  lemma RewoundOlder(st: Scope, s: Addr, t: Addr, b: Block)
    requires ValidSign(st, s) && ValidSign(st, t) && Nested(st, t, s) && Older(st, s, b) && Older(st, t, b)
    requires b.at.arena in st.local
    ensures ValidSign(Rewound(st, s), t) && Older(Rewound(st, s), t, b) && b.at.arena in Rewound(st, s).local
  {
    hide Clean, Below, IndexOf;
    RewoundSign(st, s, t);
    assert st.local == Newer(st, s) + Rewound(st, s).local;
  }

  lemma ExitKeepsBlock(m: Machine, depth: nat, b: Block, k: nat, cells: seq<Cell>)
    requires Keeps(m, depth, b) && MachineInv(m) && Legal(m, Exit(k, cells)) && k + depth < |m.signs|
    ensures var m' := Call(m, Exit(k, cells));
      m'.Machine? ==> Keeps(m', depth, b) && Content(m'.st, b) == Content(m.st, b)
  {
    hide Inv, ValidSign, ValidCells, Older, Nested, Grown, Leave, OfParent, FirstLoopMoves, Rewound;
    var st, s := m.st, m.signs[k];
    var m' := Call(m, Exit(k, cells));
    assert ValidSign(st, s) && Older(st, s, b);
    if m'.Machine? {
      LeaveKeepsParent(st, s, cells);
      LeaveGrown(st, s, cells);
      BlockInChain(st, b);
      CallKeepsInv(m, Exit(k, cells));
      OlderMeans(st, s, b);
      forall i | 0 <= i < |m'.signs| - depth ensures Older(m'.st, m'.signs[i], b) {
        var t := m.signs[k + 1 + i];
        assert m'.signs[i] == t && Nested(st, t, s) && Older(st, t, b);
        assert ValidSign(st, t) && ValidSign(m'.st, m'.signs[i]);
        RewoundOlder(st, s, t, b);
        OlderGrown(Rewound(st, s), m'.st, t, b);
      }
    }
  }

  lemma OlderMeans(st: Scope, s: Addr, b: Block)
    requires Older(st, s, b)
    ensures SignInChain(st, s) && OfParent(s, Newer(st, s), b)
  {
  }

  lemma BlockInChain(st: Scope, b: Block)
    requires Inv(st, []) && b in st.lblocks
    ensures b.at.arena in st.local && b.at.arena in st.arenas && b.at.off < st.arenas[b.at.arena].avail
  {
    BlockBelowAvail(st, [], b);
  }

  lemma GrownKeepsBlock(m: Machine, depth: nat, b: Block, m': Machine)
    requires Keeps(m, depth, b) && MachineInv(m) && MachineInv(m') && m'.Machine? && m'.signs == m.signs
    requires Grown(m.st, m'.st) && b in m'.st.lblocks
    ensures Keeps(m', depth, b)
  {
    hide Inv, ValidSign, Older, Nested, Grown;
    BlockInChain(m.st, b);
    forall i | 0 <= i < |m'.signs| - depth ensures Older(m'.st, m'.signs[i], b) {
      assert Older(m.st, m.signs[i], b) && ValidSign(m'.st, m'.signs[i]);
      OlderGrown(m.st, m'.st, m.signs[i], b);
    }
  }

  lemma EnterKeepsBlock(m: Machine, depth: nat, b: Block)
    requires Keeps(m, depth, b) && MachineInv(m)
    ensures LocalHeaded(m.st) && Keeps(Machine(m.st, [EnterSign(m.st)] + m.signs), depth, b)
  {
    hide Inv, ValidSign, Older, SignsOk;
    EnterValid(m.st);
    BlockInChain(m.st, b);
    TopIsOlder(m.st, b);
    var signs := [EnterSign(m.st)] + m.signs;
    forall i | 0 <= i < |signs| - depth ensures Older(m.st, signs[i], b) {
      assert i > 0 ==> signs[i] == m.signs[i - 1];
    }
  }

  lemma TopIsOlder(st: Scope, b: Block)
    requires LocalHeaded(st) && ValidSign(st, EnterSign(st))
    requires b.at.arena in st.local && b.at.arena in st.arenas && b.at.off < st.arenas[b.at.arena].avail
    ensures Older(st, EnterSign(st), b)
  {
    assert Newer(st, EnterSign(st)) == [];
  }

  // A write that leaves the bytes of b alone.
  predicate Spares(m: Machine, op: Op, b: Block)
    requires m.Machine?
  {
    op.Write? ==> BytesOf(op.bytes, b) == Content(m.st, b)
  }

  lemma CallKeepsBlock(m: Machine, depth: nat, b: Block, op: Op)
    requires Keeps(m, depth, b) && m.Machine? && MachineInv(m) && Legal(m, op)
    requires LeavesNewer(m, depth, op) && Spares(m, op, b)
    ensures var m' := Call(m, op); m'.Machine? ==> Keeps(m', depth, b) && Content(m'.st, b) == Content(m.st, b)
  {
    hide Inv, SignsOk, Keeps, Grown;
    CallKeepsInv(m, op);
    match op
    case Enter => EnterKeepsBlock(m, depth, b);
    case Exit(k, cells) => ExitKeepsBlock(m, depth, b, k, cells);
    case _ =>
      var m' := Call(m, op);
      CallGrows(m, op, b) by { KeepsLive(m, depth, b); }
      GrownKeepsBlock(m, depth, b, m');
  }

  // Calls that neither open nor close a scope.
  lemma CallGrows(m: Machine, op: Op, b: Block)
    requires m.Machine? && MachineInv(m) && Legal(m, op) && !op.Enter? && !op.Exit?
    requires b in m.st.lblocks && Spares(m, op, b)
    ensures var m' := Call(m, op);
      m'.Machine? && Grown(m.st, m'.st) && m'.signs == m.signs
      && b in m'.st.lblocks && Content(m'.st, b) == Content(m.st, b)
  {
    hide SignsOk, Grown, Extends, LocalInv, GlobalInv, HandleInv, Leave;
    match op
    case AllocateGlobal(size) =>
      GlobalLeavesLocals(m.st, AlignSize(size));
      SameLocalsGrown(m.st, Call(m, op).st);
      AllocGlobalExtends(m.st, AlignSize(size));
      ExtendsContent(m.st, Call(m, op).st, b);
    case AllocateLocal(size) =>
      AllocLocalGrown(m.st, AlignSize(size), []);
      AllocLocalExtends(m.st, AlignSize(size));
      ExtendsContent(m.st, Call(m, op).st, b);
    case Reclaim => SameLocalsGrown(m.st, CollectFrees(m.st));
    case Write(bytes) => SameLocalsGrown(m.st, m.st.(bytes := bytes));
  }

  lemma KeepsLive(m: Machine, depth: nat, b: Block)
    requires Keeps(m, depth, b)
    ensures b in m.st.lblocks
  {
  }

  lemma ExtendsContent(st: Scope, st': Scope, b: Block)
    requires LocalHeaded(st) && Extends(st, st') && b in st.lblocks
    ensures b in st'.lblocks && Content(st', b) == Content(st, b)
  {
    hide ExtendsChain;
    var i :| 0 <= i < |st.lblocks| && st.lblocks[i] == b;
    assert st'.lblocks[i] == b;
  }

  // The calls leave only scopes newer than depth, and no write touches b.
  ghost predicate Spared(m: Machine, depth: nat, b: Block, ops: seq<Op>)
    requires m.Machine? && MachineInv(m)
    decreases |ops|
  {
    ops == [] || !Legal(m, ops[0]) ||
    (LeavesNewer(m, depth, ops[0]) && Spares(m, ops[0], b) &&
     (CallKeepsInv(m, ops[0]); Call(m, ops[0]).Machine? ==> Spared(Call(m, ops[0]), depth, b, ops[1..])))
  }

  lemma {:induction false} HistoryKeepsBlock(m: Machine, depth: nat, b: Block, ops: seq<Op>, m': Machine)
    requires Keeps(m, depth, b) && MachineInv(m) && Spared(m, depth, b, ops) && Reaches(m, ops, m') && m'.Machine?
    ensures Keeps(m', depth, b) && Content(m'.st, b) == Content(m.st, b)
    decreases |ops|
  {
    hide MachineInv, Legal, Call, Keeps, Spares, LeavesNewer;
    if ops != [] {
      CallKeepsInv(m, ops[0]);
      CallKeepsBlock(m, depth, b, ops[0]);
      if Call(m, ops[0]).Machine? {
        HistoryKeepsBlock(Call(m, ops[0]), depth, b, ops[1..], m');
      }
    }
  }

  // What a local request returns starts a block of the aligned size, behind its
  // size word, and the block is live at the same address until a scope is left
  // that was open when it was made: whatever is called in between, scopes entered
  // and left with survivors included, and with the same bytes unless the caller
  // writes them.
  lemma LocalAnswerLives(m: Machine, size: nat, after: seq<Op>, m': Machine)
    requires m.Machine? && MachineInv(m) && Reaches(m, [AllocateLocal(size)] + after, m') && m'.Machine?
    requires var b := LocalBlock(AllocLocal(m.st, AlignSize(size)).1, AlignSize(size));
      (CallKeepsInv(m, AllocateLocal(size)); Spared(Call(m, AllocateLocal(size)), |m.signs|, b, after))
    ensures var b := LocalBlock(AllocLocal(m.st, AlignSize(size)).1, AlignSize(size));
      && Payload(b) == AllocLocal(m.st, AlignSize(size)).1
      && b in m'.st.lblocks && SizeWord(m'.st, b)
      && Content(m'.st, b) == Content(AllocLocal(m.st, AlignSize(size)).0, b)
  {
    hide SignsOk, Spared, AllocLocal, Keeps, Content, HandleInv, GlobalInv, LocalInv, SizeWord, LocalBlock;
    var ops := [AllocateLocal(size)] + after;
    assert ops[0] == AllocateLocal(size) && ops[1..] == after;
    CallKeepsInv(m, ops[0]);
    LocalMade(m, size);
    var b := LocalBlock(AllocLocal(m.st, AlignSize(size)).1, AlignSize(size));
    var m1 := Call(m, ops[0]);
    HistoryKeepsBlock(m1, |m.signs|, b, after, m');
    HistoryKeepsInv(m1, after, m');
    assert b in m'.st.lblocks by { KeepsLive(m', |m.signs|, b); }
    BlockBelowAvail(m'.st, [], b);
  }

  lemma LocalMade(m: Machine, size: nat)
    requires m.Machine? && MachineInv(m)
    ensures var m1, p := Call(m, AllocateLocal(size)), AllocLocal(m.st, AlignSize(size)).1;
      && Payload(LocalBlock(p, AlignSize(size))) == p
      && m1.st == AllocLocal(m.st, AlignSize(size)).0
      && Keeps(m1, |m.signs|, LocalBlock(p, AlignSize(size)))
  {
    hide SignsOk, AllocLocal;
    AllocLocalInv(m.st, AlignSize(size), []);
  }

  // The block, size word in front, whose payload of n bytes starts at p.
  function LocalBlock(p: Addr, n: nat): Block {
    Block(Addr(p.arena, if p.off >= ALIGNMENT then p.off - ALIGNMENT else 0), n + ALIGNMENT)
  }
}
