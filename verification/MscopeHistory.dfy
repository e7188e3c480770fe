// Every call history of the allocator, survivors included, keeps the invariant
// and every signature still outstanding.
module MscopeHistory {
  import opened MscopeBlocks
  import opened MscopeState
  import opened MscopeGlobal
  import opened MscopeLocal
  import opened MscopeLeave
  import opened MscopeSurvive
  import opened MscopeScopes
  import opened MscopeNested

  // Arenas of a are in b, and in front of any of them b has only arenas that
  // were in front of it in a, or new ones.
  ghost predicate KeepsOrder(a: seq<nat>, b: seq<nat>) {
    forall x :: x in a ==> x in b && forall h :: h in b[..IndexOf(b, x)] && h in a ==> h in a[..IndexOf(a, x)]
  }

  lemma {:induction false} IndexOfUnique(s: seq<nat>, i: nat)
    requires i < |s| && s[i] !in s[..i]
    ensures IndexOf(s, s[i]) == i
  {
    if i > 0 {
      assert s[..i] == [s[0]] + s[1..][..i - 1];
      IndexOfUnique(s[1..], i - 1);
    }
  }

  lemma IndexOfSuffix(pre: seq<nat>, a: seq<nat>, x: nat)
    requires x !in pre && x in a
    ensures IndexOf(pre + a, x) == |pre| + IndexOf(a, x)
  {
    hide IndexOf;
    var s, i := pre + a, IndexOf(a, x);
    var k := |pre| + i;
    assert s[k] == x && s[..k] == pre + a[..i];
    IndexOfUnique(s, k);
  }

  lemma PushKeepsOrder(h: nat, a: seq<nat>)
    requires h !in a
    ensures KeepsOrder(a, [h] + a)
  {
    forall x | x in a
      ensures x in [h] + a && forall g :: g in ([h] + a)[..IndexOf([h] + a, x)] && g in a ==> g in a[..IndexOf(a, x)]
    {
      IndexOfSuffix([h], a, x);
      assert ([h] + a)[..1 + IndexOf(a, x)] == [h] + a[..IndexOf(a, x)];
    }
  }

  lemma InsetKeepsOrder(cur: nat, a: seq<nat>)
    requires a != [] && cur !in a
    ensures KeepsOrder(a, [a[0], cur] + a[1..])
  {
    var b := [a[0], cur] + a[1..];
    forall x | x in a ensures x in b && forall g :: g in b[..IndexOf(b, x)] && g in a ==> g in a[..IndexOf(a, x)] {
      var i := IndexOf(a, x);
      if i == 0 {
        IndexOfUnique(b, 0);
      } else {
        assert b[i + 1] == x;
        assert b[..i + 1] == [a[0], cur] + a[1..i];
        assert a[..i] == [a[0]] + a[1..i];
        IndexOfUnique(b, i + 1);
      }
    }
  }

  lemma KeepsOrderTransitive(a: seq<nat>, b: seq<nat>, c: seq<nat>)
    requires KeepsOrder(a, b) && KeepsOrder(b, c)
    ensures KeepsOrder(a, c)
  {
  }

  // st' has all of st's local arenas, in order, filled no less, and every block
  // it has more than st lies in a newer arena or above the old avail.
  ghost predicate Grown(st: Scope, st': Scope) {
    && (forall h :: h in st.local ==> h in st.arenas && h in st'.arenas && st'.arenas[h].avail >= st.arenas[h].avail)
    && KeepsOrder(st.local, st'.local)
    && (forall b :: b in st'.lblocks ==> b in st.lblocks || Later(st, b))
  }

  predicate Later(st: Scope, b: Block) {
    b.at.arena in st.local ==> b.at.arena in st.arenas && b.at.off >= st.arenas[b.at.arena].avail
  }

  lemma GrownTransitive(a: Scope, b: Scope, c: Scope)
    requires Grown(a, b) && Grown(b, c)
    ensures Grown(a, c)
  {
    KeepsOrderTransitive(a.local, b.local, c.local);
  }

  lemma RoomGrown(st: Scope, total: nat, pend: seq<nat>)
    requires Inv(st, pend) && total > 0
    ensures Grown(st, Room(st, total))
  {
    AcquireArenas(st, total, pend);
    var st' := Room(st, total);
    if st'.local != st.local {
      PushKeepsOrder(st'.local[0], st.local);
      assert st'.local == [st'.local[0]] + st.local;
    }
  }

  lemma RelocateGrown(st: Scope, src: Addr, pend: seq<nat>)
    requires Inv(st, pend)
    ensures Grown(st, Relocate(st, src).0)
  {
    AllocLocalGrown(st, SizeOf(st, src), pend);
  }

  lemma AllocLocalGrown(st: Scope, size: nat, pend: seq<nat>)
    requires Inv(st, pend)
    ensures Grown(st, AllocLocal(st, size).0)
  {
    var st1 := Room(st, size + ALIGNMENT);
    RoomGrown(st, size + ALIGNMENT, pend);
    RoomInv(st, size + ALIGNMENT, pend);
    var st2 := PushBlock(st1, TopBlock(st1, size + ALIGNMENT));
    forall b | b in st2.lblocks ensures b in st1.lblocks || Later(st1, b) {
    }
    GrownTransitive(st, st1, st2);
  }

  lemma ReleaseGrown(st: Scope, cur: nat, pend: seq<nat>)
    requires Inv(st, [cur] + pend) && cur in st.arenas
    ensures Grown(st, Release(st, cur))
  {
    forall b | b in Release(st, cur).lblocks ensures b in st.lblocks {
      WithoutMember(st.lblocks, cur, b);
    }
  }

  lemma InsetGrown(st: Scope, cur: nat, pend: seq<nat>)
    requires Inv(st, [cur] + pend)
    ensures Grown(st, Inset(st, cur))
  {
    SinglePlace(st, pend, cur);
    ChainSplit(st.local);
    InsetKeepsOrder(cur, st.local);
  }

  lemma {:induction false} MoveOutGrown(st0: Scope, sign: Addr, cells0: seq<Cell>, newer: seq<nat>,
                       st: Scope, cells: seq<Cell>, cur: nat, pend: seq<nat>, j: nat)
    requires Leaving(st0, sign, cells0, newer, st, cells, [cur] + pend)
    requires cur in newer && cur in st.arenas && j <= |cells| && NonePointsInto(cells, j, cur)
    ensures var r := MoveOut(st, cells, cur, j); r.Scanned? ==> Grown(st, r.st)
    decreases |cells| - j
  {
    if j == |cells| {
    } else if !PointsInto(cells[j], cur) {
      MoveOutGrown(st0, sign, cells0, newer, st, cells, cur, pend, j + 1);
    } else if st.arenas[cur].limit > ARENA_SIZE {
      InsetGrown(st, cur, pend);
    } else {
      var (st1, p) := Relocate(st, cells[j].at);
      RelocateLeaves(st0, sign, cells0, newer, st, cells, cur, [cur] + pend, j);
      RelocateGrown(st, cells[j].at, [cur] + pend);
      MoveOutGrown(st0, sign, cells0, newer, st1, cells[j := Inside(p)], cur, pend, j + 1);
      var r := MoveOut(st, cells, cur, j);
      if r.Scanned? {
        GrownTransitive(st, st1, r.st);
      }
    }
  }

  lemma {:induction false} ReleaseAllGrown(st0: Scope, sign: Addr, cells0: seq<Cell>, newer: seq<nat>,
                          st: Scope, cells: seq<Cell>, chain: seq<nat>)
    requires Leaving(st0, sign, cells0, newer, st, cells, chain)
    requires forall h :: h in chain ==> h in newer && h in st.arenas
    ensures var r := ReleaseAll(st, cells, chain); r.Left? ==> Grown(st, r.st)
    decreases |chain|, 0
  {
    if chain != [] {
      var cur, pend := chain[0], chain[1..];
      assert chain == [cur] + pend;
      var r := MoveOut(st, cells, cur, 0);
      MoveOutArenas(st, cells, cur, 0);
      MoveOutLeaves(st0, sign, cells0, newer, st, cells, cur, pend, 0);
      MoveOutGrown(st0, sign, cells0, newer, st, cells, cur, pend, 0);
      if r.Scanned? {
        ReleaseRestGrown(st0, sign, cells0, newer, st, r, cur, pend);
      }
    }
  }

  // The rest of the chain, after arena cur has been scanned.
  lemma {:induction false} ReleaseRestGrown(st0: Scope, sign: Addr, cells0: seq<Cell>, newer: seq<nat>,
                           st: Scope, r: Scanned, cur: nat, pend: seq<nat>)
    requires r.Scanned? && Grown(st, r.st) && cur in newer && cur in r.st.arenas
    requires forall h :: h in pend ==> h in newer && h in r.st.arenas
    requires r.inset ==> Leaving(st0, sign, cells0, newer, r.st, r.cells, pend)
    requires !r.inset ==>
               Leaving(st0, sign, cells0, newer, r.st, r.cells, [cur] + pend) && NonePointsInto(r.cells, |r.cells|, cur)
    ensures LocalHeaded(r.st)
    ensures var l := ReleaseAll(if r.inset then r.st else Release(r.st, cur), r.cells, pend);
      l.Left? ==> Grown(st, l.st)
    decreases |pend|, 1
  {
    if r.inset {
      ReleaseAllGrown(st0, sign, cells0, newer, r.st, r.cells, pend);
      var l := ReleaseAll(r.st, r.cells, pend);
      if l.Left? { GrownTransitive(st, r.st, l.st); }
    } else {
      ReleaseLeaves(st0, sign, cells0, newer, r.st, r.cells, cur, pend);
      ReleaseGrown(r.st, cur, pend);
      GrownTransitive(st, r.st, Release(r.st, cur));
      ReleaseAllGrown(st0, sign, cells0, newer, Release(r.st, cur), r.cells, pend);
      var l := ReleaseAll(Release(r.st, cur), r.cells, pend);
      if l.Left? { GrownTransitive(st, Release(r.st, cur), l.st); }
    }
  }

  // ---- outstanding signatures -----------------------------------------------

  // The older signature is not in a newer arena than the newer one, nor above it.
  ghost predicate Nested(st: Scope, older_: Addr, newer: Addr)
    requires SignInChain(st, newer)
  {
    older_.arena !in Newer(st, newer) && (older_.arena == newer.arena ==> older_.off <= newer.off)
  }

  // Signatures entered and not left, newest first.
  ghost predicate SignsOk(st: Scope, signs: seq<Addr>) {
    && (forall i :: 0 <= i < |signs| ==> ValidSign(st, signs[i]))
    && (forall i, j :: 0 <= i < j < |signs| ==> Nested(st, signs[j], signs[i]))
  }

  lemma GrownSigns(st: Scope, st': Scope, signs: seq<Addr>, pend: seq<nat>)
    requires SignsOk(st, signs) && Grown(st, st') && Inv(st', pend)
    ensures SignsOk(st', signs)
  {
    forall i | 0 <= i < |signs| ensures ValidSign(st', signs[i]) {
      GrownSign(st, st', signs[i]);
    }
    forall i, j | 0 <= i < j < |signs| ensures Nested(st', signs[j], signs[i]) {
      assert Nested(st, signs[j], signs[i]);
      assert ValidSign(st, signs[j]) && ValidSign(st, signs[i]);
    }
  }

  lemma GrownSign(st: Scope, st': Scope, s: Addr)
    requires ValidSign(st, s) && Grown(st, st') && forall h :: h in st'.local ==> h in st'.arenas
    ensures ValidSign(st', s)
  {
    forall i | 0 <= i < |st'.lblocks| && st'.lblocks[i].at.arena == s.arena
      ensures st'.lblocks[i].at.off + st'.lblocks[i].size <= s.off || s.off <= st'.lblocks[i].at.off
    {
      if st'.lblocks[i] in st.lblocks {
        var k :| 0 <= k < |st.lblocks| && st.lblocks[k] == st'.lblocks[i];
      }
    }
  }

  lemma EnterValid(st: Scope)
    requires Inv(st, [])
    ensures LocalHeaded(st) && ValidSign(st, EnterSign(st))
  {
    var s := EnterSign(st);
    assert ArenaOk(st, st.local[0]);
    forall i | 0 <= i < |st.lblocks| && st.lblocks[i].at.arena == s.arena
      ensures st.lblocks[i].at.off + st.lblocks[i].size <= s.off
    {
      BlockBelowAvail(st, [], st.lblocks[i]);
    }
  }

  lemma EnterSigns(st: Scope, signs: seq<Addr>)
    requires Inv(st, []) && SignsOk(st, signs)
    ensures LocalHeaded(st) && SignsOk(st, [EnterSign(st)] + signs)
  {
    var s := EnterSign(st);
    EnterValid(st);
    assert Newer(st, s) == [];
    var all := [s] + signs;
    forall i, j | 0 <= i < j < |all| ensures Nested(st, all[j], all[i]) {
      assert ValidSign(st, signs[j - 1]);
      if i > 0 {
        assert Nested(st, signs[j - 1], signs[i - 1]);
      }
    }
  }

  lemma RewoundSigns(st: Scope, signs: seq<Addr>)
    requires Inv(st, []) && signs != [] && SignsOk(st, signs)
    ensures SignsOk(Rewound(st, signs[0]), signs[1..])
  {
    var s, rest := signs[0], signs[1..];
    assert ValidSign(st, s);
    var st' := Rewound(st, s);
    var newer := Newer(st, s);
    assert st.local == newer + st'.local;
    forall i | 0 <= i < |rest|
      ensures ValidSign(st', rest[i]) && Newer(st, rest[i]) == newer + Newer(st', rest[i])
    {
      assert Nested(st, signs[i + 1], signs[0]);
      assert ValidSign(st, signs[i + 1]);
      RewoundSign(st, s, rest[i]);
    }
    forall i, j | 0 <= i < j < |rest| ensures Nested(st', rest[j], rest[i]) {
      assert Nested(st, signs[j + 1], signs[i + 1]);
    }
  }

  lemma RewoundSign(st: Scope, s: Addr, t: Addr)
    requires ValidSign(st, s) && ValidSign(st, t) && Nested(st, t, s)
    ensures ValidSign(Rewound(st, s), t) && Newer(st, t) == Newer(st, s) + Newer(Rewound(st, s), t)
  {
    hide Clean, Below, IndexOf;
    CutAt(st.local, s.arena, t.arena);
    BelowClean(st.lblocks, s, t);
  }

  // Two elements of a chain, the second not in front of the first.
  lemma CutAt(c: seq<nat>, x: nat, y: nat)
    requires x in c && y in c && y !in c[..IndexOf(c, x)]
    ensures var i := IndexOf(c, x); var rest := c[i..];
      y in rest && c[..IndexOf(c, y)] == c[..i] + rest[..IndexOf(rest, y)]
  {
    hide IndexOf;
    var i := IndexOf(c, x);
    assert c == c[..i] + c[i..];
    IndexOfSuffix(c[..i], c[i..], y);
    CutTwice(c, i, IndexOf(c[i..], y));
  }

  lemma CutTwice(c: seq<nat>, i: nat, k: nat)
    requires i + k <= |c|
    ensures c[..i + k] == c[..i] + c[i..][..k]
  {
  }

  lemma BelowClean(blocks: seq<Block>, s: Addr, t: Addr)
    requires Clean(blocks, t)
    ensures Clean(Below(blocks, s), t)
  {
    hide Below;
    var rest := Below(blocks, s);
    forall i | 0 <= i < |rest|
      ensures rest[i].at.arena != t.arena || rest[i].at.off + rest[i].size <= t.off || t.off <= rest[i].at.off
    {
      BelowMember(blocks, s, rest[i]);
      var k :| 0 <= k < |blocks| && blocks[k] == rest[i];
    }
  }

  // ---- histories ------------------------------------------------------------

  datatype Op =
    | AllocateGlobal(size: nat)
    | AllocateLocal(size: nat)
    | Enter
    | Exit(k: nat, cells: seq<Cell>)   // to the k-th signature, counted from the newest
    | Reclaim
    | Write(bytes: map<nat, seq<int>>)

  datatype Machine = Machine(st: Scope, signs: seq<Addr>) | Stopped

  // Callers leave only to signatures entered and not left, of the innermost scope or
  // of an older one, pass live survivors, and write only inside arenas.
  ghost predicate Legal(m: Machine, op: Op)
    requires m.Machine?
  {
    match op
    case Exit(k, cells) => k < |m.signs| && ValidCells(m.st, cells)
    case Write(bytes) => forall h :: h in m.st.bytes ==> h in bytes && |bytes[h]| == |m.st.bytes[h]|
    case _ => true
  }

  ghost predicate MachineInv(m: Machine) {
    m.Machine? ==> Inv(m.st, []) && SignsOk(m.st, m.signs)
  }

  // One call.  The machine stops if an assertion of the source fails.
  ghost function Call(m: Machine, op: Op): (r: Machine)
    requires m.Machine? && MachineInv(m) && Legal(m, op)
  {
    match op
    case AllocateGlobal(size) => Machine(AllocGlobal(m.st, AlignSize(size)).0, m.signs)
    case AllocateLocal(size) => Machine(AllocLocal(m.st, AlignSize(size)).0, m.signs)
    case Enter => Machine(m.st, [EnterSign(m.st)] + m.signs)
    case Exit(k, cells) =>
      assert ValidSign(m.st, m.signs[k]);
      LeaveInv(m.st, m.signs[k], cells);
      (match Leave(m.st, m.signs[k], cells)
       case Left(st, _) => Machine(st, m.signs[k + 1..])
       case Aborted => Stopped)
    case Reclaim => Machine(CollectFrees(m.st), m.signs)
    case Write(bytes) => Machine(m.st.(bytes := bytes), m.signs)
  }

  lemma ExitSigns(st: Scope, signs: seq<Addr>, cells: seq<Cell>)
    requires Inv(st, []) && signs != [] && SignsOk(st, signs) && ValidCells(st, cells)
    ensures ValidSign(st, signs[0]) && forall j :: 0 <= j < |cells| ==> !FirstLoopMoves(st, signs[0], cells[j])
    ensures var r := Leave(st, signs[0], cells); r.Left? ==> Inv(r.st, []) && SignsOk(r.st, signs[1..])
  {
    var s := signs[0];
    assert ValidSign(st, s);
    LeaveInv(st, s, cells);
    LeavingStarts(st, s, cells);
    assert forall h :: h in Newer(st, s) ==> h in st.local;
    ReleaseAllGrown(st, s, cells, Newer(st, s), Rewound(st, s), cells, Newer(st, s));
    RewoundSigns(st, signs);
    var r := Leave(st, s, cells);
    if r.Left? {
      GrownSigns(Rewound(st, s), r.st, signs[1..], []);
    }
  }

  // Leaving an older scope gives up the signatures inside it.
  lemma OlderSigns(st: Scope, signs: seq<Addr>, k: nat)
    requires SignsOk(st, signs) && k < |signs|
    ensures SignsOk(st, signs[k..]) && signs[k..][0] == signs[k] && signs[k..][1..] == signs[k + 1..]
  {
    hide ValidSign, Nested;
    var rest := signs[k..];
    assert forall i :: 0 <= i < |rest| ==> rest[i] == signs[k + i];
    forall i | 0 <= i < |rest| ensures ValidSign(st, rest[i]) {
      assert ValidSign(st, signs[k + i]);
    }
    SignsChained(st, signs);
    forall i, j | 0 <= i < j < |rest| ensures Nested(st, rest[j], rest[i]) {
      assert Nested(st, signs[k + j], signs[k + i]);
    }
  }

  lemma SignsChained(st: Scope, signs: seq<Addr>)
    requires SignsOk(st, signs)
    ensures forall i :: 0 <= i < |signs| ==> SignInChain(st, signs[i])
  {
    forall i | 0 <= i < |signs| ensures SignInChain(st, signs[i]) {
      assert ValidSign(st, signs[i]);
    }
  }

  lemma SameLocalsGrown(st: Scope, st': Scope)
    requires st'.local == st.local && st'.lblocks == st.lblocks
    requires forall h :: h in st.local ==> h in st.arenas && h in st'.arenas && st'.arenas[h] == st.arenas[h]
    ensures Grown(st, st')
  {
  }

  lemma CallKeepsInv(m: Machine, op: Op)
    requires m.Machine? && MachineInv(m) && Legal(m, op)
    ensures MachineInv(Call(m, op))
  {
    match op
    case AllocateGlobal(size) =>
      AllocGlobalInv(m.st, AlignSize(size));
      GlobalLeavesLocals(m.st, AlignSize(size));
      SameLocalsGrown(m.st, Call(m, op).st);
      GrownSigns(m.st, Call(m, op).st, m.signs, []);
    case AllocateLocal(size) =>
      AllocLocalInv(m.st, AlignSize(size), []);
      AllocLocalGrown(m.st, AlignSize(size), []);
      GrownSigns(m.st, Call(m, op).st, m.signs, []);
    case Enter =>
      EnterSigns(m.st, m.signs);
    case Exit(k, cells) =>
      OlderSigns(m.st, m.signs, k);
      ExitSigns(m.st, m.signs[k..], cells);
    case Reclaim =>
      CollectInv(m.st);
      SameLocalsGrown(m.st, CollectFrees(m.st));
      GrownSigns(m.st, CollectFrees(m.st), m.signs, []);
    case Write(bytes) =>
      BytesOnly(m.st, m.st.(bytes := bytes), []);
      SameLocalsGrown(m.st, m.st.(bytes := bytes));
      GrownSigns(m.st, m.st.(bytes := bytes), m.signs, []);
  }

  // m' is reached from m by the legal calls ops.
  ghost predicate Reaches(m: Machine, ops: seq<Op>, m': Machine)
    requires MachineInv(m)
    decreases |ops|
  {
    if ops == [] then m' == m
    else m.Machine? && Legal(m, ops[0]) && (CallKeepsInv(m, ops[0]); Reaches(Call(m, ops[0]), ops[1..], m'))
  }

  // Safety over all histories: from mscope_create on, whatever is called, every
  // state keeps the invariant: global ranges and local blocks never overlap,
  // every arena is in one place, and outstanding signatures stay good.
  lemma {:induction false} HistoryKeepsInv(m: Machine, ops: seq<Op>, m': Machine)
    requires MachineInv(m) && Reaches(m, ops, m')
    ensures MachineInv(m')
    decreases |ops|
  {
    if ops != [] {
      CallKeepsInv(m, ops[0]);
      HistoryKeepsInv(Call(m, ops[0]), ops[1..], m');
    }
  }

  function Created(): Machine {
    Machine(Create(), [])
  }

  lemma GlobalHeaded(st: Scope)
    requires Inv(st, [])
    ensures Headed(st)
  {
    hide LocalInv, HandleInv;
  }

  lemma HistoryFromCreate(ops: seq<Op>, m: Machine)
    ensures MachineInv(Created())
    ensures Reaches(Created(), ops, m) && m.Machine? ==>
              && Headed(m.st)
              && (forall i, j :: 0 <= i < j < |GlobalRanges(m.st)| ==>
                    Apart(GlobalRanges(m.st)[i], GlobalRanges(m.st)[j]))
              && (forall b, c :: b in m.st.lblocks && c in m.st.lblocks && b != c ==> Disjoint(b, c))
  {
    CreateInv();
    if Reaches(Created(), ops, m) && m.Machine? {
      HistoryKeepsInv(Created(), ops, m);
      GlobalHeaded(m.st);
      forall i, j | 0 <= i < j < |GlobalRanges(m.st)| ensures Apart(GlobalRanges(m.st)[i], GlobalRanges(m.st)[j]) {
        GlobalRangesDisjoint(m.st, i, j);
      }
      forall b, c | b in m.st.lblocks && c in m.st.lblocks && b != c ensures Disjoint(b, c) {
        LocalBlocksDisjoint(m.st, [], b, c);
      }
    }
  }

  // mscope_delete gives back both chains and the cache.
  function DeleteAll(st: Scope): seq<nat>
    requires st.local != [] && st.global != []
  {
    st.returned + Chain(st.local) + Chain(st.global) + st.frees
  }

  // Over the allocator's life every arena goes back exactly once.
  lemma DeleteReturnsEachArenaOnce(st: Scope, h: nat)
    requires Inv(st, [])
    ensures multiset(DeleteAll(st))[h] == One(1 <= h <= st.obtained)
  {
    assert multiset(DeleteAll(st)) == Handles(st, []);
  }
}
