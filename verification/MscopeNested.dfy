// Nested scopes are LIFO: over any well-nested run without survivors, leaving a
// scope restores the local chain, its avail pointers and its blocks.
module MscopeNested {
  import opened MscopeBlocks
  import opened MscopeState
  import opened MscopeGlobal
  import opened MscopeLocal
  import opened MscopeLeave
  import opened MscopeSurvive
  import opened MscopeScopes

  datatype Prog = Local(size: nat) | Global(size: nat) | Collect | Scoped(body: seq<Prog>)

  // mscope_collect: give every cached arena back.
  function CollectFrees(st: Scope): Scope {
    st.(frees := [], returned := st.returned + st.frees)
  }

  function EnterSign(st: Scope): Addr
    requires LocalHeaded(st)
  {
    Addr(st.local[0], st.arenas[st.local[0]].avail)
  }

  // Release a chain of arenas without looking for survivors.
  function Drop(st: Scope, chain: seq<nat>): Scope
    requires forall h :: h in chain ==> h in st.arenas
    decreases |chain|
  {
    if chain == [] then st else Drop(Release(st, chain[0]), chain[1..])
  }

  lemma {:induction false} LeaveWithoutSurvivors(st: Scope, chain: seq<nat>)
    requires LocalHeaded(st) && forall h :: h in chain ==> h in st.arenas
    ensures ReleaseAll(st, [], chain) == Left(Drop(st, chain), [])
    decreases |chain|
  {
    if chain != [] {
      LeaveWithoutSurvivors(Release(st, chain[0]), chain[1..]);
    }
  }

  // st' is st after more local allocations: newer arenas in front, the top
  // arena filled further, new blocks in newer arenas or above the old avail.
  ghost predicate Extends(st: Scope, st': Scope)
    requires LocalHeaded(st)
  {
    ExtendsChain(st, st') && ExtendsBlocks(st, st')
  }

  ghost predicate ExtendsChain(st: Scope, st': Scope)
    requires LocalHeaded(st)
  {
    && |st'.local| >= |st.local| && st'.local[|st'.local| - |st.local|..] == st.local
    && (forall h :: h in st.local ==> h in st.arenas && h in st'.arenas && st'.arenas[h].limit == st.arenas[h].limit)
    && (forall i :: 1 <= i < |st.local| ==> st'.arenas[st.local[i]] == st.arenas[st.local[i]])
    && st'.arenas[st.local[0]].avail >= st.arenas[st.local[0]].avail
  }

  ghost predicate ExtendsBlocks(st: Scope, st': Scope)
    requires LocalHeaded(st)
  {
    && |st'.lblocks| >= |st.lblocks| && st'.lblocks[..|st.lblocks|] == st.lblocks
    && (forall i :: |st.lblocks| <= i < |st'.lblocks| ==> NewBlock(st, st'.lblocks[i]))
    && (forall i :: 0 <= i < |st.lblocks| ==> Content(st', st.lblocks[i]) == Content(st, st.lblocks[i]))
  }

  predicate NewBlock(st: Scope, b: Block)
    requires LocalHeaded(st)
  {
    b.at.arena !in st.local || (b.at.arena == st.local[0] && b.at.off >= st.arenas[st.local[0]].avail)
  }

  lemma ExtendsChainTransitive(a: Scope, b: Scope, c: Scope)
    requires LocalHeaded(a) && LocalHeaded(b) && ExtendsChain(a, b) && ExtendsChain(b, c)
    ensures ExtendsChain(a, c)
  {
    var m, n := |b.local| - |a.local|, |c.local| - |b.local|;
    assert c.local[n + m..] == c.local[n..][m..];
    forall i | 0 <= i < |a.local| ensures a.local[i] == b.local[m + i] {
      assert a.local[i] == b.local[m..][i];
    }
  }

  // An arena of the older chain is not on top of the newer one, unless it was
  // on top already.
  lemma NewBlockTransitive(a: Scope, b: Scope, blk: Block)
    requires LocalHeaded(a) && Inv(b, []) && LocalHeaded(b) && ExtendsChain(a, b) && NewBlock(b, blk)
    ensures NewBlock(a, blk)
  {
    var m := |b.local| - |a.local|;
    assert forall h :: h in a.local ==> h in b.local;
    if m > 0 {
      HeadNotInTail(b, m);
    }
  }

  lemma ExtendsTransitive(a: Scope, b: Scope, c: Scope)
    requires Inv(a, []) && Inv(b, []) && Extends(a, b) && Extends(b, c)
    ensures Extends(a, c)
  {
    ExtendsChainTransitive(a, b, c);
    forall i | |a.lblocks| <= i < |c.lblocks| ensures NewBlock(a, c.lblocks[i]) {
      if i < |b.lblocks| {
        assert c.lblocks[i] == b.lblocks[i];
      } else {
        NewBlockTransitive(a, b, c.lblocks[i]);
      }
    }
    forall i | 0 <= i < |a.lblocks| ensures Content(c, a.lblocks[i]) == Content(a, a.lblocks[i]) {
      assert b.lblocks[i] == a.lblocks[i];
    }
  }

  // The newest arena is not further down its own chain.
  lemma HeadNotInTail(st: Scope, m: nat)
    requires Inv(st, []) && 0 < m < |st.local|
    ensures st.local[0] !in st.local[m..]
  {
    var h := st.local[0];
    assert Handles(st, [])[DUMMY] == One(1 <= DUMMY <= st.obtained);
    assert Chain(st.local)[0] == h;
    assert h != DUMMY;
    OnOneChain(st, [], h);
    assert Chain(st.local) == [h] + Chain(st.local)[1..];
    assert multiset(Chain(st.local)) == multiset{h} + multiset(Chain(st.local)[1..]);
    forall i | m <= i < |st.local| ensures st.local[i] != h {
      if i < |st.local| - 1 {
        assert Chain(st.local)[1..][i - 1] == st.local[i];
      }
    }
  }

  lemma RoomExtends(st: Scope, total: nat)
    requires Inv(st, []) && total > 0
    ensures Extends(st, Room(st, total))
  {
    hide Inv, ExtendsBlocks, ExtendsChain;
    RoomChain(st, total);
    RoomContents(st, total);
  }

  lemma RoomChain(st: Scope, total: nat)
    requires Inv(st, [])
    ensures LocalHeaded(st) && ExtendsChain(st, Room(st, total))
  {
    hide GlobalInv, LocalInv, HandleInv;
    AcquireArenas(st, total, []);
    var st' := Room(st, total);
    if st'.local != st.local {
      assert st'.local[|st'.local| - |st.local|..] == st.local;
    }
  }

  lemma RoomContents(st: Scope, total: nat)
    requires Inv(st, []) && total > 0
    ensures ExtendsBlocks(st, Room(st, total))
  {
    var st' := Room(st, total);
    forall i | 0 <= i < |st.lblocks| ensures Content(st', st.lblocks[i]) == Content(st, st.lblocks[i]) {
      BlockBelowAvail(st, [], st.lblocks[i]);
      RoomBytes(st, total, [], st.lblocks[i].at.arena);
    }
  }

  lemma PushExtends(st: Scope, b: Block)
    requires Inv(st, []) && LocalHeaded(st) && b.size >= ALIGNMENT
    requires b.at == Addr(st.local[0], st.arenas[st.local[0]].avail)
    ensures Extends(st, PushBlock(st, b))
  {
    var st' := PushBlock(st, b);
    forall i | 1 <= i < |st.local| ensures st'.arenas[st.local[i]] == st.arenas[st.local[i]] {
      HeadNotInTail(st, 1);
      assert st.local[1..][i - 1] == st.local[i];
    }
  }

  lemma AllocLocalExtends(st: Scope, size: nat)
    requires Inv(st, [])
    ensures Extends(st, AllocLocal(st, size).0)
  {
    var total := size + ALIGNMENT;
    RoomInv(st, total, []);
    AllocLocalInv(st, size, []);
    RoomExtends(st, total);
    PushExtends(Room(st, total), TopBlock(Room(st, total), total));
    ExtendsTransitive(st, Room(st, total), AllocLocal(st, size).0);
  }

  lemma AllocGlobalExtends(st: Scope, size: nat)
    requires Inv(st, []) && size % 16 == 0
    ensures Extends(st, AllocGlobal(st, size).0)
  {
    GlobalLeavesLocals(st, size);
    forall i | 0 <= i < |st.lblocks| ensures st.lblocks[i].at.arena in st.arenas {
      BlockBelowAvail(st, [], st.lblocks[i]);
    }
    forall h | h in st.arenas
      ensures h in st.bytes && h in AllocGlobal(st, size).0.bytes && AllocGlobal(st, size).0.bytes[h] == st.bytes[h]
    {
      GlobalLeavesBytes(st, size, h);
    }
    SameLocalsExtends(st, AllocGlobal(st, size).0);
  }

  lemma SameLocalsExtends(st: Scope, st': Scope)
    requires LocalHeaded(st) && st'.local == st.local && st'.lblocks == st.lblocks
    requires forall h :: h in st.local ==> h in st.arenas && h in st'.arenas && st'.arenas[h] == st.arenas[h]
    requires forall h :: h in st.arenas ==> h in st.bytes && h in st'.bytes && st'.bytes[h] == st.bytes[h]
    requires forall i :: 0 <= i < |st.lblocks| ==> st.lblocks[i].at.arena in st.arenas
    ensures Extends(st, st')
  {
    forall i | 0 <= i < |st.lblocks| ensures Content(st', st.lblocks[i]) == Content(st, st.lblocks[i]) {
      assert st.lblocks[i].at.arena in st.arenas;
    }
  }

  // The arenas of the local chain do not notice a global allocation.
  lemma GlobalLeavesLocals(st: Scope, size: nat)
    requires Inv(st, []) && size % 16 == 0
    ensures var st' := AllocGlobal(st, size).0;
      && st'.local == st.local && st'.lblocks == st.lblocks && st'.sizes == st.sizes
      && (forall h :: h in st.local ==> h in st'.arenas && st'.arenas[h] == st.arenas[h])
  {
    if Retires(st, size) {
      RetireArenas(st, size);
    }
    if st.global[0] != DUMMY {
      OnOneChain(st, [], st.global[0]);
    }
  }

  lemma GlobalLeavesBytes(st: Scope, size: nat, h: nat)
    requires Inv(st, []) && size % 16 == 0 && h in st.arenas
    ensures var st' := AllocGlobal(st, size).0; h in st.bytes && h in st'.bytes && st'.bytes[h] == st.bytes[h]
  {
    assert ArenaOk(st, h);
  }

  // ---- leaving restores -----------------------------------------------------

  // The local side of st' is that of st: chain, avail pointers, blocks, contents.
  ghost predicate Restores(st: Scope, st': Scope) {
    && st'.local == st.local && st'.lblocks == st.lblocks
    && (forall h :: h in st.local ==> h in st.arenas && h in st'.arenas && st'.arenas[h] == st.arenas[h])
    && (forall i :: 0 <= i < |st.lblocks| ==> Content(st', st.lblocks[i]) == Content(st, st.lblocks[i]))
  }

  function WithoutAll(blocks: seq<Block>, chain: seq<nat>): seq<Block>
    decreases |chain|
  {
    if chain == [] then blocks else WithoutAll(Without(blocks, chain[0]), chain[1..])
  }

  lemma {:induction false} WithoutConcat(a: seq<Block>, b: seq<Block>, h: nat)
    ensures Without(a + b, h) == Without(a, h) + Without(b, h)
  {
    if a == [] {
      assert a + b == b;
    } else {
      assert (a + b)[1..] == a[1..] + b;
      WithoutConcat(a[1..], b, h);
    }
  }

  lemma {:induction false} WithoutAllConcat(a: seq<Block>, b: seq<Block>, chain: seq<nat>)
    ensures WithoutAll(a + b, chain) == WithoutAll(a, chain) + WithoutAll(b, chain)
    decreases |chain|
  {
    if chain != [] {
      WithoutConcat(a, b, chain[0]);
      WithoutAllConcat(Without(a, chain[0]), Without(b, chain[0]), chain[1..]);
    }
  }

  lemma {:induction false} WithoutKeeps(a: seq<Block>, h: nat)
    requires forall i :: 0 <= i < |a| ==> a[i].at.arena != h
    ensures Without(a, h) == a
  {
    if a != [] {
      WithoutKeeps(a[1..], h);
    }
  }

  lemma {:induction false} WithoutAllKeeps(a: seq<Block>, chain: seq<nat>)
    requires forall i :: 0 <= i < |a| ==> a[i].at.arena !in chain
    ensures WithoutAll(a, chain) == a
    decreases |chain|
  {
    if chain != [] {
      WithoutKeeps(a, chain[0]);
      WithoutAllKeeps(a, chain[1..]);
    }
  }

  lemma {:induction false} WithoutAllDrops(a: seq<Block>, chain: seq<nat>)
    requires forall i :: 0 <= i < |a| ==> a[i].at.arena in chain
    ensures WithoutAll(a, chain) == []
    decreases |chain|
  {
    if a == [] {
      WithoutAllKeeps(a, chain);
    } else {
      assert a[0].at.arena in chain;
      var rest := Without(a, chain[0]);
      forall i | 0 <= i < |rest| ensures rest[i].at.arena in chain[1..] {
        WithoutMember(a, chain[0], rest[i]);
      }
      WithoutAllDrops(rest, chain[1..]);
    }
  }

  lemma {:induction false} BelowConcat(a: seq<Block>, b: seq<Block>, sign: Addr)
    ensures Below(a + b, sign) == Below(a, sign) + Below(b, sign)
  {
    if a == [] {
      assert a + b == b;
    } else {
      assert (a + b)[1..] == a[1..] + b;
      BelowConcat(a[1..], b, sign);
    }
  }

  lemma {:induction false} BelowKeeps(a: seq<Block>, sign: Addr)
    requires forall i :: 0 <= i < |a| ==> !(a[i].at.arena == sign.arena && a[i].at.off >= sign.off)
    ensures Below(a, sign) == a
  {
    if a != [] {
      BelowKeeps(a[1..], sign);
    }
  }

  lemma {:induction false} DropFields(st: Scope, chain: seq<nat>)
    requires forall h :: h in chain ==> h in st.arenas
    ensures var st' := Drop(st, chain);
      && st'.local == st.local && st'.arenas == st.arenas && st'.bytes == st.bytes && st'.sizes == st.sizes
      && st'.lblocks == WithoutAll(st.lblocks, chain)
    decreases |chain|
  {
    if chain != [] {
      DropFields(Release(st, chain[0]), chain[1..]);
    }
  }

  // Standard arenas go to the cache, oversized ones back.
  lemma {:induction false} DropPlaces(st: Scope, chain: seq<nat>, h: nat)
    requires forall g :: g in chain ==> g in st.arenas
    ensures var st' := Drop(st, chain);
      && multiset(st'.frees)[h] == multiset(st.frees)[h]
           + (if h in st.arenas && st.arenas[h].limit <= ARENA_SIZE then multiset(chain)[h] else 0)
      && multiset(st'.returned)[h] == multiset(st.returned)[h]
           + (if h in st.arenas && st.arenas[h].limit <= ARENA_SIZE then 0 else multiset(chain)[h])
    decreases |chain|
  {
    if chain != [] {
      var st1 := Release(st, chain[0]);
      assert chain == [chain[0]] + chain[1..];
      assert multiset([chain[0]] + st.frees) == multiset{chain[0]} + multiset(st.frees);
      DropPlaces(st1, chain[1..], h);
    }
  }

  lemma NewerIsPrefix(st: Scope, st1: Scope)
    requires Inv(st, []) && Inv(st1, []) && Extends(st, st1)
    ensures SignInChain(st1, EnterSign(st))
    ensures IndexOf(st1.local, EnterSign(st).arena) == |st1.local| - |st.local|
  {
    var m := |st1.local| - |st.local|;
    var i := IndexOf(st1.local, EnterSign(st).arena);
    assert st1.local[m] == st1.local[m..][0] == st.local[0];
    if i < m {
      ChainElementsDiffer(st1, i, m);
    }
  }

  lemma ChainElementsDiffer(st: Scope, i: nat, j: nat)
    requires Inv(st, []) && i < j < |st.local|
    ensures st.local[i] != st.local[j]
  {
    var c := Chain(st.local);
    assert Handles(st, [])[DUMMY] == One(1 <= DUMMY <= st.obtained);
    assert c[i] in c && c[i] != DUMMY;
    OnOneChain(st, [], c[i]);
    if j < |c| {
      OccursOnce(c, i, j);
    }
  }

  lemma OccursOnce(c: seq<nat>, i: nat, j: nat)
    requires i < j < |c| && multiset(c)[c[i]] <= 1
    ensures c[i] != c[j]
  {
    assert c == c[..j] + c[j..];
    assert c[..j][i] == c[i] && c[j..][0] == c[j];
    assert multiset(c) == multiset(c[..j]) + multiset(c[j..]);
    assert c[i] in multiset(c[..j]) && c[j] in multiset(c[j..]);
  }

  // st1 is a state inside the scope entered in st.
  ghost predicate InScope(st: Scope, st1: Scope) {
    && Inv(st, []) && Inv(st1, []) && Extends(st, st1)
    && SignInChain(st1, EnterSign(st)) && st1.local == Newer(st1, EnterSign(st)) + st.local
  }

  // Old blocks lie below the signature and in no newer arena.
  lemma OldBlock(st: Scope, st1: Scope, i: nat)
    requires InScope(st, st1) && i < |st.lblocks|
    ensures var b := st.lblocks[i];
      && b.at.arena !in Newer(st1, EnterSign(st)) && b.size > 0
      && (b.at.arena == st.local[0] ==> b.at.off + b.size <= EnterSign(st).off)
  {
    hide Extends, GlobalInv, LocalInv, HandleInv;
    var b := st.lblocks[i];
    var newer := Newer(st1, EnterSign(st));
    BlockBelowAvail(st, [], b);
    var k :| 0 <= k < |st.local| && st.local[k] == b.at.arena;
    if m :| 0 <= m < |newer| && newer[m] == b.at.arena {
      ChainElementsDiffer(st1, m, |newer| + k);
    }
  }

  // New blocks lie above the signature or in a newer arena.
  lemma LaterBlock(st: Scope, st1: Scope, i: nat)
    requires InScope(st, st1) && |st.lblocks| <= i < |st1.lblocks|
    ensures var b := st1.lblocks[i];
      b.at.arena in Newer(st1, EnterSign(st)) || (b.at.arena == st.local[0] && b.at.off >= EnterSign(st).off)
  {
    assert NewBlock(st, st1.lblocks[i]);
    BlockBelowAvail(st1, [], st1.lblocks[i]);
    assert Chain(st1.local) == Newer(st1, EnterSign(st)) + Chain(st.local);
  }

  // What leaving does to a block that stays, and to one that goes.
  predicate Stays(b: Block, sign: Addr, newer: seq<nat>) {
    b.at.arena !in newer && b.size > 0 && (b.at.arena == sign.arena ==> b.at.off + b.size <= sign.off)
  }

  predicate Goes(b: Block, sign: Addr, newer: seq<nat>) {
    b.at.arena in newer || (b.at.arena == sign.arena && b.at.off >= sign.off)
  }

  lemma StayingStay(blocks: seq<Block>, sign: Addr, newer: seq<nat>)
    requires forall i :: 0 <= i < |blocks| ==> Stays(blocks[i], sign, newer)
    ensures Below(blocks, sign) == blocks && WithoutAll(blocks, newer) == blocks && Clean(blocks, sign)
  {
    hide Below, WithoutAll;
    BelowKeeps(blocks, sign);
    WithoutAllKeeps(blocks, newer);
  }

  lemma GoingGo(blocks: seq<Block>, sign: Addr, newer: seq<nat>)
    requires sign.arena !in newer && forall i :: 0 <= i < |blocks| ==> Goes(blocks[i], sign, newer)
    requires forall i :: 0 <= i < |blocks| && blocks[i].at.arena == sign.arena ==> sign.off <= blocks[i].at.off
    ensures WithoutAll(Below(blocks, sign), newer) == [] && Clean(blocks, sign)
  {
    hide Below, WithoutAll;
    var rest := Below(blocks, sign);
    forall i | 0 <= i < |rest| ensures rest[i].at.arena in newer {
      BelowMember(blocks, sign, rest[i]);
    }
    WithoutAllDrops(rest, newer);
  }

  lemma OldAndNewBlocks(st: Scope, st1: Scope)
    requires InScope(st, st1)
    ensures WithoutAll(Below(st1.lblocks, EnterSign(st)), Newer(st1, EnterSign(st))) == st.lblocks
    ensures Clean(st1.lblocks, EnterSign(st))
  {
    hide Below, WithoutAll, InScope;
    LaterBlocks(st, st1);
    var sign, later := EnterSign(st), st1.lblocks[|st.lblocks|..];
    var newer := Newer(st1, sign);
    forall i | 0 <= i < |st.lblocks| ensures Stays(st.lblocks[i], sign, newer) {
      OldBlock(st, st1, i);
    }
    forall i | 0 <= i < |later| ensures Goes(later[i], sign, newer) {
      LaterBlock(st, st1, |st.lblocks| + i);
    }
    StayingStay(st.lblocks, sign, newer);
    GoingGo(later, sign, newer);
    FilterConcat(st.lblocks, later, sign, newer);
  }

  lemma LaterBlocks(st: Scope, st1: Scope)
    requires InScope(st, st1)
    ensures LocalHeaded(st) && SignInChain(st1, EnterSign(st)) && EnterSign(st).arena !in Newer(st1, EnterSign(st))
    ensures |st.lblocks| <= |st1.lblocks| && st1.lblocks == st.lblocks + st1.lblocks[|st.lblocks|..]
  {
    hide GlobalInv, LocalInv, HandleInv, IndexOf, ExtendsChain, Newer;
    SignNotNewer(st1, EnterSign(st));
    SameStart(st.lblocks, st1.lblocks);
  }

  lemma SignNotNewer(st: Scope, sign: Addr)
    requires SignInChain(st, sign)
    ensures sign.arena !in Newer(st, sign)
  {
  }

  lemma SameStart(a: seq<Block>, b: seq<Block>)
    ensures a <= b ==> b == a + b[|a|..]
  {
  }

  lemma FilterConcat(a: seq<Block>, b: seq<Block>, sign: Addr, chain: seq<nat>)
    requires Below(a, sign) == a && WithoutAll(a, chain) == a && WithoutAll(Below(b, sign), chain) == []
    requires Clean(a, sign) && Clean(b, sign)
    ensures WithoutAll(Below(a + b, sign), chain) == a && Clean(a + b, sign)
  {
    BelowConcat(a, b, sign);
    WithoutAllConcat(a, Below(b, sign), chain);
  }

  // Enter, run any allocations, leave without survivors.
  lemma LeaveRestores(st: Scope, st1: Scope)
    requires Inv(st, []) && Inv(st1, []) && Extends(st, st1)
    ensures var sign := EnterSign(st);
      && ValidSign(st1, sign) && Leave(st1, sign, []).Left?
      && var st2 := Leave(st1, sign, []).st;
         && Inv(st2, []) && Restores(st, st2)
         && st2 == Drop(Rewound(st1, sign), Newer(st1, sign))
  {
    var sign := EnterSign(st);
    SignStaysValid(st, st1);
    LeaveInv(st1, sign, []);
    assert forall h :: h in Newer(st1, sign) ==> h in st1.local;
    LeaveWithoutSurvivors(Rewound(st1, sign), Newer(st1, sign));
    DropRestores(st, st1);
  }

  lemma SignStaysValid(st: Scope, st1: Scope)
    requires Inv(st, []) && Inv(st1, []) && Extends(st, st1)
    ensures ValidSign(st1, EnterSign(st)) && InScope(st, st1)
  {
    hide Extends, Clean, IndexOf, GlobalInv, LocalInv, HandleInv;
    NewerIsPrefix(st, st1);
    NewerAndOld(st, st1);
    SignIsClean(st, st1);
    SignInRange(st, st1);
  }

  lemma NewerAndOld(st: Scope, st1: Scope)
    requires LocalHeaded(st) && Extends(st, st1) && SignInChain(st1, EnterSign(st))
    requires IndexOf(st1.local, EnterSign(st).arena) == |st1.local| - |st.local|
    ensures st1.local == Newer(st1, EnterSign(st)) + st.local
  {
    hide ExtendsBlocks;
  }

  lemma SignInRange(st: Scope, st1: Scope)
    requires InScope(st, st1)
    ensures LocalHeaded(st) && HEADER <= EnterSign(st).off <= st1.arenas[EnterSign(st).arena].avail
  {
    hide ExtendsBlocks, GlobalInv, LocalInv, HandleInv;
    assert ArenaOk(st, st.local[0]);
  }

  lemma SignIsClean(st: Scope, st1: Scope)
    requires InScope(st, st1)
    ensures LocalHeaded(st) && Clean(st1.lblocks, EnterSign(st))
  {
    hide Below, WithoutAll, Clean, GlobalInv, LocalInv;
    OldAndNewBlocks(st, st1);
  }

  lemma DropRestores(st: Scope, st1: Scope)
    requires InScope(st, st1)
    requires forall h :: h in Newer(st1, EnterSign(st)) ==> h in st1.local
    ensures Restores(st, Drop(Rewound(st1, EnterSign(st)), Newer(st1, EnterSign(st))))
  {
    DropFields(Rewound(st1, EnterSign(st)), Newer(st1, EnterSign(st)));
    NewerIsPrefix(st, st1);
    OldAndNewBlocks(st, st1);
    RestoresArenas(st, st1);
  }

  lemma RestoresArenas(st: Scope, st1: Scope)
    requires Inv(st, []) && Inv(st1, []) && Extends(st, st1) && SignInChain(st1, EnterSign(st))
    ensures forall h :: h in st.local ==>
              h in st.arenas && h in Rewound(st1, EnterSign(st)).arenas &&
              Rewound(st1, EnterSign(st)).arenas[h] == st.arenas[h]
  {
    forall h | h in st.local ensures Rewound(st1, EnterSign(st)).arenas[h] == st.arenas[h] {
      var k :| 0 <= k < |st.local| && st.local[k] == h;
      if k > 0 {
        ChainElementsDiffer(st, 0, k);
      }
    }
  }

  // ---- runs -----------------------------------------------------------------

  lemma RestoresExtends(st: Scope, st': Scope)
    requires LocalHeaded(st) && Restores(st, st')
    ensures Extends(st, st')
  {
  }

  lemma CollectInv(st: Scope)
    requires Inv(st, [])
    ensures Inv(CollectFrees(st), []) && Restores(st, CollectFrees(st))
    ensures var st' := CollectFrees(st);
      st'.frees == [] && st'.returned == st.returned + st.frees && st' == st.(frees := [], returned := st'.returned)
  {
    var st' := CollectFrees(st);
    assert Handles(st', []) == Handles(st, []);
    forall h: nat ensures Handles(st', [])[h] == One(1 <= h <= st'.obtained) {
      assert Handles(st, [])[h] == One(1 <= h <= st.obtained);
    }
    forall h | h in st'.arenas ensures h <= st'.obtained && ArenaOk(st', h) {
      assert ArenaOk(st, h);
    }
    GlobalFrame(st, st');
    forall p ensures InLocal(st', [], p) <==> InLocal(st, [], p) {
    }
    LocalFrame(st, st', [], []);
  }

  ghost function Run(st: Scope, progs: seq<Prog>): (r: Scope)
    requires Inv(st, [])
    ensures Inv(r, []) && Extends(st, r)
    decreases progs
  {
    if progs == [] then RestoresExtends(st, st); st
    else
      var st1 := Step(st, progs[0]);
      var r := Run(st1, progs[1..]);
      ExtendsTransitive(st, st1, r);
      r
  }

  ghost function Step(st: Scope, prog: Prog): (r: Scope)
    requires Inv(st, [])
    ensures Inv(r, []) && Extends(st, r)
    ensures prog.Scoped? ==> Restores(st, r)
    decreases prog
  {
    match prog
    case Local(size) =>
      AllocLocalInv(st, AlignSize(size), []);
      AllocLocalExtends(st, AlignSize(size));
      AllocLocal(st, AlignSize(size)).0
    case Global(size) =>
      AllocGlobalInv(st, AlignSize(size));
      AllocGlobalExtends(st, AlignSize(size));
      AllocGlobal(st, AlignSize(size)).0
    case Collect =>
      CollectInv(st);
      RestoresExtends(st, CollectFrees(st));
      CollectFrees(st)
    case Scoped(body) =>
      var st1 := Run(st, body);
      LeaveRestores(st, st1);
      var st2 := Leave(st1, EnterSign(st), []).st;
      RestoresExtends(st, st2);
      st2
  }

  // Arenas obtained since entering end up in the cache if they have the standard
  // size, and with the backing allocator if not.
  lemma LeaveReleasesArenas(st: Scope, sign: Addr, h: nat)
    requires Inv(st, []) && ValidSign(st, sign) && h in Newer(st, sign)
    ensures Leave(st, sign, []).Left?
    ensures var st' := Leave(st, sign, []).st;
      && h in st.arenas
      && (st.arenas[h].limit == ARENA_SIZE ==> h in st'.frees)
      && (st.arenas[h].limit > ARENA_SIZE ==> h in st'.returned)
  {
    var newer: seq<nat> := Newer(st, sign);
    assert h in st.local && sign.arena !in newer && ArenaOk(st, h);
    LeavingStarts(st, sign, []);
    LeaveWithoutSurvivors(Rewound(st, sign), newer);
    DropPlaces(Rewound(st, sign), newer, h);
    assert multiset(newer)[h] > 0;
  }
}
