// What leaving a scope keeps: the invariant, the parent's blocks, and the
// survivors, each moved to a block of its own with the same contents.
module MscopeSurvive {
  import opened MscopeBlocks
  import opened MscopeState
  import opened MscopeLocal
  import opened MscopeLeave

  // The block, size word included, whose payload starts at the address.
  function BlockAt(st: Scope, at: Addr): Block {
    Block(Addr(at.arena, if at.off >= ALIGNMENT then at.off - ALIGNMENT else 0), SizeOf(st, at) + ALIGNMENT)
  }

  predicate InMemory(bytes: map<nat, seq<int>>, b: Block) {
    b.at.arena in bytes && b.size >= ALIGNMENT && b.at.off + b.size <= |bytes[b.at.arena]|
  }

  // The payload bytes of a block.
  function BytesOf(bytes: map<nat, seq<int>>, b: Block): seq<int> {
    if InMemory(bytes, b) then bytes[b.at.arena][b.at.off + ALIGNMENT..b.at.off + b.size] else []
  }

  function Content(st: Scope, b: Block): seq<int> {
    BytesOf(st.bytes, b)
  }

  // b is live in st and is as large as, and holds what, b0 held in st0.
  predicate Holds(st: Scope, b: Block, st0: Scope, b0: Block) {
    b in st.lblocks && b.size == b0.size && Content(st, b) == Content(st0, b0)
  }

  lemma LiveBlockAt(st: Scope, pend: seq<nat>, b: Block)
    requires Inv(st, pend) && b in st.lblocks
    ensures Payload(b) in st.sizes && BlockAt(st, Payload(b)) == b && SizeOf(st, Payload(b)) == b.size - ALIGNMENT
  {
    BlockBelowAvail(st, pend, b);
  }

  // ---- one relocation -------------------------------------------------------

  lemma RoomBytes(st: Scope, total: nat, pend: seq<nat>, h: nat)
    requires ArenaInv(st, pend) && h in st.arenas
    ensures var st' := Room(st, total); h in st.bytes && h in st'.bytes && st'.bytes[h] == st.bytes[h]
  {
    assert ArenaOk(st, h);
  }

  // The new block lies above every older block of its arena.
  lemma AllocLocalAbove(st: Scope, size: nat, pend: seq<nat>, b: Block)
    requires Inv(st, pend) && b in st.lblocks
    ensures var (st', p) := AllocLocal(st, size);
      && p.off >= ALIGNMENT
      && (b.at.arena == p.arena ==> b.at.off + b.size <= p.off - ALIGNMENT)
      && Payload(b) != p
  {
    var total := size + ALIGNMENT;
    RoomInv(st, total, pend);
    BlockBelowAvail(Room(st, total), pend, b);
  }

  lemma RelocateInv(st: Scope, b0: Block, pend: seq<nat>)
    requires Inv(st, pend) && b0 in st.lblocks
    ensures var (st', p) := Relocate(st, Payload(b0));
      && Inv(st', pend)
      && BlockAt(st', p).size == b0.size && Payload(BlockAt(st', p)) == p
      && st'.lblocks == st.lblocks + [BlockAt(st', p)]
      && p.arena == st'.local[0] && st'.local[0] in Chain(st'.local)
  {
    LiveBlockAt(st, pend, b0);
    var size := SizeOf(st, Payload(b0));
    var (st1, p) := AllocLocal(st, size);
    AllocLocalInv(st, size, pend);
    var nb := Block(Addr(p.arena, p.off - ALIGNMENT), size + ALIGNMENT);
    assert nb in st1.lblocks;
    LiveBlockAt(st1, pend, nb);
    CopyInv(st1, p, Payload(b0), size, pend);
  }

  lemma CopyInv(st: Scope, dst: Addr, src: Addr, n: nat, pend: seq<nat>)
    requires Inv(st, pend)
    ensures Inv(st.(bytes := CopyBytes(st.bytes, dst, src, n)), pend)
  {
    BytesOnly(st, st.(bytes := CopyBytes(st.bytes, dst, src, n)), pend);
  }

  // A state that differs only in memory contents is as good.
  lemma BytesOnly(st: Scope, st': Scope, pend: seq<nat>)
    requires Inv(st, pend) && st' == st.(bytes := st'.bytes)
    requires forall h :: h in st.bytes ==> h in st'.bytes && |st'.bytes[h]| == |st.bytes[h]|
    ensures Inv(st', pend)
  {
    forall h | h in st.arenas ensures h in st'.bytes && |st'.bytes[h]| == |st.bytes[h]| {
      assert ArenaOk(st, h);
    }
    SameArenasLocal(st, st', pend);
    GlobalFrame(st, st');
    LocalFrame(st, st', pend, pend);
  }

  lemma AllocLocalBytes(st: Scope, size: nat, pend: seq<nat>, h: nat)
    requires Inv(st, pend) && h in st.arenas
    ensures var st' := AllocLocal(st, size).0; h in st'.bytes && st'.bytes[h] == st.bytes[h] && h in st.bytes
  {
    RoomBytes(st, size + ALIGNMENT, pend, h);
  }

  // Copying leaves every older block as it was and makes the new one equal to
  // the block copied.
  lemma RelocateContents(st: Scope, b0: Block, pend: seq<nat>, b: Block)
    requires Inv(st, pend) && b0 in st.lblocks && b in st.lblocks
    ensures var (st', p) := Relocate(st, Payload(b0));
      && Content(st', b) == Content(st, b) && Content(st', BlockAt(st', p)) == Content(st, b0)
      && b in st'.lblocks && Payload(b) != p
  {
    LiveBlockAt(st, pend, b0);
    RelocateInv(st, b0, pend);
    var size := SizeOf(st, Payload(b0));
    var (st1, p) := AllocLocal(st, size);
    AllocLocalInv(st, size, pend);
    var nb := Block(Addr(p.arena, p.off - ALIGNMENT), size + ALIGNMENT);
    BlockBelowAvail(st1, pend, nb);
    CopyContents(st, st1, b0, nb, b, pend);
    var (st', p') := Relocate(st, Payload(b0));
    assert BlockAt(st', p) == nb by { assert nb in st'.lblocks; LiveBlockAt(st', pend, nb); }
    AllocLocalAbove(st, size, pend, b);
  }

  lemma CopyTarget(bytes: map<nat, seq<int>>, nb: Block, b0: Block)
    requires InMemory(bytes, nb) && InMemory(bytes, b0) && nb.size == b0.size
    ensures BytesOf(CopyBytes(bytes, Payload(nb), Payload(b0), b0.size - ALIGNMENT), nb) == BytesOf(bytes, b0)
  {
    Spliced(bytes[nb.at.arena], nb.at.off + ALIGNMENT, bytes[b0.at.arena][b0.at.off + ALIGNMENT..b0.at.off + b0.size]);
  }

  // Overwriting part of a sequence: the part is what was written, and what lies
  // in front of it is as it was.
  lemma Spliced(s: seq<int>, off: nat, mid: seq<int>)
    requires off + |mid| <= |s|
    ensures var r := s[..off] + mid + s[off + |mid|..];
      |r| == |s| && r[off..off + |mid|] == mid && forall i, j :: 0 <= i <= j <= off ==> r[i..j] == s[i..j]
  {
  }

  lemma CopyElsewhere(bytes: map<nat, seq<int>>, nb: Block, b0: Block, b: Block)
    requires InMemory(bytes, nb) && InMemory(bytes, b0) && InMemory(bytes, b) && nb.size == b0.size
    requires b.at.arena == nb.at.arena ==> b.at.off + b.size <= nb.at.off
    ensures BytesOf(CopyBytes(bytes, Payload(nb), Payload(b0), b0.size - ALIGNMENT), b) == BytesOf(bytes, b)
  {
    Spliced(bytes[nb.at.arena], nb.at.off + ALIGNMENT, bytes[b0.at.arena][b0.at.off + ALIGNMENT..b0.at.off + b0.size]);
  }

  lemma AllocLocalContent(st: Scope, size: nat, pend: seq<nat>, b: Block)
    requires Inv(st, pend) && b in st.lblocks
    ensures var st1 := AllocLocal(st, size).0; InMemory(st1.bytes, b) && BytesOf(st1.bytes, b) == BytesOf(st.bytes, b)
  {
    BlockBelowAvail(st, pend, b);
    AllocLocalBytes(st, size, pend, b.at.arena);
  }

  lemma CopyContents(st: Scope, st1: Scope, b0: Block, nb: Block, b: Block, pend: seq<nat>)
    requires Inv(st, pend) && b0 in st.lblocks && b in st.lblocks
    requires b0.size >= ALIGNMENT && nb.size == b0.size && (st1, Payload(nb)) == AllocLocal(st, b0.size - ALIGNMENT)
    requires InMemory(st1.bytes, nb)
    ensures var bytes := CopyBytes(st1.bytes, Payload(nb), Payload(b0), b0.size - ALIGNMENT);
      BytesOf(bytes, b) == BytesOf(st.bytes, b) && BytesOf(bytes, nb) == BytesOf(st.bytes, b0)
  {
    var size := b0.size - ALIGNMENT;
    AllocLocalContent(st, size, pend, b0);
    AllocLocalContent(st, size, pend, b);
    AllocLocalAbove(st, size, pend, b);
    CopyTarget(st1.bytes, nb, b0);
    CopyElsewhere(st1.bytes, nb, b0, b);
  }

  // ---- releasing and keeping arenas -----------------------------------------

  lemma ReleaseArenas(st: Scope, cur: nat, pend: seq<nat>)
    requires ArenaInv(st, [cur] + pend) && cur in st.arenas
    ensures ArenaInv(Release(st, cur), pend)
  {
    var st' := Release(st, cur);
    SinglePlace(st, pend, cur);
    HandlesPush(st, pend, cur);
    assert ArenaOk(st, cur);
    assert Handles(st', pend) == Handles(st, [cur] + pend);
    forall h: nat ensures Handles(st', pend)[h] == One(1 <= h <= st'.obtained) {
      assert Handles(st, [cur] + pend)[h] == One(1 <= h <= st.obtained);
    }
    forall h | h in st'.arenas ensures h <= st'.obtained && ArenaOk(st', h) {
      assert ArenaOk(st, h);
    }
  }

  lemma ReleaseInv(st: Scope, cur: nat, pend: seq<nat>)
    requires Inv(st, [cur] + pend) && cur in st.arenas
    ensures Inv(Release(st, cur), pend)
  {
    ReleaseArenas(st, cur, pend);
    GlobalFrame(st, Release(st, cur));
    ReleaseLocals(st, cur, pend);
  }

  lemma ReleaseLocals(st: Scope, cur: nat, pend: seq<nat>)
    requires Inv(st, [cur] + pend) && cur in st.arenas
    ensures LocalInv(Release(st, cur), pend)
  {
    var st' := Release(st, cur);
    SinglePlace(st, pend, cur);
    forall p ensures Cover(st'.lblocks, p) == One(InLocal(st', pend, p)) {
      WithoutCover(st.lblocks, cur, p);
      assert Cover(st.lblocks, p) == One(InLocal(st, [cur] + pend, p));
    }
    forall i | 0 <= i < |st'.lblocks| ensures SizeWord(st', st'.lblocks[i]) {
      WithoutMember(st.lblocks, cur, st'.lblocks[i]);
      BlockBelowAvail(st, [cur] + pend, st'.lblocks[i]);
    }
  }

  function Inset(st: Scope, cur: nat): Scope
    requires st.local != []
  {
    st.(local := [st.local[0], cur] + st.local[1..])
  }

  lemma InsetInv(st: Scope, cur: nat, pend: seq<nat>)
    requires Inv(st, [cur] + pend) && cur in st.arenas && |st.local| >= 2
    ensures Inv(Inset(st, cur), pend)
  {
    hide Handles, GlobalInv, LocalInv;
    var st' := Inset(st, cur);
    HandlesPush(st, pend, cur);
    InsetHandles(st, cur, pend);
    forall h: nat ensures Handles(st', pend)[h] == One(1 <= h <= st'.obtained) {
      assert Handles(st, [cur] + pend)[h] == One(1 <= h <= st.obtained);
    }
    forall h | h in st'.arenas ensures h <= st'.obtained && ArenaOk(st', h) {
      assert ArenaOk(st, h);
    }
    GlobalFrame(st, st');
    forall p ensures InLocal(st', pend, p) <==> InLocal(st, [cur] + pend, p) {
      InsetChain(st.local, cur);
    }
    LocalFrame(st, st', [cur] + pend, pend);
  }

  lemma InsetChain(s: seq<nat>, cur: nat)
    requires |s| >= 2
    ensures multiset(Chain([s[0], cur] + s[1..])) == multiset(Chain(s)) + multiset{cur}
    ensures forall h :: h in Chain([s[0], cur] + s[1..]) <==> h in Chain(s) || h == cur
  {
    var rest := Chain(s)[1..];
    assert Chain(s) == [s[0]] + rest;
    assert Chain([s[0], cur] + s[1..]) == [s[0], cur] + rest;
  }

  lemma InsetHandles(st: Scope, cur: nat, pend: seq<nat>)
    requires |st.local| >= 2 && st.global != []
    ensures Handles(Inset(st, cur), pend) == Handles(st, pend) + multiset{cur}
  {
    InsetChain(st.local, cur);
    MoveOne(multiset(Chain(st.local)), multiset(Chain(st.global)), multiset(st.frees),
            multiset(st.returned), multiset(pend), multiset{cur});
  }

  lemma ChainCut(s: seq<nat>, i: nat)
    requires i < |s|
    ensures s == s[..i] + s[i..] && Chain(s) == s[..i] + Chain(s[i..])
    ensures multiset(Chain(s)) == multiset(s[..i]) + multiset(Chain(s[i..]))
  {
    assert Chain(s) == s[..i] + Chain(s[i..]);
  }

  // The newer arenas of the chain are in hand instead.
  lemma HandlesCut(st: Scope, st': Scope, i: nat)
    requires st.global != [] && i < |st.local| && st'.local == st.local[i..]
    requires st'.global == st.global && st'.frees == st.frees && st'.returned == st.returned
    ensures Handles(st', st.local[..i]) == Handles(st, [])
    ensures st.local == st.local[..i] + st'.local && Chain(st.local) == st.local[..i] + Chain(st'.local)
  {
    ChainCut(st.local, i);
    MoveOne(multiset(Chain(st'.local)), multiset(st.global[..|st.global| - 1]), multiset(st.frees),
            multiset(st.returned), multiset{}, multiset(st.local[..i]));
  }

  lemma RewoundInv(st: Scope, sign: Addr)
    requires Inv(st, []) && ValidSign(st, sign)
    ensures Inv(Rewound(st, sign), Newer(st, sign))
    ensures LocalHeaded(Rewound(st, sign)) && sign.arena !in Newer(st, sign)
  {
    hide GlobalInv, LocalInv, Handles;
    var st1 := SetAvail(st, sign.arena, sign.off);
    var st' := Rewound(st, sign);
    var i := IndexOf(st.local, sign.arena);
    var newer := Newer(st, sign);
    assert ArenaOk(st, sign.arena);
    SetAvailArenas(st, sign.arena, sign.off, []);
    HandlesCut(st, st', i);
    forall h: nat ensures Handles(st', newer)[h] == One(1 <= h <= st'.obtained) {
      assert Handles(st1, [])[h] == One(1 <= h <= st1.obtained);
    }
    forall h | h in st'.arenas ensures h <= st'.obtained && ArenaOk(st', h) {
      assert ArenaOk(st1, h);
    }
    if sign.arena != DUMMY {
      OnOneChain(st, [], sign.arena);
    }
    GlobalFrame(st, st');
    RewoundLocals(st, sign);
  }

  // A signature: an avail pointer of a local arena that no block straddles.
  ghost predicate ValidSign(st: Scope, sign: Addr) {
    && SignInChain(st, sign)
    && HEADER <= sign.off <= st.arenas[sign.arena].avail
    && Clean(st.lblocks, sign)
  }

  lemma RewoundLocals(st: Scope, sign: Addr)
    requires Inv(st, []) && ValidSign(st, sign)
    ensures LocalInv(Rewound(st, sign), Newer(st, sign))
  {
    var st' := Rewound(st, sign);
    var newer := Newer(st, sign);
    assert Chain(st.local) == newer + Chain(st'.local);
    assert ArenaOk(st, DUMMY);
    forall p ensures Cover(st'.lblocks, p) == One(InLocal(st', newer, p)) {
      BelowCover(st.lblocks, sign, p);
      assert Cover(st.lblocks, p) == One(InLocal(st, [], p));
    }
    forall i | 0 <= i < |st'.lblocks| ensures SizeWord(st', st'.lblocks[i]) {
      BelowMember(st.lblocks, sign, st'.lblocks[i]);
      BlockBelowAvail(st, [], st'.lblocks[i]);
    }
  }
}
