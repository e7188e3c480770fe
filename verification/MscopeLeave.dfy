// _mscope_leave_local: rewind to a signature, move survivors out of the newer
// arenas, release those arenas.
module MscopeLeave {
  import opened MscopeBlocks
  import opened MscopeState
  import opened MscopeLocal

  // A pointer cell of the caller: into an arena, or to memory elsewhere.
  datatype Cell = Inside(at: Addr) | Outside(tag: nat)

  datatype Left = Left(st: Scope, cells: seq<Cell>) | Aborted

  datatype Scanned = Scanned(st: Scope, cells: seq<Cell>, inset: bool) | Abort

  function SizeOf(st: Scope, at: Addr): nat {
    if at in st.sizes then st.sizes[at] else 0
  }

  // memcpy of n bytes between arenas.
  function CopyBytes(bytes: map<nat, seq<int>>, dst: Addr, src: Addr, n: nat): map<nat, seq<int>> {
    if dst.arena in bytes && src.arena in bytes
       && dst.off + n <= |bytes[dst.arena]| && src.off + n <= |bytes[src.arena]| then
      bytes[dst.arena := bytes[dst.arena][..dst.off] + bytes[src.arena][src.off..src.off + n]
                         + bytes[dst.arena][dst.off + n..]]
    else bytes
  }

  // Allocate in the scope left to, and copy the block at src there.
  function Relocate(st: Scope, src: Addr): (r: (Scope, Addr))
    requires LocalHeaded(st)
    ensures LocalHeaded(r.0)
  {
    var size := SizeOf(st, src);
    var (st1, p) := AllocLocal(st, size);
    (st1.(bytes := CopyBytes(st1.bytes, p, src, size)), p)
  }

  predicate PointsInto(c: Cell, h: nat) {
    c.Inside? && c.at.arena == h
  }

  // The scan of the cells for survivors in arena cur: move each out, or, if the
  // arena is larger than standard, keep the arena behind the top of the chain.
  function MoveOut(st: Scope, cells: seq<Cell>, cur: nat, j: nat): Scanned
    requires LocalHeaded(st) && cur in st.arenas && j <= |cells|
    decreases |cells| - j
  {
    if j == |cells| then Scanned(st, cells, false)
    else if !PointsInto(cells[j], cur) then MoveOut(st, cells, cur, j + 1)
    else if st.arenas[cur].limit > ARENA_SIZE then
      if st.local == [DUMMY] then Abort
      else Scanned(st.(local := [st.local[0], cur] + st.local[1..]), cells, true)
    else
      var (st1, p) := Relocate(st, cells[j].at);
      MoveOut(st1, cells[j := Inside(p)], cur, j + 1)
  }

  function Without(blocks: seq<Block>, h: nat): seq<Block> {
    if blocks == [] then []
    else (if blocks[0].at.arena == h then [] else [blocks[0]]) + Without(blocks[1..], h)
  }

  // _mscope_release_arena: cache it, or give it back if it is oversized.
  function Release(st: Scope, h: nat): Scope
    requires h in st.arenas
  {
    var st' := st.(lblocks := Without(st.lblocks, h));
    if st.arenas[h].limit > ARENA_SIZE then st'.(returned := st.returned + [h])
    else st'.(frees := [h] + st.frees)
  }

  function ReleaseAll(st: Scope, cells: seq<Cell>, chain: seq<nat>): Left
    requires LocalHeaded(st) && forall h :: h in chain ==> h in st.arenas
    decreases |chain|
  {
    if chain == [] then Left(st, cells)
    else
      var r := MoveOut(st, cells, chain[0], 0);
      MoveOutArenas(st, cells, chain[0], 0);
      if r.Abort? then Aborted
      else if r.inset then ReleaseAll(r.st, r.cells, chain[1..])
      else ReleaseAll(Release(r.st, chain[0]), r.cells, chain[1..])
  }

  lemma {:induction false} MoveOutArenas(st: Scope, cells: seq<Cell>, cur: nat, j: nat)
    requires LocalHeaded(st) && cur in st.arenas && j <= |cells|
    ensures var r := MoveOut(st, cells, cur, j);
      r.Scanned? ==> LocalHeaded(r.st) && st.arenas.Keys <= r.st.arenas.Keys && |r.cells| == |cells|
    decreases |cells| - j
  {
    if j == |cells| {
    } else if !PointsInto(cells[j], cur) {
      MoveOutArenas(st, cells, cur, j + 1);
    } else if st.arenas[cur].limit > ARENA_SIZE {
    } else {
      var (st1, p) := Relocate(st, cells[j].at);
      MoveOutArenas(st1, cells[j := Inside(p)], cur, j + 1);
    }
  }

  function IndexOf(s: seq<nat>, h: nat): (i: nat)
    requires h in s
    ensures i < |s| && s[i] == h && h !in s[..i]
  {
    if s[0] == h then 0 else 1 + IndexOf(s[1..], h)
  }

  function Below(blocks: seq<Block>, sign: Addr): seq<Block> {
    if blocks == [] then []
    else (if blocks[0].at.arena == sign.arena && blocks[0].at.off >= sign.off then [] else [blocks[0]])
         + Below(blocks[1..], sign)
  }

  predicate SignInChain(st: Scope, sign: Addr) {
    sign.arena in st.local && forall h :: h in st.local ==> h in st.arenas
  }

  // The chain cut off above the signature's arena, and that arena rewound.
  function Rewound(st: Scope, sign: Addr): Scope
    requires SignInChain(st, sign)
  {
    SetAvail(st, sign.arena, sign.off).(
      local := st.local[IndexOf(st.local, sign.arena)..], lblocks := Below(st.lblocks, sign))
  }

  function Newer(st: Scope, sign: Addr): seq<nat>
    requires SignInChain(st, sign)
  {
    st.local[..IndexOf(st.local, sign.arena)]
  }

  // The first loop of the source moves a survivor of the signature's arena only
  // if it lies above that arena's avail pointer, which has not been rewound yet.
  predicate FirstLoopMoves(st: Scope, sign: Addr, c: Cell)
    requires SignInChain(st, sign)
  {
    PointsInto(c, sign.arena) && c.at.off > st.arenas[sign.arena].avail
  }

  function Leave(st: Scope, sign: Addr, cells: seq<Cell>): Left
    requires LocalHeaded(st) && SignInChain(st, sign)
    requires forall j :: 0 <= j < |cells| ==> !FirstLoopMoves(st, sign, cells[j])
  {
    ReleaseAll(Rewound(st, sign), cells, Newer(st, sign))
  }

  // ---- filters --------------------------------------------------------------

  lemma {:induction false} WithoutCover(blocks: seq<Block>, h: nat, p: Addr)
    ensures Cover(Without(blocks, h), p) == if p.arena == h then 0 else Cover(blocks, p)
  {
    if blocks != [] {
      WithoutCover(blocks[1..], h, p);
      CoverConcat(if blocks[0].at.arena == h then [] else [blocks[0]], Without(blocks[1..], h), p);
      assert Cover([blocks[0]], p) == One(Within(p, blocks[0])) + Cover([], p);
    }
  }

  lemma {:induction false} WithoutMember(blocks: seq<Block>, h: nat, b: Block)
    ensures b in Without(blocks, h) <==> b in blocks && b.at.arena != h
  {
    if blocks != [] {
      WithoutMember(blocks[1..], h, b);
    }
  }

  // No block straddles the signature.
  predicate Clean(blocks: seq<Block>, sign: Addr) {
    forall i :: 0 <= i < |blocks| ==>
      blocks[i].at.arena != sign.arena || blocks[i].at.off + blocks[i].size <= sign.off || sign.off <= blocks[i].at.off
  }

  lemma {:induction false} BelowCover(blocks: seq<Block>, sign: Addr, p: Addr)
    requires Clean(blocks, sign)
    ensures Cover(Below(blocks, sign), p) == if p.arena == sign.arena && p.off >= sign.off then 0 else Cover(blocks, p)
  {
    if blocks != [] {
      assert Clean(blocks[1..], sign);
      BelowCover(blocks[1..], sign, p);
      var head := if blocks[0].at.arena == sign.arena && blocks[0].at.off >= sign.off then [] else [blocks[0]];
      CoverConcat(head, Below(blocks[1..], sign), p);
      assert Cover([blocks[0]], p) == One(Within(p, blocks[0])) + Cover([], p);
    }
  }

  lemma {:induction false} BelowMember(blocks: seq<Block>, sign: Addr, b: Block)
    ensures b in Below(blocks, sign) <==> b in blocks && !(b.at.arena == sign.arena && b.at.off >= sign.off)
  {
    if blocks != [] {
      BelowMember(blocks[1..], sign, b);
    }
  }
}
