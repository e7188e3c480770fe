// struct mscope: the fields and the in-place operations of base/mscope.c, each
// proved against the functions on states.
module Mscope {
  import opened Options
  import opened MscopeBlocks
  import opened MscopeState
  import opened MscopeGlobal
  import opened MscopeLocal
  import opened MscopeLeave
  import opened MscopeSurvive
  import opened MscopeScopes
  import opened MscopeNested
  import opened MscopeHistory
  import opened MscopeAnswers
  import opened MscopeEmptied

  datatype Outcome = Moved | KeptArena | Halted

  class Mscope {
    var arenas: map<nat, Arena>
    var local: seq<nat>
    var global: seq<nat>
    var frees: seq<nat>
    var segments: Segments
    var sizes: map<Addr, nat>
    var bytes: map<nat, seq<int>>
    var obtained: nat
    var returned: seq<nat>
    ghost var gblocks: seq<Block>
    ghost var lblocks: seq<Block>

    ghost function View(): Scope
      reads this
    {
      Scope(arenas, local, global, frees, segments, sizes, bytes, obtained, returned, gblocks, lblocks)
    }

    // mscope_create
    constructor ()
      ensures View() == Create() && Inv(View(), [])
    {
      arenas := map[DUMMY := Arena(HEADER, HEADER)];
      local, global, frees, returned := [DUMMY], [DUMMY], [], [];
      segments := seq(NSEGMENT, _ => []);
      sizes, bytes := map[], map[DUMMY := seq(HEADER, _ => 0)];
      obtained := 0;
      gblocks, lblocks := [], [];
      new;
      CreateInv();
    }

    // _mscope_segment_block
    method SegmentBlock(at: Addr, size: nat)
      modifies this`segments
      ensures segments == Carve(old(segments), at, size, old(|segments|))
    {
      var i: nat, left: nat := |segments|, size;
      while i != 0 && left >= SegSize(0)
        invariant i <= |segments| == old(|segments|)
        invariant Carve(segments, at, left, i) == Carve(old(segments), at, size, old(|segments|))
      {
        i := i - 1;
        if left >= SegSize(i) {
          left := left - SegSize(i);
          var ins := Block(Addr(at.arena, at.off + left), SegSize(i));
          segments := segments[i := [ins] + segments[i]];
        }
      }
    }

    // _mscope_alloc_block
    method AllocBlock(size: nat) returns (r: Option<Addr>)
      modifies this`segments, this`gblocks
      ensures r.Some? <==> exists k: nat :: Fits(old(segments), size, k)
      ensures r.None? ==> segments == old(segments) && gblocks == old(gblocks)
      ensures r.Some? ==> BestFit(old(segments), size).Fit?
      ensures r.Some? ==> var (segs, b) := TakeBlock(old(segments), size);
                segments == segs && r.value == b.at && gblocks == old(gblocks) + [b]
    {
      var best := NoFit;
      var i: nat := |segments|;
      while i != 0 && size <= SegSize(i - 1)
        invariant i <= |segments|
        invariant best.Fit? ==> best.k < |segments| && segments[best.k] != []
        invariant Scan(segments, size, i, best) == BestFit(segments, size)
      {
        i := i - 1;
        if segments[i] != [] {
          best := Fit(i);
        }
      }
      if best == NoFit {
        return None;
      }
      var blk := segments[best.k][0];
      var left := SegSize(best.k) - size;
      segments := segments[best.k := segments[best.k][1..]];
      SegmentBlock(blk.at, left);
      var at := Addr(blk.at.arena, blk.at.off + left);
      gblocks := gblocks + [Block(at, size)];
      return Some(at);
    }

    // _mscope_acquire_arena; the backing allocator hands out a new arena.
    method AcquireArena(hint: nat) returns (h: nat)
      requires frees != [] ==> frees[0] in arenas
      modifies this`arenas, this`frees, this`bytes, this`obtained
      ensures (View(), h) == Acquire(old(View()), hint)
    {
      var size := hint + HEADER;
      if size <= ARENA_SIZE {
        if frees != [] {
          h := frees[0];
          frees := frees[1..];
          arenas := arenas[h := Arena(HEADER, arenas[h].limit)];
          return;
        }
        size := ARENA_SIZE;
      }
      obtained := obtained + 1;
      h := obtained;
      arenas := arenas[h := Arena(HEADER, size)];
      bytes := bytes[h := seq(size, _ => 0)];
    }

    // _mscope_release_arena
    method ReleaseArena(h: nat)
      requires h in arenas
      modifies this`frees, this`returned, this`lblocks
      ensures View() == Release(old(View()), h)
    {
      if arenas[h].limit > ARENA_SIZE {
        returned := returned + [h];
      } else {
        frees := [h] + frees;
      }
      lblocks := Without(lblocks, h);
    }

    // The current arena's tail goes to the segment lists, a new arena in front.
    method RetireArena(need: nat)
      requires Headed(View()) && (frees != [] ==> frees[0] in arenas)
      modifies this
      ensures View() == Retire(old(View()), need)
    {
      var a := arenas[global[0]];
      SegmentBlock(Addr(global[0], a.avail), a.limit - a.avail);
      var h := AcquireArena(need);
      global := [h] + global;
    }

    // mscope_alloc_global
    method AllocGlobal(size: nat) returns (at: Addr)
      requires Inv(View(), [])
      modifies this
      ensures (View(), at) == MscopeGlobal.AllocGlobal(old(View()), AlignSize(size))
      ensures Inv(View(), []) && gblocks == old(gblocks) + [Block(at, AlignSize(size))]
    {
      AllocGlobalInv(View(), AlignSize(size));
      AllocGlobalAnswers(View(), AlignSize(size));
      var need := AlignSize(size);
      var r := AllocBlock(need);
      if r.Some? {
        return r.value;
      }
      assert ArenaOk(View(), global[0]);
      if arenas[global[0]].avail + need > arenas[global[0]].limit {
        RetireArena(need);
      }
      at := BumpGlobal(need);
    }

    method BumpGlobal(need: nat) returns (at: Addr)
      requires global != [] && global[0] in arenas
      modifies this`arenas, this`gblocks
      ensures (View(), at) == Bump(old(View()), need)
    {
      var g := global[0];
      at := Addr(g, arenas[g].avail);
      arenas := arenas[g := Arena(at.off + need, arenas[g].limit)];
      gblocks := gblocks + [Block(at, need)];
    }

    // _mscope_alloc_local
    method AllocLocalAligned(size: nat) returns (p: Addr)
      requires LocalHeaded(View())
      modifies this
      ensures (View(), p) == AllocLocal(old(View()), size)
    {
      var total := size + ALIGNMENT;
      if arenas[local[0]].avail + total > arenas[local[0]].limit {
        var h := AcquireArena(total);
        local := [h] + local;
      }
      var top := local[0];
      var avail := arenas[top].avail;
      arenas := arenas[top := Arena(avail + total, arenas[top].limit)];
      p := Addr(top, avail + ALIGNMENT);
      sizes := sizes[p := size];
      lblocks := lblocks + [Block(Addr(top, avail), total)];
    }

    // mscope_alloc_local
    method AllocateLocal(size: nat) returns (p: Addr)
      requires Inv(View(), [])
      modifies this
      ensures (View(), p) == AllocLocal(old(View()), AlignSize(size))
      ensures Inv(View(), []) && p.off >= ALIGNMENT
      ensures lblocks == old(lblocks) + [Block(Addr(p.arena, p.off - ALIGNMENT), AlignSize(size) + ALIGNMENT)]
    {
      AllocLocalInv(View(), AlignSize(size), []);
      p := AllocLocalAligned(AlignSize(size));
    }

    // mscope_enter_local
    method EnterLocal() returns (sign: Addr)
      requires Inv(View(), [])
      ensures sign == EnterSign(View())
      ensures ValidSign(View(), sign)
    {
      sign := Addr(local[0], arenas[local[0]].avail);
      EnterValid(View());
    }

    // mscope_leave_local.  The result is false where the source's assertion that
    // the scope left to has an arena fails.
    method LeaveLocal(sign: Addr, cells: array<Cell>) returns (ok: bool)
      requires Inv(View(), []) && ValidSign(View(), sign) && ValidCells(View(), cells[..])
      modifies this, cells
      ensures forall j :: 0 <= j < |old(cells[..])| ==> !FirstLoopMoves(old(View()), sign, old(cells[..])[j])
      ensures ok ==> Left(View(), cells[..]) == Leave(old(View()), sign, old(cells[..])) && Inv(View(), [])
      ensures !ok ==> Leave(old(View()), sign, old(cells[..])) == Aborted
      ensures ok ==> local != [] && forall h :: h in Newer(old(View()), sign) ==>
                Placed(old(View()), old(cells[..]), OlderChain(old(View()), sign), View(), h)
    {
      hide Inv, Placed;
      ghost var st0, cells0 := View(), cells[..];
      LeaveInv(st0, sign, cells0);
      LeaveEmptiesArenas(st0, sign, cells0);
      RewoundInv(st0, sign);
      var i := FindArena(sign.arena);
      var chain := local[..i];
      assert forall h :: h in chain ==> h in local;
      local := local[i..];
      arenas := arenas[sign.arena := Arena(sign.off, arenas[sign.arena].limit)];
      lblocks := Below(lblocks, sign);
      ok := ReleaseChain(cells, chain);
    }

    // Scan and release the arenas of a chain, newest first.
    method ReleaseChain(cells: array<Cell>, newer: seq<nat>) returns (ok: bool)
      requires LocalHeaded(View()) && forall h :: h in newer ==> h in arenas
      modifies this, cells
      ensures ok ==> ReleaseAll(old(View()), old(cells[..]), newer) == Left(View(), cells[..])
      ensures !ok ==> ReleaseAll(old(View()), old(cells[..]), newer) == Aborted
    {
      var chain := newer;
      while chain != []
        invariant LocalHeaded(View()) && forall h :: h in chain ==> h in arenas
        invariant ReleaseAll(View(), cells[..], chain) == ReleaseAll(old(View()), old(cells[..]), newer)
        decreases |chain|
      {
        MoveOutArenas(View(), cells[..], chain[0], 0);
        var r := ScanCells(cells, chain[0]);
        if r == Halted {
          return false;
        }
        if r == Moved {
          ReleaseArena(chain[0]);
        }
        chain := chain[1..];
      }
      return true;
    }

    // The walk down the local chain to the signature's arena.
    method FindArena(h: nat) returns (i: nat)
      requires h in local
      ensures i == IndexOf(local, h)
    {
      i := 0;
      while local[i] != h
        invariant i < |local| && h !in local[..i]
        decreases |local| - i
      {
        assert local[..i + 1] == local[..i] + [local[i]];
        i := i + 1;
        if i == |local| {
          assert local[..i] == local;
        }
      }
      IndexOfUnique(local, i);
    }

    // The scan of the caller's cells for survivors in arena cur.
    method ScanCells(cells: array<Cell>, cur: nat) returns (r: Outcome)
      requires LocalHeaded(View()) && cur in arenas
      modifies this, cells
      ensures LocalHeaded(View()) && old(arenas).Keys <= arenas.Keys
      ensures r == Halted ==> MoveOut(old(View()), old(cells[..]), cur, 0) == Abort
      ensures r != Halted ==>
                MoveOut(old(View()), old(cells[..]), cur, 0) == Scanned(View(), cells[..], r == KeptArena)
    {
      var j := 0;
      while j < cells.Length
        invariant j <= cells.Length && LocalHeaded(View()) && cur in arenas && old(arenas).Keys <= arenas.Keys
        invariant MoveOut(View(), cells[..], cur, j) == MoveOut(old(View()), old(cells[..]), cur, 0)
      {
        if PointsInto(cells[j], cur) {
          if arenas[cur].limit > ARENA_SIZE {
            if local == [DUMMY] {
              return Halted;
            }
            local := [local[0], cur] + local[1..];
            return KeptArena;
          }
          MoveOutOne(cells, j);
        }
        j := j + 1;
      }
      return Moved;
    }

    // Move the block cell j points at into the current scope.
    method MoveOutOne(cells: array<Cell>, j: nat)
      requires LocalHeaded(View()) && j < cells.Length && cells[j].Inside?
      modifies this, cells
      ensures var (st, p) := Relocate(old(View()), old(cells[j].at));
        View() == st && cells[..] == old(cells[..])[j := Inside(p)] && old(arenas).Keys <= arenas.Keys
    {
      var src := cells[j].at;
      var size := if src in sizes then sizes[src] else 0;
      var p := AllocLocalAligned(size);
      bytes := CopyBytes(bytes, p, src, size);
      cells[j] := Inside(p);
    }

    // mscope_collect
    method Collect()
      requires Inv(View(), [])
      modifies this`frees, this`returned
      ensures View() == CollectFrees(old(View())) && Inv(View(), [])
      ensures frees == [] && returned == old(returned) + old(frees)
    {
      CollectInv(View());
      DeallocArenas(frees);
      frees := [];
    }

    // mscope_delete: every arena obtained has gone back exactly once.
    method Delete()
      requires Inv(View(), [])
      modifies this
      ensures local == [DUMMY] && global == [DUMMY] && frees == []
      ensures forall h: nat :: multiset(returned)[h] == One(1 <= h <= old(obtained))
    {
      forall h: nat ensures multiset(DeleteAll(View()))[h] == One(1 <= h <= obtained) {
        DeleteReturnsEachArenaOnce(View(), h);
      }
      ghost var all := DeleteAll(View());
      DeallocArenas(Chain(local));
      DeallocArenas(Chain(global));
      DeallocArenas(frees);
      local, global, frees := [DUMMY], [DUMMY], [];
      assert returned == all;
    }

    // _mscope_dealloc_arena over a chain.
    method DeallocArenas(chain: seq<nat>)
      modifies this`returned
      ensures returned == old(returned) + chain
    {
      var i := 0;
      while i < |chain|
        invariant i <= |chain| && returned == old(returned) + chain[..i]
      {
        returned := returned + [chain[i]];
        i := i + 1;
      }
    }
  }
}
