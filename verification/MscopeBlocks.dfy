// Blocks, byte coverage and power-of-two carving for the scoped allocator
// (base/mscope.c).  An address is an arena handle and a byte offset.
module MscopeBlocks {
  const ALIGNMENT: nat := 16
  const NSEGMENT: nat := 8

  datatype Addr = Addr(arena: nat, off: nat)
  datatype Block = Block(at: Addr, size: nat)
  type Segments = seq<seq<Block>>

  // segsizes[i] in the source: 16, 32, ..., 2048.
  function SegSize(i: nat): (n: nat)
    ensures n >= 16
  {
    if i == 0 then 16 else 2 * SegSize(i - 1)
  }

  function AlignSize(size: nat): (n: nat)
    ensures n % ALIGNMENT == 0 && size <= n < size + ALIGNMENT
  {
    (size + (ALIGNMENT - 1)) / ALIGNMENT * ALIGNMENT
  }

  predicate Within(p: Addr, b: Block) {
    p.arena == b.at.arena && b.at.off <= p.off < b.at.off + b.size
  }

  predicate Disjoint(a: Block, b: Block) {
    a.at.arena != b.at.arena || a.at.off + a.size <= b.at.off || b.at.off + b.size <= a.at.off
  }

  function One(b: bool): (n: nat) {
    if b then 1 else 0
  }

  // How many blocks of the list hold the byte at p.
  function Cover(blocks: seq<Block>, p: Addr): nat {
    if blocks == [] then 0 else One(Within(p, blocks[0])) + Cover(blocks[1..], p)
  }

  // How many blocks on the first n segment lists hold the byte at p.
  function FreeCover(segs: Segments, n: nat, p: Addr): nat
    requires n <= |segs|
  {
    if n == 0 then 0 else FreeCover(segs, n - 1, p) + Cover(segs[n - 1], p)
  }

  function FreeTotal(segs: Segments, p: Addr): nat {
    FreeCover(segs, |segs|, p)
  }

  lemma {:induction false} CoverConcat(a: seq<Block>, b: seq<Block>, p: Addr)
    ensures Cover(a + b, p) == Cover(a, p) + Cover(b, p)
  {
    if a == [] {
      assert a + b == b;
    } else {
      assert (a + b)[1..] == a[1..] + b;
      CoverConcat(a[1..], b, p);
    }
  }

  lemma {:induction false} CoverAt(blocks: seq<Block>, i: nat, p: Addr)
    requires i < |blocks|
    ensures Cover(blocks, p) == Cover(blocks[..i], p) + One(Within(p, blocks[i])) + Cover(blocks[i + 1..], p)
  {
    assert blocks == blocks[..i] + ([blocks[i]] + blocks[i + 1..]);
    CoverConcat(blocks[..i], [blocks[i]] + blocks[i + 1..], p);
    CoverConcat([blocks[i]], blocks[i + 1..], p);
    assert [blocks[i]][1..] == [];
  }

  lemma CoverMember(blocks: seq<Block>, b: Block, p: Addr)
    requires b in blocks && Within(p, b)
    ensures Cover(blocks, p) >= 1
  {
    var i :| 0 <= i < |blocks| && blocks[i] == b;
    CoverAt(blocks, i, p);
  }

  lemma {:induction false} CoverWitness(blocks: seq<Block>, p: Addr) returns (b: Block)
    requires Cover(blocks, p) >= 1
    ensures b in blocks && Within(p, b)
  {
    if Within(p, blocks[0]) {
      b := blocks[0];
    } else {
      b := CoverWitness(blocks[1..], p);
    }
  }

  // Coverage at most one everywhere is pairwise disjointness.
  lemma CoverDisjoint(blocks: seq<Block>, i: nat, j: nat)
    requires i < j < |blocks|
    requires forall p :: Cover(blocks, p) <= 1
    ensures blocks[i].size == 0 || blocks[j].size == 0 || Disjoint(blocks[i], blocks[j])
  {
    if blocks[i].size > 0 && blocks[j].size > 0 && !Disjoint(blocks[i], blocks[j]) {
      var p := Addr(blocks[i].at.arena,
                    if blocks[i].at.off >= blocks[j].at.off then blocks[i].at.off else blocks[j].at.off);
      CoverAt(blocks, j, p);
      assert blocks[..j][i] == blocks[i];
      CoverMember(blocks[..j], blocks[i], p);
      assert false;
    }
  }

  lemma {:induction false} FreeCoverUpdate(segs: Segments, n: nat, k: nat, s: seq<Block>, p: Addr)
    requires n <= |segs| && k < |segs|
    ensures FreeCover(segs[k := s], n, p)
         == FreeCover(segs, n, p) + if k < n then Cover(s, p) - Cover(segs[k], p) else 0
  {
    if n > 0 {
      FreeCoverUpdate(segs, n - 1, k, s, p);
    }
  }

  // Every block on list i has exactly segsizes[i] bytes.
  predicate SizedLists(segs: Segments) {
    forall i :: 0 <= i < |segs| ==> Sized(segs[i], SegSize(i))
  }

  predicate Sized(s: seq<Block>, n: nat) {
    forall j :: 0 <= j < |s| ==> s[j].size == n
  }

  lemma {:induction false} SegSizeMultiple(i: nat)
    ensures SegSize(i) % 16 == 0
  {
    if i > 0 {
      SegSizeMultiple(i - 1);
    }
  }

  // _mscope_segment_block once its loop counter has reached i: greedy, from the
  // high end, largest class first.
  function Carve(segs: Segments, at: Addr, size: nat, i: nat): Segments
    requires i <= |segs|
    decreases i
  {
    if i == 0 || size < SegSize(0) then segs
    else if size >= SegSize(i - 1) then
      var left := size - SegSize(i - 1);
      var ins := Block(Addr(at.arena, at.off + left), SegSize(i - 1));
      Carve(segs[i - 1 := [ins] + segs[i - 1]], at, left, i - 1)
    else Carve(segs, at, size, i - 1)
  }

  // Bytes at the low end that no class is small enough to take.
  function Leftover(size: nat, i: nat): (r: nat)
    ensures r <= size
    decreases i
  {
    if i == 0 || size < SegSize(0) then size
    else if size >= SegSize(i - 1) then Leftover(size - SegSize(i - 1), i - 1)
    else Leftover(size, i - 1)
  }

  lemma {:induction false} LeftoverBelow16(size: nat, i: nat)
    requires size < SegSize(i)
    ensures Leftover(size, i) < 16
    decreases i
  {
    if i == 0 || size < SegSize(0) {
    } else if size >= SegSize(i - 1) {
      LeftoverBelow16(size - SegSize(i - 1), i - 1);
    } else {
      LeftoverBelow16(size, i - 1);
    }
  }

  lemma {:induction false} LeftoverAligned(size: nat, i: nat)
    requires size < SegSize(i) && size % 16 == 0
    ensures Leftover(size, i) == 0
    decreases i
  {
    if i == 0 || size < SegSize(0) {
    } else if size >= SegSize(i - 1) {
      SegSizeMultiple(i - 1);
      LeftoverAligned(size - SegSize(i - 1), i - 1);
    } else {
      LeftoverAligned(size, i - 1);
    }
  }

  function Suffix(at: Addr, size: nat, skip: nat): Block
    requires skip <= size
  {
    Block(Addr(at.arena, at.off + skip), size - skip)
  }

  // Carving a range frees each of its bytes exactly once, but for the leftover.
  lemma {:induction false} CarveCover(segs: Segments, at: Addr, size: nat, i: nat, p: Addr)
    requires i <= |segs|
    ensures var r := Carve(segs, at, size, i);
      && |r| == |segs|
      && FreeTotal(r, p) == FreeTotal(segs, p) + One(Within(p, Suffix(at, size, Leftover(size, i))))
    decreases i
  {
    if i == 0 || size < SegSize(0) {
    } else if size >= SegSize(i - 1) {
      var left := size - SegSize(i - 1);
      var ins := Block(Addr(at.arena, at.off + left), SegSize(i - 1));
      var segs' := segs[i - 1 := [ins] + segs[i - 1]];
      FreeCoverUpdate(segs, |segs|, i - 1, [ins] + segs[i - 1], p);
      assert Cover([ins] + segs[i - 1], p) == One(Within(p, ins)) + Cover(segs[i - 1], p);
      CarveCover(segs', at, left, i - 1, p);
    } else {
      CarveCover(segs, at, size, i - 1, p);
    }
  }

  // List r is list s, or s with one block of the range [at, at+size) pushed.
  predicate Pushed(r: seq<Block>, s: seq<Block>, at: Addr, size: nat) {
    r == s ||
    (r != [] && r[1..] == s && r[0].at.arena == at.arena && at.off <= r[0].at.off
     && r[0].at.off + r[0].size <= at.off + size)
  }

  lemma {:induction false} CarveSized(segs: Segments, at: Addr, size: nat, i: nat)
    requires SizedLists(segs) && i <= |segs|
    ensures SizedLists(Carve(segs, at, size, i))
    decreases i
  {
    if i == 0 || size < SegSize(0) {
    } else if size >= SegSize(i - 1) {
      var left := size - SegSize(i - 1);
      var ins := Block(Addr(at.arena, at.off + left), SegSize(i - 1));
      assert Sized([ins] + segs[i - 1], SegSize(i - 1));
      CarveSized(segs[i - 1 := [ins] + segs[i - 1]], at, left, i - 1);
    } else {
      CarveSized(segs, at, size, i - 1);
    }
  }

  // Carving leaves the classes at or above i alone and pushes at most one
  // block per class below.
  lemma {:induction false} CarveLists(segs: Segments, at: Addr, size: nat, i: nat)
    requires i <= |segs|
    ensures var r := Carve(segs, at, size, i);
      && |r| == |segs|
      && (forall j :: i <= j < |segs| ==> r[j] == segs[j])
      && (forall j :: 0 <= j < i ==> Pushed(r[j], segs[j], at, size))
    decreases i
  {
    if i == 0 || size < SegSize(0) {
    } else if size >= SegSize(i - 1) {
      var left := size - SegSize(i - 1);
      var ins := Block(Addr(at.arena, at.off + left), SegSize(i - 1));
      CarveLists(segs[i - 1 := [ins] + segs[i - 1]], at, left, i - 1);
      CarvePushed(segs, at, size, i);
    } else {
      CarveLists(segs, at, size, i - 1);
    }
  }

  lemma CarvePushed(segs: Segments, at: Addr, size: nat, i: nat)
    requires 0 < i <= |segs| && SegSize(i - 1) <= size
    requires var left := size - SegSize(i - 1);
      var ins := Block(Addr(at.arena, at.off + left), SegSize(i - 1));
      var segs' := segs[i - 1 := [ins] + segs[i - 1]];
      var r := Carve(segs', at, left, i - 1);
      && |r| == |segs|
      && (forall j :: i - 1 <= j < |segs| ==> r[j] == segs'[j])
      && (forall j :: 0 <= j < i - 1 ==> Pushed(r[j], segs'[j], at, left))
    ensures var r := Carve(segs, at, size, i);
      && |r| == |segs|
      && (forall j :: i <= j < |segs| ==> r[j] == segs[j])
      && (forall j :: 0 <= j < i ==> Pushed(r[j], segs[j], at, size))
  {
    var left := size - SegSize(i - 1);
    var ins := Block(Addr(at.arena, at.off + left), SegSize(i - 1));
    var segs' := segs[i - 1 := [ins] + segs[i - 1]];
    var r := Carve(segs, at, size, i);
    assert r == Carve(segs', at, left, i - 1);
    forall j | 0 <= j < i ensures Pushed(r[j], segs[j], at, size) {
      if j == i - 1 {
        assert r[j][1..] == segs[j];
      } else {
        assert segs'[j] == segs[j];
      }
    }
  }

  // Every free block starts at phase m modulo 16.
  predicate InPhase(s: seq<Block>, m: nat) {
    forall j :: 0 <= j < |s| ==> s[j].at.off % 16 == m
  }

  predicate ListsInPhase(segs: Segments, m: nat) {
    forall i :: 0 <= i < |segs| ==> InPhase(segs[i], m)
  }

  lemma AddMultiple(x: nat, d: nat)
    requires d % 16 == 0
    ensures (x + d) % 16 == x % 16
  {
  }

  // Pieces are cut from the high end, so they start where the range ends modulo 16.
  lemma {:induction false} CarvePhase(segs: Segments, at: Addr, size: nat, i: nat, m: nat)
    requires i <= |segs| && ListsInPhase(segs, m) && (size >= 16 ==> (at.off + size) % 16 == m)
    ensures ListsInPhase(Carve(segs, at, size, i), m)
    decreases i
  {
    if i == 0 || size < SegSize(0) {
    } else if size >= SegSize(i - 1) {
      var left := size - SegSize(i - 1);
      var ins := Block(Addr(at.arena, at.off + left), SegSize(i - 1));
      SegSizeMultiple(i - 1);
      AddMultiple(at.off + left, SegSize(i - 1));
      assert InPhase([ins] + segs[i - 1], m);
      CarvePhase(segs[i - 1 := [ins] + segs[i - 1]], at, left, i - 1, m);
    } else {
      CarvePhase(segs, at, size, i - 1, m);
    }
  }

  datatype Fit = NoFit | Fit(k: nat)

  // _mscope_alloc_block's scan, largest class first, stopping at the first class
  // that is too small; best is the fit seen so far.
  function Scan(segs: Segments, size: nat, i: nat, best: Fit): Fit
    requires i <= |segs|
    decreases i
  {
    if i == 0 || size > SegSize(i - 1) then best
    else Scan(segs, size, i - 1, if segs[i - 1] != [] then Fit(i - 1) else best)
  }

  predicate Fits(segs: Segments, size: nat, k: nat) {
    k < |segs| && size <= SegSize(k) && segs[k] != []
  }

  lemma {:induction false} SegSizeMonotone(i: nat, j: nat)
    requires i <= j
    ensures SegSize(i) <= SegSize(j)
  {
    if i < j {
      SegSizeMonotone(i, j - 1);
    }
  }

  // The scan returns the smallest non-empty class that fits, and nothing only
  // if no class fits.
  lemma {:induction false} ScanIsBestFit(segs: Segments, size: nat, i: nat, best: Fit)
    requires i <= |segs|
    requires best.NoFit? ==> forall k: nat :: i <= k ==> !Fits(segs, size, k)
    requires best.Fit? ==> Fits(segs, size, best.k) && i <= best.k
    requires best.Fit? ==> forall k: nat :: i <= k < best.k ==> !Fits(segs, size, k)
    ensures var r := Scan(segs, size, i, best);
      && (r.NoFit? <==> forall k: nat :: !Fits(segs, size, k))
      && (r.Fit? ==> Fits(segs, size, r.k) && forall k: nat :: k < r.k ==> !Fits(segs, size, k))
    decreases i
  {
    if i == 0 {
    } else if size > SegSize(i - 1) {
      forall k: nat | k < i ensures !Fits(segs, size, k) { SegSizeMonotone(k, i - 1); }
    } else {
      ScanIsBestFit(segs, size, i - 1, if segs[i - 1] != [] then Fit(i - 1) else best);
    }
  }

  function BestFit(segs: Segments, size: nat): (r: Fit)
    ensures r.NoFit? <==> forall k: nat :: !Fits(segs, size, k)
    ensures r.Fit? ==> Fits(segs, size, r.k) && forall k: nat :: k < r.k ==> !Fits(segs, size, k)
  {
    ScanIsBestFit(segs, size, |segs|, NoFit);
    Scan(segs, size, |segs|, NoFit)
  }

  // Pop the best block, return its high end, carve the rest.
  function TakeBlock(segs: Segments, size: nat): (r: (Segments, Block))
    requires BestFit(segs, size).Fit?
  {
    var k := BestFit(segs, size).k;
    var blk := segs[k][0];
    var left := SegSize(k) - size;
    (Carve(segs[k := segs[k][1..]], blk.at, left, |segs|), Block(Addr(blk.at.arena, blk.at.off + left), size))
  }

  // What splitting a block leaves is cut into pieces without remainder.
  lemma SplitLeavesNothing(k: nat, n: nat, size: nat)
    requires k < n && size <= SegSize(k) && size % 16 == 0
    ensures Leftover(SegSize(k) - size, n) == 0
  {
    SegSizeMonotone(k + 1, n);
    SegSizeMultiple(k);
    LeftoverAligned(SegSize(k) - size, n);
  }

  // Taking a block moves bytes from the lists to the caller and loses none.
  lemma TakeBlockCover(segs: Segments, size: nat, p: Addr)
    requires SizedLists(segs) && size % 16 == 0 && BestFit(segs, size).Fit?
    ensures var (segs', b) := TakeBlock(segs, size);
      && FreeTotal(segs', p) + One(Within(p, b)) == FreeTotal(segs, p)
  {
    var k := BestFit(segs, size).k;
    var blk := segs[k][0];
    assert Sized(segs[k], SegSize(k));
    var left := SegSize(k) - size;
    SplitLeavesNothing(k, |segs|, size);
    FreeCoverUpdate(segs, |segs|, k, segs[k][1..], p);
    CarveCover(segs[k := segs[k][1..]], blk.at, left, |segs|, p);
  }

  // The popped list loses its head; besides, each list gains at most one piece
  // of the popped block below the range returned.
  lemma TakeBlockLists(segs: Segments, size: nat)
    requires SizedLists(segs) && BestFit(segs, size).Fit?
    ensures var (segs', b) := TakeBlock(segs, size);
      var k := BestFit(segs, size).k;
      var left := SegSize(k) - size;
      && SizedLists(segs') && |segs'| == |segs|
      && (forall j :: 0 <= j < |segs| ==>
           Pushed(segs'[j], if j == k then segs[j][1..] else segs[j], segs[k][0].at, left))
  {
    var k := BestFit(segs, size).k;
    assert Sized(segs[k], SegSize(k));
    var popped := segs[k := segs[k][1..]];
    CarveLists(popped, segs[k][0].at, SegSize(k) - size, |segs|);
    CarveSized(popped, segs[k][0].at, SegSize(k) - size, |segs|);
  }

  // Splitting keeps every free block, and the block returned, in one phase.
  lemma TakeBlockPhase(segs: Segments, size: nat, m: nat)
    requires SizedLists(segs) && size % 16 == 0 && ListsInPhase(segs, m) && BestFit(segs, size).Fit?
    ensures var (segs', b) := TakeBlock(segs, size);
      ListsInPhase(segs', m) && b.at.off % 16 == m
  {
    var k := BestFit(segs, size).k;
    SegSizeMultiple(k);
    assert InPhase(segs[k], m);
    var popped := segs[k := segs[k][1..]];
    assert InPhase(popped[k], m);
    AddMultiple(segs[k][0].at.off, SegSize(k) - size);
    AddMultiple(segs[k][0].at.off + (SegSize(k) - size), 0);
    CarvePhase(popped, segs[k][0].at, SegSize(k) - size, |segs|, m);
  }
}
