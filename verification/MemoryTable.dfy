// struct memory (base/memory.c): an allocator that keeps a table of the blocks its
// clients hold.  The table is an array grown and shifted in place; what it stands
// for is the map from live pointers to blocks.
module MemoryTable {
  import opened Options

  type Ptr = nat

  // struct meminf without the place of the call.
  datatype Inf = Inf(ptr: Ptr, size: nat)

  // A call to the backing allocator, and the context it was given.
  datatype Op = Get | Resize | Free
  datatype Call = Call(op: Op, context: nat)

  function Sum(t: seq<Inf>): nat {
    if t == [] then 0 else t[0].size + Sum(t[1..])
  }

  predicate Distinct(t: seq<Inf>) {
    forall i, j :: 0 <= i < j < |t| ==> t[i].ptr != t[j].ptr
  }

  // The table lists exactly the blocks, each with its size.
  ghost predicate Lists(t: seq<Inf>, heap: map<Ptr, seq<int>>) {
    && Distinct(t)
    && (forall i :: 0 <= i < |t| ==> t[i].ptr in heap && |heap[t[i].ptr]| == t[i].size)
    && (forall p :: p in heap ==> exists i :: 0 <= i < |t| && t[i].ptr == p)
  }

  lemma {:induction false} SumConcat(a: seq<Inf>, b: seq<Inf>)
    ensures Sum(a + b) == Sum(a) + Sum(b)
  {
    if a == [] {
      assert a + b == b;
    } else {
      assert (a + b)[1..] == a[1..] + b;
      SumConcat(a[1..], b);
    }
  }

  lemma SumAround(t: seq<Inf>, k: nat)
    requires k < |t|
    ensures Sum(t) == Sum(t[..k] + t[k + 1..]) + t[k].size
  {
    var a, b := t[..k], t[k + 1..];
    assert t == a + ([t[k]] + b);
    SumConcat(a, [t[k]] + b);
    SumConcat(a, b);
    assert ([t[k]] + b)[1..] == b;
  }

  lemma SumChanged(t: seq<Inf>, k: nat, x: Inf)
    requires k < |t|
    ensures Sum(t[k := x]) == Sum(t) - t[k].size + x.size
  {
    var u := t[k := x];
    assert u[..k] + u[k + 1..] == t[..k] + t[k + 1..];
    SumAround(t, k);
    SumAround(u, k);
  }

  lemma SumPushed(t: seq<Inf>, x: Inf)
    ensures Sum(t + [x]) == Sum(t) + x.size
  {
    SumConcat(t, [x]);
  }

  lemma ListsPushed(t: seq<Inf>, heap: map<Ptr, seq<int>>, p: Ptr, block: seq<int>)
    requires Lists(t, heap) && p !in heap
    ensures Lists(t + [Inf(p, |block|)], heap[p := block])
  {
    var t' := t + [Inf(p, |block|)];
    assert t'[|t|].ptr == p;
    forall q | q in heap ensures exists i :: 0 <= i < |t'| && t'[i].ptr == q {
      var i :| 0 <= i < |t| && t[i].ptr == q;
      assert t'[i].ptr == q;
    }
  }

  lemma ListsRemoved(t: seq<Inf>, heap: map<Ptr, seq<int>>, k: nat)
    requires k < |t| && Lists(t, heap)
    ensures Lists(t[..k] + t[k + 1..], heap - {t[k].ptr})
  {
    var t', heap' := t[..k] + t[k + 1..], heap - {t[k].ptr};
    forall q | q in heap' ensures exists i :: 0 <= i < |t'| && t'[i].ptr == q {
      var i :| 0 <= i < |t| && t[i].ptr == q;
      assert t'[if i < k then i else i - 1].ptr == q;
    }
    forall i | 0 <= i < |t'| ensures t'[i].ptr in heap' && |heap'[t'[i].ptr]| == t'[i].size {
      assert t'[i] == t[if i < k then i else i + 1];
    }
  }

  // t up to entry n, with entry k taken out.
  lemma Closed(s: seq<Inf>, t: seq<Inf>, k: nat, n: nat)
    requires k <= n == |s| < |t|
    requires forall j :: 0 <= j < k ==> s[j] == t[j]
    requires forall j :: k <= j < n ==> s[j] == t[j + 1]
    ensures s == t[..k] + t[k + 1..n + 1]
  {
    var a, b := t[..k], t[k + 1..n + 1];
    assert s[..k] == a;
    forall j | 0 <= j < |b| ensures b[j] == s[k..][j] {
      assert s[k + j] == t[k + j + 1];
    }
    assert s == s[..k] + s[k..];
  }

  // Entry k now stands for the block at q, where the one at its old pointer went.
  lemma ListsMoved(t: seq<Inf>, heap: map<Ptr, seq<int>>, k: nat, q: Ptr, block: seq<int>)
    requires k < |t| && Lists(t, heap) && (q == t[k].ptr || q !in heap)
    ensures Lists(t[k := Inf(q, |block|)], (heap - {t[k].ptr})[q := block])
  {
    var t', heap' := t[k := Inf(q, |block|)], (heap - {t[k].ptr})[q := block];
    assert t'[k].ptr == q;
    forall x | x in heap' ensures exists i :: 0 <= i < |t'| && t'[i].ptr == x {
      if x != q {
        var i :| 0 <= i < |t| && t[i].ptr == x;
        assert t'[i].ptr == x;
      }
    }
  }

  // Without a backing realloc, a block keeps a size down to half its own.
  predicate Refits(oldsize: nat, size: nat) {
    oldsize / 2 <= size <= oldsize
  }

  // The bytes a reallocation must keep.
  predicate Keeps(before: seq<int>, after: seq<int>, size: nat) {
    |after| >= size && forall i :: 0 <= i < |before| && i < size ==> after[i] == before[i]
  }

  // A reallocation: the new block keeps what it must, the old one is gone and the
  // others stay; when it fails nothing changes, except that resizing to nothing
  // may free.
  ghost predicate Realloced(before: map<Ptr, seq<int>>, after: map<Ptr, seq<int>>, p: Ptr, r: Option<Ptr>, size: nat,
                            resizes: bool)
    requires p in before
  {
    match r
    case Some(q) =>
      && q in after && Keeps(before[p], after[q], size)
      && (q == p || q !in before) && after - {q} == before - {p}
    case None => after == if resizes && size == 0 then before - {p} else before
  }

  class Memory {
    const resizes: bool                  // the backing allocator has a realloc
    const ctx: nat                       // its context, mface->ctx
    const face: nat                      // the interface itself, mface
    var memsize: int
    var imeminf: nat
    var meminfs: array<Inf>              // nmeminf is its length
    var heap: map<Ptr, seq<int>>         // the clients' blocks
    var calls: seq<Call>                 // calls to the backing allocator, in order

    ghost function Table(): seq<Inf>
      requires imeminf <= meminfs.Length
      reads this, meminfs
    {
      meminfs[..imeminf]
    }

    ghost predicate Valid()
      reads this, meminfs
    {
      imeminf <= meminfs.Length && memsize == Sum(Table()) && Lists(Table(), heap)
    }

    // Every call so far passed the client's context.
    predicate Directed()
      reads this`calls
    {
      forall i :: 0 <= i < |calls| ==> calls[i].context == ctx
    }

    // A call to the backing allocator.
    method Ask(op: Op, context: nat)
      modifies this`calls
      ensures calls == old(calls) + [Call(op, context)]
      ensures Directed() <==> old(Directed()) && context == ctx
    {
      calls := calls + [Call(op, context)];
      assert calls[|calls| - 1].context == context;
      assert forall i :: 0 <= i < |old(calls)| ==> calls[i] == old(calls)[i];
    }

    // memory_create
    constructor (r: bool, context: nat, interface: nat)
      ensures Valid() && heap == map[]
        && resizes == r && ctx == context && face == interface && calls == [] && fresh(meminfs)
    {
      resizes, ctx, face, calls := r, context, interface, [];
      memsize, imeminf, heap := 0, 0, map[];
      meminfs := new Inf[0];
    }

    // _search_meminf
    method Search(p: Ptr) returns (k: nat)
      requires Valid()
      ensures k < imeminf <==> p in heap
      ensures k < imeminf ==> meminfs[k].ptr == p
    {
      k := 0;
      while k < imeminf
        invariant k <= imeminf && forall j :: 0 <= j < k ==> meminfs[j].ptr != p
      {
        if meminfs[k].ptr == p {
          assert Table()[k].ptr in heap;
          return;
        }
        k := k + 1;
      }
    }

    // _expand_meminf; room says whether the backing allocator can give the larger
    // table.
    method Expand(room: bool) returns (ok: bool)
      requires Valid()
      modifies this`meminfs, this`calls
      ensures Directed() == old(Directed())
      ensures Valid() && Table() == old(Table()) && (meminfs == old(meminfs) || fresh(meminfs))
      ensures ok == (room || old(imeminf < meminfs.Length)) && (ok ==> imeminf < meminfs.Length)
    {
      var n := meminfs.Length;
      if imeminf == n {
        Ask(if resizes then Resize else Get, ctx);
        if !room {
          return false;
        }
        var data := new Inf[2 * n + 1](_ => Inf(0, 0));
        var i := 0;
        while i < n
          invariant meminfs == old(meminfs) && Directed() == old(Directed()) && 0 <= i <= n && data[..i] == meminfs[..i]
        {
          data[i] := meminfs[i];
          i := i + 1;
        }
        assert data[..n] == meminfs[..n] == Table();
        if !resizes {
          Ask(Free, ctx);
        }
        meminfs := data;
      }
      return true;
    }

    // _insert_meminf, for the block got at p
    method Insert(p: Ptr, block: seq<int>, room: bool) returns (ok: bool)
      requires Valid() && p !in heap
      modifies this`meminfs, this`imeminf, this`memsize, this`heap, this`calls, meminfs
      ensures Directed() == old(Directed())
      ensures Valid() && ok == (room || old(imeminf < meminfs.Length))
      ensures heap == if ok then old(heap)[p := block] else old(heap)
      ensures ok ==> Table() == old(Table()) + [Inf(p, |block|)]
      ensures meminfs == old(meminfs) || fresh(meminfs)
    {
      hide Sum, Lists, Directed;
      ghost var t := Table();
      ok := Expand(room);
      if ok {
        meminfs[imeminf] := Inf(p, |block|);
        imeminf := imeminf + 1;
        memsize := memsize + |block|;
        heap := heap[p := block];
        SumPushed(t, Inf(p, |block|));
        ListsPushed(t, old(heap), p, block);
        assert Table() == t + [Inf(p, |block|)];
      }
    }

    // _delete_meminf
    method Delete(k: nat)
      requires Valid() && k < imeminf
      modifies this`imeminf, this`memsize, this`heap, meminfs
      ensures Valid() && heap == old(heap) - {old(meminfs[k].ptr)}
    {
      hide Lists, Sum;
      ghost var t := Table();
      SumAround(t, k);
      ListsRemoved(t, heap, k);
      heap := heap - {meminfs[k].ptr};
      memsize := memsize - meminfs[k].size;
      imeminf := imeminf - 1;
      Shift(k);
      assert Table() == t[..k] + t[k + 1..];
    }

    // memmove
    method Shift(k: nat)
      requires k <= imeminf < meminfs.Length
      modifies meminfs
      ensures meminfs[..imeminf] == old(meminfs[..k]) + old(meminfs[..])[k + 1..imeminf + 1]
    {
      hide *;
      var i := k;
      while i < imeminf
        invariant k <= i <= imeminf
        invariant forall j :: 0 <= j < k ==> meminfs[j] == old(meminfs[j])
        invariant forall j :: k <= j < i ==> meminfs[j] == old(meminfs[j + 1])
        invariant forall j :: i < j <= imeminf ==> meminfs[j] == old(meminfs[j])
      {
        meminfs[i] := meminfs[i + 1];
        i := i + 1;
      }
      ghost var t := old(meminfs[..]);
      Closed(meminfs[..imeminf], t, k, imeminf);
    }

    // _update_meminf: the block of entry k is now block, at q
    method Update(k: nat, q: Ptr, block: seq<int>)
      requires Valid() && k < imeminf && (q == meminfs[k].ptr || q !in heap)
      modifies this`memsize, this`heap, meminfs
      ensures Valid() && heap == (old(heap) - {old(meminfs[k].ptr)})[q := block]
    {
      ghost var t := Table();
      SumChanged(t, k, Inf(q, |block|));
      ListsMoved(t, heap, k, q, block);
      memsize := memsize + |block| - meminfs[k].size;
      heap := (heap - {meminfs[k].ptr})[q := block];
      meminfs[k] := Inf(q, |block|);
      assert Table() == t[k := Inf(q, |block|)];
    }

    // memory_alloc; got is what the backing allocator gives, with block in it.
    method Alloc(size: nat, got: Option<Ptr>, block: seq<int>, room: bool) returns (r: Option<Ptr>)
      requires Valid() && |block| == size && (got.Some? ==> got.value !in heap)
      modifies this`meminfs, this`imeminf, this`memsize, this`heap, this`calls, meminfs
      ensures Valid() && (meminfs == old(meminfs) || fresh(meminfs)) && Directed() == old(Directed())
      ensures r == if room || old(imeminf < meminfs.Length) then got else None
      ensures heap == if r.Some? then old(heap)[r.value := block] else old(heap)
    {
      Ask(Get, ctx);
      r := got;
      if r.Some? {
        var ok := Insert(r.value, block, room);
        if !ok {
          Ask(Free, ctx);
          r := None;
        }
      }
    }

    // memory_dealloc; a pointer that is not in the table aborts.  The last call
    // passes the interface where the others pass its context.
    method Dealloc(p: Option<Ptr>) returns (ok: bool)
      requires Valid()
      modifies this`imeminf, this`memsize, this`heap, this`calls, meminfs
      ensures calls == if ok then old(calls) + [Call(Free, face)] else old(calls)
      ensures ok ==> (Directed() <==> old(Directed()) && face == ctx)
      ensures Valid() && (ok <==> p.None? || p.value in old(heap))
      ensures heap == if ok && p.Some? then old(heap) - {p.value} else old(heap)
    {
      if p.Some? {
        var k := Search(p.value);
        if k >= imeminf {
          return false;
        }
        Delete(k);
      }
      Ask(Free, face);
      return true;
    }

    // The table can take one more entry.
    predicate Roomy(room: bool)
      reads this`imeminf, this`meminfs
    {
      room || imeminf < meminfs.Length
    }

    // A reallocation by copying that does move the block.
    predicate Moves(oldsize: nat, size: nat, got: Option<Ptr>, room: bool)
      reads this`imeminf, this`meminfs
    {
      !Refits(oldsize, size) && got.Some? && Roomy(room)
    }

    // A reallocation that resizes or frees the old block, and so passes the
    // interface for a context: by what is known before the call.
    predicate Misdirects(p: Option<Ptr>, size: nat, got: Option<Ptr>, room: bool)
      reads this`imeminf, this`meminfs, this`heap
    {
      p.Some? && p.value in heap && (resizes || Moves(|heap[p.value]|, size, got, room))
    }

    // The pointer a reallocation gives: by what is known before the call.
    function Answer(p: Option<Ptr>, size: nat, got: Option<Ptr>, room: bool): Option<Ptr>
      reads this`imeminf, this`meminfs, this`heap
    {
      if p.Some? && p.value !in heap then None
      else if p.Some? && resizes then got
      else if p.Some? && Refits(|heap[p.value]|, size) then p
      else if Roomy(room) then got
      else None
    }

    // memory_realloc.  got is what the backing allocator gives, junk what a fresh
    // block holds; a pointer that is not in the table aborts.
    method Realloc(p: Option<Ptr>, size: nat, got: Option<Ptr>, junk: seq<int>, room: bool)
      returns (r: Option<Ptr>, ok: bool)
      requires Valid() && |junk| == size
      requires got.Some? ==> got.value !in heap || (resizes && p == got)
      modifies this`meminfs, this`imeminf, this`memsize, this`heap, this`calls, meminfs
      ensures Valid() && (ok <==> p.None? || p.value in old(heap))
      ensures !ok ==> heap == old(heap)
      ensures r == old(Answer(p, size, got, room))
      ensures ok && !resizes && p.Some? && Refits(|old(heap)[p.value]|, size) ==> heap == old(heap)
      ensures ok && p.None? ==> heap == if r.Some? then old(heap)[r.value := junk] else old(heap)
      ensures ok && p.Some? ==> Realloced(old(heap), heap, p.value, r, size, resizes)
      ensures Directed() <==> old(Directed()) && (face == ctx || !old(Misdirects(p, size, got, room)))
    {
      ok := true;
      if p.None? {
        r := Alloc(size, got, junk, room);
        return;
      }
      var k := Search(p.value);
      if k >= imeminf {
        return None, false;
      }
      if resizes {
        r := ReallocByBacking(k, size, got, junk);
      } else {
        r := ReallocByCopy(k, size, got, junk, room);
      }
    }

    method ReallocByBacking(k: nat, size: nat, got: Option<Ptr>, junk: seq<int>) returns (r: Option<Ptr>)
      requires Valid() && |junk| == size && k < imeminf && resizes
      requires got.Some? ==> got.value !in heap || got.value == meminfs[k].ptr
      modifies this`imeminf, this`memsize, this`heap, this`calls, meminfs
      ensures calls == old(calls) + [Call(Resize, face)] && (Directed() <==> old(Directed()) && face == ctx)
      ensures Valid() && old(meminfs[k].ptr) in old(heap)
      ensures Realloced(old(heap), heap, old(meminfs[k].ptr), r, size, resizes) && r == got
    {
      hide Sum;
      assert Table()[k].ptr in heap;
      Ask(Resize, face);
      var before := heap[meminfs[k].ptr];
      r := got;
      if r.None? {
        if size == 0 {
          Delete(k);
        }
      } else {
        Update(k, r.value, Resized(before, junk, size));
      }
    }

    method ReallocByCopy(k: nat, size: nat, got: Option<Ptr>, junk: seq<int>, room: bool) returns (r: Option<Ptr>)
      requires Valid() && |junk| == size && k < imeminf && !resizes
      requires got.Some? ==> got.value !in heap
      modifies this`meminfs, this`imeminf, this`memsize, this`heap, this`calls, meminfs
      ensures Valid() && old(meminfs[k].ptr) in old(heap)
      ensures Realloced(old(heap), heap, old(meminfs[k].ptr), r, size, resizes)
      ensures Directed() <==> old(Directed()) && (face == ctx || !old(Moves(meminfs[k].size, size, got, room)))
      ensures r == if Refits(old(meminfs[k].size), size) then Some(old(meminfs[k].ptr))
                   else if old(Roomy(room)) then got else None
      ensures Refits(old(meminfs[k].size), size) ==> heap == old(heap)
    {
      hide Sum, Directed;
      assert Table()[k].ptr in heap && |heap[Table()[k].ptr]| == Table()[k].size;
      var p, oldsize := meminfs[k].ptr, meminfs[k].size;
      var before := heap[p];
      if !Refits(oldsize, size) {
        r := Alloc(size, got, junk, room);
        if r.Some? {
          Transfer(p, r.value, if oldsize < size then oldsize else size);
          assert Keeps(before, heap[r.value], size);
        }
      } else {
        Update(k, p, before);
        r := Some(p);
      }
    }

    // The first n bytes of p's block go to q's, and p's block goes back.
    method Transfer(p: Ptr, q: Ptr, n: nat)
      requires Valid() && p in heap && q in heap && p != q && n <= |heap[p]| && n <= |heap[q]|
      modifies this`imeminf, this`memsize, this`heap, this`calls, meminfs
      ensures Valid() && heap == old(heap)[q := old(heap)[p][..n] + old(heap)[q][n..]] - {p}
      ensures Directed() <==> old(Directed()) && face == ctx
    {
      Copy(q, heap[p], n);
      var _ := Dealloc(Some(p));
    }

    // memcpy of the first n bytes
    method Copy(p: Ptr, before: seq<int>, n: nat)
      requires Valid() && p in heap && n <= |before| && n <= |heap[p]|
      modifies this`heap
      ensures Valid() && heap == old(heap)[p := before[..n] + old(heap)[p][n..]]
    {
      heap := heap[p := before[..n] + heap[p][n..]];
      assert forall q :: q in heap <==> q in old(heap);
    }

    // memory_delete: every block still held is given back, once.
    method DeleteAll() returns (given: seq<Ptr>)
      requires Valid()
      modifies this
      ensures Valid() && heap == map[] && memsize == 0
      ensures multiset(given) == multiset(old(heap).Keys) && Directed() == old(Directed())
    {
      given := [];
      var i := 0;
      ghost var t := Table();
      while i < imeminf
        invariant 0 <= i <= imeminf == |t| && |given| == i && forall j :: 0 <= j < i ==> given[j] == t[j].ptr
        invariant imeminf <= meminfs.Length && Table() == t && heap == old(heap) && Directed() == old(Directed())
      {
        Ask(Free, ctx);
        given := given + [meminfs[i].ptr];
        i := i + 1;
      }
      Ask(Free, ctx);
      GivenOnce(t, heap, given);
      memsize, imeminf, heap := 0, 0, map[];
      meminfs := new Inf[0];
    }
  }

  // One block allocated and freed, and one allocated and resized by the backing
  // allocator: both times it is called with the interface for its context.
  method FreedUnderInterface() returns (m: Memory)
    ensures m.ctx == 1 && m.face == 2 && !m.Directed()
  {
    m := new Memory(false, 1, 2);
    var p := m.Alloc(0, Some(10), [], true);
    var _ := m.Dealloc(p);
  }

  method ResizedUnderInterface() returns (m: Memory)
    ensures m.ctx == 1 && m.face == 2 && !m.Directed()
  {
    m := new Memory(true, 1, 2);
    var p := m.Alloc(0, Some(10), [], true);
    var _, _ := m.Realloc(p, 1, p, [0], true);
  }

  // What the backing realloc leaves in the block.
  function Resized(before: seq<int>, junk: seq<int>, size: nat): (r: seq<int>)
    requires |junk| == size
    ensures |r| == size && Keeps(before, r, size)
  {
    if |before| < size then before + junk[|before|..] else before[..size]
  }

  lemma GivenOnce(t: seq<Inf>, heap: map<Ptr, seq<int>>, given: seq<Ptr>)
    requires Lists(t, heap) && |given| == |t| && forall j :: 0 <= j < |t| ==> given[j] == t[j].ptr
    ensures multiset(given) == multiset(heap.Keys)
  {
    DistinctOnce(given);
    forall p ensures multiset(given)[p] == multiset(heap.Keys)[p] {
      assert p in heap <==> p in given;
    }
  }

  lemma {:induction false} DistinctOnce(s: seq<Ptr>)
    requires forall i, j :: 0 <= i < j < |s| ==> s[i] != s[j]
    ensures forall p :: multiset(s)[p] == if p in s then 1 else 0
  {
    if s != [] {
      DistinctOnce(s[1..]);
      assert s == [s[0]] + s[1..];
    }
  }
}
