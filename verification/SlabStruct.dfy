// struct slab in memory (base/slab.c): a bump pointer, a chain of chunks and the
// freed slots linked through their first words, changed in place.
module SlabStruct {
  import opened Options
  import opened Slab

  // The first word of a slot: the function a live slab starts with, the link of
  // a freed slot, or anything else its owner keeps there.
  datatype Word = DeallocFn | Link(next: Option<Ptr>) | Other(bits: nat)

  function Head(shape: Shape, list: seq<Slot>): Option<Ptr> {
    if list == [] then None else Some(PtrOf(shape, list[0]))
  }

  // frees leads through the first words of exactly the slots of list, in order.
  ghost predicate Threaded(shape: Shape, list: seq<Slot>, frees: Option<Ptr>, words: map<Ptr, Word>) {
    && frees == Head(shape, list)
    && forall i :: 0 <= i < |list| ==>
         PtrOf(shape, list[i]) in words && words[PtrOf(shape, list[i])] == Link(Head(shape, list[i + 1..]))
  }

  lemma ThreadedPop(shape: Shape, list: seq<Slot>, frees: Option<Ptr>, words: map<Ptr, Word>)
    requires list != [] && Threaded(shape, list, frees, words)
    ensures frees == Some(PtrOf(shape, list[0])) && frees.value in words && words[frees.value].Link?
    ensures Threaded(shape, list[1..], words[frees.value].next, words)
  {
    forall i | 0 <= i < |list| - 1 ensures list[1..][i + 1..] == list[i + 2..] && list[1..][i] == list[i + 1] {
    }
  }

  lemma ThreadedPush(shape: Shape, list: seq<Slot>, frees: Option<Ptr>, words: map<Ptr, Word>, s: Slot)
    requires shape.isize > 0 && s !in list && Threaded(shape, list, frees, words)
    ensures Threaded(shape, [s] + list, Some(PtrOf(shape, s)), words[PtrOf(shape, s) := Link(frees)])
  {
    var words' := words[PtrOf(shape, s) := Link(frees)];
    forall i | 0 <= i < |list| + 1
      ensures PtrOf(shape, ([s] + list)[i]) in words'
        && words'[PtrOf(shape, ([s] + list)[i])] == Link(Head(shape, ([s] + list)[i + 1..]))
    {
      if i == 0 {
        assert ([s] + list)[1..] == list;
      } else {
        assert ([s] + list)[i + 1..] == list[i..] && list[i - 1] in list;
        if PtrOf(shape, list[i - 1]) == PtrOf(shape, s) {
          PtrInjective(shape, list[i - 1], s);
        }
      }
    }
  }

  // The owner of a slot that is not on the list may write its first word.
  lemma ThreadedWrite(shape: Shape, list: seq<Slot>, frees: Option<Ptr>, words: map<Ptr, Word>, s: Slot, w: Word)
    requires shape.isize > 0 && s !in list && Threaded(shape, list, frees, words)
    ensures Threaded(shape, list, frees, words[PtrOf(shape, s) := w])
  {
    forall i | 0 <= i < |list| ensures PtrOf(shape, list[i]) != PtrOf(shape, s) {
      assert list[i] in list;
      if PtrOf(shape, list[i]) == PtrOf(shape, s) {
        PtrInjective(shape, list[i], s);
      }
    }
  }

  // allocpos and sentinel of a slab.
  ghost predicate Bumping(st: State, allocpos: nat, sentinel: nat) {
    var h := Newest(st.chunks);
    allocpos == Begin(h) + st.pos * st.shape.isize && sentinel == Begin(h) + Capacity(st.shape, h) * st.shape.isize
  }

  // allocpos never steps over the sentinel, and meets it when the chunk is used up.
  lemma BumpMeetsSentinel(st: State, allocpos: nat, sentinel: nat)
    requires Inv(st) && Bumping(st, allocpos, sentinel)
    ensures allocpos <= sentinel
    ensures allocpos == sentinel <==> st.pos == Capacity(st.shape, Newest(st.chunks))
  {
    var c := Capacity(st.shape, Newest(st.chunks));
    Multiple(st.shape.isize, st.pos, c);
    if st.pos < c {
      Multiple(st.shape.isize, st.pos + 1, c);
      OneMore(st.shape.isize, st.pos);
    }
  }

  lemma FreesEmpty(st: State, frees: Option<Ptr>, words: map<Ptr, Word>)
    requires Threaded(st.shape, st.list, frees, words)
    ensures frees == None <==> st.list == []
  {
  }

  lemma BumpingSame(st: State, st': State, allocpos: nat, sentinel: nat)
    requires Bumping(st, allocpos, sentinel)
    requires st'.chunks == st.chunks && st'.pos == st.pos && st'.shape == st.shape
    ensures Bumping(st', allocpos, sentinel)
  {
  }

  lemma Bumped(st: State, chunk: Chunk, allocpos: nat, sentinel: nat)
    requires Inv(st) && Bumping(st, allocpos, sentinel) && st.list == []
    ensures var (st', s) := Alloc(st, chunk);
      var at := if allocpos == sentinel then NEXT else allocpos;
      var end := if allocpos == sentinel then NEXT + st.shape.nitem * st.shape.isize else sentinel;
      Bumping(st', at + st.shape.isize, end) && PtrOf(st.shape, s) == Ptr(Newest(st'.chunks), at)
  {
    BumpMeetsSentinel(st, allocpos, sentinel);
    OneMore(st.shape.isize, st.pos);
  }

  class SlabObject {
    const isize: nat
    const chunksize: nat
    var allocnum: int
    var allocpos: nat            // in the newest chunk
    var sentinel: nat
    var frees: Option<Ptr>
    var ahead: seq<Chunk>        // the chain of chunks, newest first
    var words: map<Ptr, Word>    // first words of the slots
    ghost const nitem: nat
    ghost var view: State

    ghost predicate Valid()
      reads this
    {
      && Inv(view) && view.shape.isize == isize && view.shape.nitem == nitem
      && chunksize == NEXT + nitem * isize
      && ahead == view.chunks && allocnum == |view.live|
      && Bumping(view, allocpos, sentinel)
      && Threaded(view.shape, view.list, frees, words)
    }

    // slab_create
    constructor (n: nat, size: nat)
      requires n > 0 && size > 0
      ensures Valid() && view == Create(size, n, n)
    {
      isize, chunksize, nitem := size, n * size + NEXT, n;
      allocnum, allocpos, sentinel, frees, ahead, words := 0, HEADER, HEADER + n * size, None, [], map[];
      view := Create(size, n, n);
      CreateInv(size, n, n);
    }

    // slab_idle
    predicate Idle()
      requires Valid()
      reads this
      ensures Idle() <==> view.live == {}
    {
      allocnum == 0
    }

    // slab_alloc
    method Alloc(chunk: Chunk) returns (p: Ptr)
      requires Valid() && chunk !in ahead
      modifies this`allocnum, this`allocpos, this`sentinel, this`frees, this`ahead, this`view
      ensures Valid() && view == Slab.Alloc(old(view), chunk).0
      ensures p == PtrOf(view.shape, Slab.Alloc(old(view), chunk).1)
    {
      hide Inv, Threaded, Bumping, PtrOf;
      AllocInv(view, chunk);
      ghost var view' := Slab.Alloc(view, chunk).0;
      FreesEmpty(view, frees, words);
      if frees != None {
        p := frees.value;
        ThreadedPop(view.shape, view.list, frees, words);
        BumpingSame(view, view', allocpos, sentinel);
        frees := words[p].next;
        allocnum := allocnum + 1;
        view := view';
        return;
      }
      BumpMeetsSentinel(view, allocpos, sentinel);
      Bumped(view, chunk, allocpos, sentinel);
      if allocpos == sentinel {
        ahead := [chunk] + ahead;
        allocpos := NEXT;
        sentinel := chunksize;
      }
      p := Ptr(Newest(ahead), allocpos);
      allocpos := allocpos + isize;
      allocnum := allocnum + 1;
      view := view';
    }

    // slab_dealloc
    method Dealloc(p: Ptr, ghost s: Slot)
      requires Valid() && s in view.live && p == PtrOf(view.shape, s)
      modifies this`allocnum, this`frees, this`words, this`view
      ensures Valid() && view == Slab.Dealloc(old(view), s)
      ensures words == old(words)[p := Link(old(frees))]
    {
      DeallocInv(view, s);
      ThreadedPush(view.shape, view.list, frees, words, s);
      words := words[p := Link(frees)];
      frees := Some(p);
      allocnum := allocnum - 1;
      view := Slab.Dealloc(view, s);
    }

    // A slot's owner writes its first word.
    method Write(p: Ptr, w: Word, ghost s: Slot)
      requires Valid() && s in view.live && p == PtrOf(view.shape, s)
      modifies this`words
      ensures Valid() && words == old(words)[p := w]
    {
      ThreadedWrite(view.shape, view.list, frees, words, s, w);
      words := words[p := w];
    }

    // slab_fini: what is given back to the backing allocator, in order.
    method Fini() returns (given: seq<Chunk>)
      requires Valid()
      ensures given == view.chunks && NoDup(given)
    {
      given := [];
      var i := 0;
      while i < |ahead|
        invariant 0 <= i <= |ahead| && given == ahead[..i]
      {
        given := given + [ahead[i]];
        i := i + 1;
      }
    }
  }
}
