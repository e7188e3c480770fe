// struct sprite's display list: objects linked through above, changed in place
// (core/sprite.c), each operation proved against the functions on values and on
// objects.
module DisplayList {
  import opened Timeline
  import opened Seek
  import opened Commands
  import opened DisplayMerge

  class SpriteObject {
    const frames: seq<Frame>      // the stream, one command list a frame
    var display: Object?
    var children: seq<Object>     // direct child sprites, newest first
    var cframe: int
    var tagpos: nat
    var stopped: bool
    var fastforwarding: bool
    var freed: seq<Object>        // objects given back to their slab, in order
    ghost var rewound: bool
    ghost var nodes: seq<Object>  // the display list
    ghost var view: seq<Ob>       // what its objects hold
    ghost var made: seq<Object>   // every object ever made, in order

    ghost predicate Linked()
      reads this`display, this`nodes, this`view, nodes`above, nodes`data
    {
      Chain(display, nodes, view)
    }

    // The children chain holds exactly the sprites among the live objects.
    ghost predicate Owned(live: set<Object>)
      reads this`children, live`data
    {
      && Distinct(children)
      && (forall o :: o in children ==> o in live && o.data.kind == Sprite)
      && (forall o :: o in live && o.data.kind == Sprite ==> o in children)
    }

    // Every object ever made is on the list, in rest or given back, once.
    ghost predicate Accounted(rest: set<Object>)
      reads this`nodes, this`freed, this`made
    {
      Distinct(made) && multiset(nodes) + multiset(rest) + multiset(freed) == multiset(made)
    }

    // rest are objects off the list that the sprite still owns.
    ghost predicate Valid(rest: set<Object>)
      reads this`display, this`nodes, this`view, this`children, this`freed, this`made, nodes`above, nodes`data,
            rest`data
    {
      Linked() && Elems(nodes) !! rest && Owned(Elems(nodes) + rest) && Sorted(view) && Accounted(rest)
    }

    // The objects at dynamic depths, in order, and what they hold.
    ghost function Dynamics(): (seq<Object>, seq<Ob>)
      reads this`nodes, this`view
    {
      (DynamicNodes(nodes, view), DynamicPart(view))
    }

    ghost function View(): State
      reads this`view, this`cframe, this`tagpos, this`stopped, this`rewound
    {
      State(view, cframe, tagpos, stopped, rewound)
    }

    // s is the list now on the display.
    ghost method Adopt(s: seq<Object>, d: seq<Ob>)
      requires Chain(display, s, d)
      modifies this`nodes, this`view
      ensures Linked() && nodes == s && view == d
    {
      nodes, view := s, d;
    }

    // The walk all three list operations start with.
    method Seek(depth: nat) returns (prev: Object?, ob: Object?, ghost k: nat)
      requires Linked()
      ensures k <= |nodes| && (forall i :: 0 <= i < k ==> view[i].depth < depth)
      ensures k < |nodes| ==> view[k].depth >= depth
      ensures ob == if k < |nodes| then nodes[k] else null
      ensures prev == if k == 0 then null else nodes[k - 1]
    {
      prev, ob, k := null, display, 0;
      while ob != null && ob.data.depth < depth
        invariant k <= |nodes| && (forall i :: 0 <= i < k ==> view[i].depth < depth)
        invariant ob == if k < |nodes| then nodes[k] else null
        invariant prev == if k == 0 then null else nodes[k - 1]
        decreases |nodes| - k
      {
        prev, ob, k := ob, ob.above, k + 1;
      }
    }

    // Assign through the cursor: the link of prev, or the head of the list.
    method SetLink(prev: Object?, o: Object?)
      modifies this`display, Cursor(prev)`above
      ensures prev == null ==> display == o
      ensures prev != null ==> prev.above == o && display == old(display)
    {
      if prev == null {
        display := o;
      } else {
        prev.above := o;
      }
    }

    // Link o between the segments a and b.
    method LinkIn(prev: Object?, o: Object, ghost a: seq<Object>, ghost b: seq<Object>, ghost da: seq<Ob>,
                  ghost db: seq<Ob>)
      requires display == First(a, First(b, null)) && prev == Last(a)
      requires Seg(a, First(b, null)) && Seg(b, null) && o.above == First(b, null)
      requires Distinct(a + b) && o !in a && o !in b && Holds(a, da) && Holds(b, db)
      modifies this`display, a`above
      ensures Chain(display, a + [o] + b, da + [o.data] + db)
    {
      DistinctParts(a, b);
      SetLink(prev, o);
      assert Seg(a, o);
      Inserted(a, o, b, da, db);
    }

    // Close the list over what was between the segments a and b.
    method LinkOut(prev: Object?, next: Object?, ghost o: Object?, ghost a: seq<Object>, ghost b: seq<Object>,
                   ghost da: seq<Ob>, ghost db: seq<Ob>)
      requires prev == Last(a) && next == First(b, null) && (a != [] ==> display == a[0])
      requires Seg(a, o) && Seg(b, null)
      requires Distinct(a + b) && Holds(a, da) && Holds(b, db)
      modifies this`display, a`above
      ensures Chain(display, a + b, da + db)
    {
      DistinctParts(a, b);
      SetLink(prev, next);
      assert Seg(a, First(b, null));
      Joined(a, b, da, db);
    }

    // sprite_mount_object
    method MountObject(o: Object) returns (ghost k: nat)
      requires Linked() && o !in nodes
      modifies this`display, this`nodes, this`view, nodes`above, o`above
      ensures Linked()
      ensures k <= |old(nodes)| && nodes == old(nodes)[..k] + [o] + old(nodes)[k..]
      ensures view == Mount(old(view), o.data)
      ensures OnTimeline(o.data) ==> Dynamics() == old(Dynamics())
    {
      var prev, ob;
      prev, ob, k := Seek(o.data.depth);
      MountAt(view, o.data, k);
      if OnTimeline(o.data) {
        MountedDynamics(nodes, view, k, o, o.data);
      }
      InsertAt(prev, o, ob, k);
    }

    method InsertAt(prev: Object?, o: Object, ob: Object?, ghost k: nat)
      requires Linked() && o !in nodes && k <= |nodes|
      requires ob == (if k < |nodes| then nodes[k] else null) && prev == if k == 0 then null else nodes[k - 1]
      modifies this`display, this`nodes, this`view, nodes`above, o`above
      ensures Linked()
      ensures nodes == old(nodes)[..k] + [o] + old(nodes)[k..]
      ensures view == old(view)[..k] + [o.data] + old(view)[k..]
    {
      hide Distinct, Seg;
      ghost var a, b, da, db := nodes[..k], nodes[k..], view[..k], view[k..];
      Cut(nodes, view, k, null);
      assert nodes == a + b;
      o.above := ob;
      LinkIn(prev, o, a, b, da, db);
      Adopt(a + [o] + b, da + [o.data] + db);
    }

    // sprite_umount_object
    method UmountObject(depth: nat) returns (r: Object?, ghost k: nat)
      requires Linked()
      modifies this`display, this`nodes, this`view, nodes`above
      ensures Linked()
      ensures r == null ==> nodes == old(nodes)
      ensures r != null ==> k < |old(nodes)| && old(nodes)[k] == r && nodes == old(nodes)[..k] + old(nodes)[k + 1..]
      ensures r != null ==> r.data == old(r.data) && r.data.depth == depth && r !in nodes
      ensures view == Umount(old(view), depth)
      ensures depth < TIMELINE_DEPTHS ==> Dynamics() == old(Dynamics())
    {
      var prev, ob;
      prev, ob, k := Seek(depth);
      UmountAt(view, depth, k);
      if ob == null || ob.data.depth != depth {
        return null, k;
      }
      if depth < TIMELINE_DEPTHS {
        UmountedDynamics(nodes, view, k);
      }
      UnlinkAt(prev, ob, k);
      return ob, k;
    }

    method UnlinkAt(prev: Object?, ob: Object, ghost k: nat)
      requires Linked() && k < |nodes| && ob == nodes[k] && prev == if k == 0 then null else nodes[k - 1]
      modifies this`display, this`nodes, this`view, nodes`above
      ensures Linked() && ob !in nodes
      ensures nodes == old(nodes)[..k] + old(nodes)[k + 1..]
      ensures view == old(view)[..k] + old(view)[k + 1..]
    {
      ghost var a, b, da, db := nodes[..k], nodes[k + 1..], view[..k], view[k + 1..];
      Cut(nodes, view, k, null);
      Cut(nodes, view, k + 1, null);
      WithoutOne(nodes, k);
      LinkOut(prev, ob.above, ob, a, b, da, db);
      Adopt(a + b, da + db);
    }

    // sprite_change_object
    method ChangeObject(pi: Place)
      requires Linked()
      modifies this`view, nodes`data
      ensures Linked()
      ensures view == Change(old(view), pi)
      ensures |view| == |old(view)| && forall i :: 0 <= i < |view| ==> view[i].kind == old(view)[i].kind
      ensures old(Sorted(view)) ==> forall i :: 0 <= i < |view| ==>
                if view[i].depth == pi.depth then MovedBy(old(view)[i], pi, view[i]) else view[i] == old(view)[i]
      ensures pi.depth < TIMELINE_DEPTHS ==> Dynamics() == old(Dynamics())
    {
      hide DynamicNodes, DynamicPart, Change, MovedBy;
      var prev, ob, k := Seek(pi.depth);
      if Sorted(view) {
        ChangeMoves(view, pi);
      }
      ChangeAt(view, pi, k);
      SameKind(pi);
      if ob != null && ob.data.depth == pi.depth {
        if pi.depth < TIMELINE_DEPTHS {
          ChangedDynamics(nodes, view, k, ChangePlace(view[k], pi));
        }
        ChangeAtPlace(pi, ob, k);
      }
    }

    lemma SameKind(pi: Place)
      ensures forall o :: ChangePlace(o, pi).kind == o.kind && ChangePlace(o, pi).depth == o.depth
    {
    }

    method ChangeAtPlace(pi: Place, ob: Object, ghost k: nat)
      requires Linked() && k < |nodes| && nodes[k] == ob && |nodes| == |view| && view[k] == ob.data
      modifies this`view, ob`data
      ensures Linked() && view == old(view)[k := ChangePlace(old(view)[k], pi)]
    {
      hide ChangePlace;
      ob.data := ChangePlace(ob.data, pi);
      view := view[k := ob.data];
      assert Seg(nodes, null);
    }

    // sprite_add_child and sprite_del_child
    method AddChild(o: Object)
      modifies this`children
      ensures children == [o] + old(children)
    {
      children := [o] + children;
    }

    method DelChild(o: Object)
      requires o in children && Distinct(children)
      modifies this`children
      ensures Distinct(children) && forall x :: x in children <==> x in old(children) && x != o
    {
      var i := 0;
      while i < |children| && children[i] != o
        invariant i <= |children| && forall j :: 0 <= j < i ==> children[j] != o
      {
        i := i + 1;
      }
      WithoutOne(children, i);
      assert children == children[..i] + [children[i]] + children[i + 1..];
      children := children[..i] + children[i + 1..];
    }

    // sprite_delete_object
    method DeleteObject(o: Object, ghost live: set<Object>)
      requires Owned(live) && o in live
      modifies this`children, this`freed
      ensures Owned(live - {o}) && freed == old(freed) + [o]
    {
      if o.data.kind == Sprite {
        DelChild(o);
      }
      freed := freed + [o];
    }

    // ---- sprite_merge_old ---------------------------------------------------

    // The cursor stands behind what is merged, the rest of the new list follows
    // it, and the rest of the old list is linked on its own.
    ghost predicate Spine(m: MergeState, prev: Object?, ob: Object?, old_: Object?)
      reads this`display, m.done`above, m.news`above, m.olds`above
    {
      && display == First(m.done, ob) && prev == Last(m.done)
      && ob == First(m.news, null) && old_ == First(m.olds, null)
      && Seg(m.done, ob) && Seg(m.news, null) && Seg(m.olds, null)
    }

    ghost predicate MergeData(m: MergeState)
      reads m.done`data, m.news`data, m.olds`data
    {
      Holds(m.done, m.d) && Holds(m.news, m.n) && Holds(m.olds, m.o)
    }

    ghost predicate Merging(m: MergeState, prev: Object?, ob: Object?, old_: Object?)
      reads this, m.done, m.news, m.olds
    {
      m.Separate() && Spine(m, prev, ob, old_) && MergeData(m) && Owned(m.Objects()) && freed == m.gone
    }

    lemma Heads(m: MergeState, prev: Object?, ob: Object?, old_: Object?)
      requires Merging(m, prev, ob, old_)
      ensures |m.n| == |m.news| && |m.o| == |m.olds| && m.Matched()
      ensures if ob == null then m.news == [] else m.news != [] && ob == m.news[0] && ob.data == m.n[0]
      ensures if old_ == null then m.olds == [] else m.olds != [] && old_ == m.olds[0] && old_.data == m.o[0]
    {
    }

    method StepDropOld(ghost m: MergeState, prev: Object?, ob: Object?, old_: Object) returns (next: Object?)
      requires Merging(m, prev, ob, old_) && m.olds != [] && m.o != []
      modifies this`children, this`freed
      ensures m.DropOld().Objects() <= m.Objects()
      ensures Merging(m.DropOld(), prev, ob, next)
    {
      Cut(m.olds, m.o, 1, null);
      DropOldParts(m);
      next := old_.above;
      DeleteObject(old_, m.Objects());
    }

    lemma StepKeepNew(m: MergeState, prev: Object?, ob: Object, old_: Object?)
      requires Merging(m, prev, ob, old_) && m.news != [] && m.n != []
      ensures m.KeepNew().Objects() <= m.Objects()
      ensures Merging(m.KeepNew(), ob, ob.above, old_)
    {
      hide MergeState.Separate, MergeState.Objects, Owned;
      Cut(m.news, m.n, 1, null);
      KeepNewParts(m);
      SegConcat(m.done, [ob], ob.above);
    }

    // Link o behind the merged part and in front of the rest of the new list.
    method LinkOld(prev: Object?, ob: Object?, o: Object, ghost tail: Object?,
                   ghost done: seq<Object>, ghost news: seq<Object>, ghost more: seq<Object>)
      requires display == First(done, tail) && prev == Last(done)
      requires Seg(done, tail) && Seg(news, null) && Seg(more, null)
      requires Apart(done, news) && Apart(done, more) && Distinct(done)
      requires o !in done && o !in news && o !in more
      modifies this`display, done`above, o`above
      ensures display == First(done + [o], ob) && Seg(done + [o], ob)
      ensures Seg(news, null) && Seg(more, null)
    {
      o.above := ob;
      SetLink(prev, o);
      assert Seg(done, o);
      SegConcat(done, [o], ob);
    }

    // The old object goes in front of the new one.
    method StepKeepOld(ghost m: MergeState, prev: Object?, ob: Object?, old_: Object) returns (next: Object?)
      requires Merging(m, prev, ob, old_) && m.olds != [] && m.o != []
      modifies this`display, m.done`above, old_`above
      ensures m.KeepOld().Objects() <= m.Objects()
      ensures Merging(m.KeepOld(), old_, ob, next)
    {
      hide MergeState.Separate, Spine, MergeData, Owned, Distinct, Seg, Holds;
      KeepOldData(m);
      KeepOldParts(m);
      next := RelinkOld(m, prev, ob, old_);
    }

    lemma KeepOldData(m: MergeState)
      requires MergeData(m) && m.olds != [] && m.o != []
      ensures MergeData(m.KeepOld())
    {
    }

    // Out of the rest of the old list, the object goes behind what is merged.
    method RelinkOld(ghost m: MergeState, prev: Object?, ob: Object?, old_: Object) returns (next: Object?)
      requires m.Separate() && Spine(m, prev, ob, old_) && m.olds != [] && m.o != []
      modifies this`display, m.done`above, old_`above
      ensures Spine(m.KeepOld(), old_, ob, next)
    {
      hide MergeState.Separate, Distinct, Apart, Seg;
      SegTail(m.olds, null);
      KeepOldParts(m);
      next := old_.above;
      LinkOld(prev, ob, old_, ob, m.done, m.news, m.olds[1..]);
    }

    // A compatible sprite: the old object takes the new one's place and transform.
    method StepReuse(ghost m: MergeState, prev: Object?, ob: Object, old_: Object) returns (ob': Object?, next: Object?)
      requires Merging(m, prev, ob, old_) && m.olds != [] && m.news != [] && m.Matched()
      requires old_ == m.olds[0] && ob == m.news[0]
      modifies this`display, this`children, this`freed, m.done`above, old_`above, old_`data
      ensures m.ReuseOld().Objects() <= m.Objects()
      ensures Merging(m.ReuseOld(), old_, ob', next)
    {
      hide MergeState.Separate, Spine, MergeData, Owned, Distinct, Seg, Holds;
      TakeTransform(m, old_, ob);
      ob', next := Relink(m, prev, ob, old_);
      ReuseOldParts(m);
      DeleteObject(ob, m.Objects());
    }

    // Out of both rests, the old object goes behind what is merged.
    method Relink(ghost m: MergeState, prev: Object?, ob: Object, old_: Object) returns (ob': Object?, next: Object?)
      requires m.Separate() && Spine(m, prev, ob, old_) && m.olds != [] && m.news != [] && m.Matched()
      modifies this`display, m.done`above, old_`above
      ensures Spine(m.ReuseOld(), old_, ob', next)
    {
      hide MergeState.Separate, Distinct, Apart, Seg;
      SegTail(m.news, null);
      SegTail(m.olds, null);
      ReuseOldParts(m);
      next := old_.above;
      ob' := ob.above;
      LinkOld(prev, ob', old_, ob, m.done, m.news[1..], m.olds[1..]);
    }

    method TakeTransform(ghost m: MergeState, old_: Object, ob: Object)
      requires m.olds != [] && m.news != [] && m.Matched() && old_ == m.olds[0] && ob == m.news[0]
      requires m.Separate() && MergeData(m) && Owned(m.Objects())
      modifies old_`data
      ensures MergeData(m.ReuseOld()) && Owned(m.Objects())
    {
      ReuseOldParts(m);
      if !old_.data.scripted {
        old_.data := old_.data.(transform := ob.data.transform);
      }
    }

    // One turn of the loop of sprite_merge_old, the old object below ob.
    method MergeBelow(ghost m: MergeState, prev: Object?, ob: Object, old_: Object,
                      ghost goal: Merged)
      returns (prev': Object?, next: Object?, ghost m': MergeState)
      requires Merging(m, prev, ob, old_) && m.Toward(goal) && ob.data.depth > old_.data.depth
      modifies this`display, this`children, this`freed, m.done`above, old_`above
      ensures m'.Objects() <= m.Objects()
      ensures Merging(m', prev', ob, next) && m'.Toward(goal) && m'.Left() < m.Left() && m'.n == m.n
      ensures m.done <= m'.done && m.olds != [] && (m'.olds == m.olds || m'.olds == m.olds[1..])
    {
      Heads(m, prev, ob, old_);
      if OnTimeline(old_.data) {
        TowardDropOld(m, goal);
        prev', m' := prev, m.DropOld();
        next := StepDropOld(m, prev, ob, old_);
      } else {
        TowardKeepOld(m, goal);
        prev', m' := old_, m.KeepOld();
        next := StepKeepOld(m, prev, ob, old_);
      }
    }

    // The old object at ob's depth.
    method MergeEqual(ghost m: MergeState, prev: Object?, ob: Object, old_: Object,
                      ghost goal: Merged)
      returns (prev': Object?, ob': Object?, next: Object?, ghost m': MergeState)
      requires Merging(m, prev, ob, old_) && m.Toward(goal) && ob.data.depth == old_.data.depth
      modifies this`display, this`children, this`freed, m.done`above, old_`above, old_`data
      ensures m'.Objects() <= m.Objects()
      ensures Merging(m', prev', ob', next) && m'.Toward(goal) && m'.Left() < m.Left() && m.n != [] && m'.n == m.n[1..]
      ensures old_ in m'.done || old_.data == old(old_.data)
      ensures m.done <= m'.done && m.olds != [] && (m'.olds == m.olds || m'.olds == m.olds[1..])
    {
      Heads(m, prev, ob, old_);
      if Compatible(ob.data, old_.data) && ob.data.kind == Sprite {
        TowardReuseOld(m, goal);
        prev', m' := old_, m.ReuseOld();
        ob', next := StepReuse(m, prev, ob, old_);
      } else {
        TowardReplace(m, goal);
        m' := m.DropOld().KeepNew();
        next := StepDropOld(m, prev, ob, old_);
        StepKeepNew(m.DropOld(), prev, ob, next);
        prev', ob' := ob, ob.above;
      }
    }

    // The old object above ob.
    lemma MergeAbove(m: MergeState, prev: Object?, ob: Object, old_: Object, goal: Merged)
      returns (m': MergeState)
      requires Merging(m, prev, ob, old_) && m.Toward(goal) && ob.data.depth < old_.data.depth
      ensures m'.Objects() <= m.Objects()
      ensures Merging(m', ob, ob.above, old_) && m'.Toward(goal) && m.done <= m'.done
        && m.olds != [] && m'.olds == m.olds
      ensures m'.Left() < m.Left() && m.n != [] && m'.n == m.n[1..]
    {
      Heads(m, prev, ob, old_);
      TowardKeepNew(m, goal);
      StepKeepNew(m, prev, ob, old_);
      m' := m.KeepNew();
    }

    // Any turn of the loop.
    method MergeTurn(ghost m: MergeState, prev: Object?, ob: Object, old_: Object,
                     ghost goal: Merged)
      returns (prev': Object?, ob': Object?, next: Object?, ghost m': MergeState)
      requires Merging(m, prev, ob, old_) && m.Toward(goal)
      modifies this`display, this`children, this`freed, m.done`above, old_`above, old_`data
      ensures m'.Objects() <= m.Objects()
      ensures Merging(m', prev', ob', next) && m'.Toward(goal) && m'.Left() < m.Left()
      ensures m'.n == m.n || (m.n != [] && m'.n == m.n[1..])
      ensures old_ in m'.done || old_.data == old(old_.data)
      ensures m.done <= m'.done && m.olds != [] && (m'.olds == m.olds || m'.olds == m.olds[1..])
    {
      if ob.data.depth > old_.data.depth {
        ob' := ob;
        prev', next, m' := MergeBelow(m, prev, ob, old_, goal);
      } else if ob.data.depth == old_.data.depth {
        prev', ob', next, m' := MergeEqual(m, prev, ob, old_, goal);
      } else {
        m' := MergeAbove(m, prev, ob, old_, goal);
        prev', ob', next := ob, ob.above, old_;
      }
    }

    // The new list is used up: old timeline objects go, up to the first dynamic
    // one, which is linked in with all that follow.
    method MergeRest(ghost m0: MergeState, prev: Object?, first: Object?, ghost goal: Merged)
      returns (ghost m: MergeState)
      requires Merging(m0, prev, null, first) && m0.Toward(goal)
      modifies this`display, this`children, this`freed, m0.done`above
      ensures m.IsMerged(goal) && m0.done <= m.done
      ensures Chain(display, goal.nodes, goal.d) && Owned(Elems(goal.nodes)) && freed == goal.gone
    {
      var old_ := first;
      m := m0;
      Heads(m, prev, null, old_);
      while old_ != null && OnTimeline(old_.data)
        invariant Merging(m, prev, null, old_) && m.Toward(goal) && m.done == m0.done && m.news == [] && m.n == []
        decreases m.Left()
      {
        Heads(m, prev, null, old_);
        TowardDropOld(m, goal);
        ghost var m' := m.DropOld();
        old_ := StepDropOld(m, prev, null, old_);
        m := m';
      }
      Heads(m, prev, null, old_);
      m := MergeEnd(m, prev, old_, goal);
    }

    method MergeEnd(ghost m0: MergeState, prev: Object?, old_: Object?, ghost goal: Merged)
      returns (ghost m: MergeState)
      requires Merging(m0, prev, null, old_) && m0.Toward(goal) && m0.news == [] && m0.n == []
      requires m0.o != [] ==> !OnTimeline(m0.o[0])
      modifies this`display, m0.done`above
      ensures m.IsMerged(goal) && m0.done <= m.done
      ensures Chain(display, goal.nodes, goal.d) && Owned(Elems(goal.nodes)) && freed == goal.gone
    {
      hide MergeState.Toward, MergeState.Separate, Owned;
      Heads(m0, prev, null, old_);
      TowardTakeOlds(m0, goal);
      m := m0.TakeOlds();
      if old_ != null {
        LinkOut(prev, old_, null, m0.done, m0.olds, m0.d, m0.o);
      } else {
        Joined(m0.done, m0.olds, m0.d, m0.o);
      }
    }

    // sprite_merge_old.  Which object ends where, and which are deleted, is that of
    // the functions on objects; an object that stays holds what the functions on
    // values say, and no new object and no deleted one is written.
    method MergeOld(first: Object?, ghost olds: seq<Object>, ghost odata: seq<Ob>)
      requires Linked() && Chain(first, olds, odata) && Elems(nodes) !! Elems(olds)
      requires Owned(Elems(nodes) + Elems(olds)) && AllTimeline(view)
      modifies this`display, this`nodes, this`view, this`children, this`freed
      modifies nodes`above, olds
      ensures Linked() && Owned(Elems(nodes))
      ensures view == Merge(old(view), odata)
      ensures nodes == MergeNodes(old(nodes), old(view), olds, odata)
      ensures freed == old(freed) + MergeGone(old(nodes), old(view), olds, odata)
      ensures forall x :: x in olds && x !in nodes ==> x.data == old(x.data)
    {
      hide *;
      ghost var m := MergeState([], nodes, olds, freed, [], view, odata);
      MergeStarts(first, olds, odata);
      ghost var goal := Goal(m);
      InElems(nodes);
      InElems(olds);
      MergeLists(display, first, m, goal);
      Adopt(goal.nodes, goal.d);
    }

    method MergeLists(ob0: Object?, first: Object?, ghost m0: MergeState, ghost goal: Merged)
      requires Merging(m0, null, ob0, first) && m0.Toward(goal) && AllTimeline(m0.n)
      modifies this`display, this`children, this`freed, m0.Objects()`above, Elems(m0.olds)`data
      ensures Chain(display, goal.nodes, goal.d) && Owned(Elems(goal.nodes)) && freed == goal.gone
      ensures forall x :: x in m0.olds && x !in goal.nodes ==> x.data == old(x.data)
    {
      hide Merging, MergeState.Toward, MergeState.IsMerged, MergeState.Separate, Chain, Owned;
      var prev, ob, old_;
      ghost var m;
      prev, ob, old_, m := MergeLoop(ob0, first, m0, goal);
      assert forall x :: x in m.done ==> x in m.Objects();
      if ob == null {
        m := MergeRest(m, prev, old_, goal);
      } else {
        m := NewRest(m, prev, ob, goal);
      }
    }

    method MergeLoop(ob0: Object?, first: Object?, ghost m0: MergeState, ghost goal: Merged)
      returns (prev: Object?, ob: Object?, old_: Object?, ghost m: MergeState)
      requires Merging(m0, null, ob0, first) && m0.Toward(goal) && AllTimeline(m0.n)
      modifies this`display, this`children, this`freed, m0.Objects()`above, Elems(m0.olds)`data
      ensures Merging(m, prev, ob, old_) && m.Toward(goal) && (ob == null || old_ == null)
      ensures m.Objects() <= m0.Objects()
      ensures forall x :: x in m0.olds && x !in m.done ==> x.data == old(x.data)
    {
      hide Merging, MergeState.Toward, MergeState.Separate;
      prev, ob, old_, m := null, ob0, first, m0;
      while ob != null && old_ != null
        invariant Merging(m, prev, ob, old_) && m.Toward(goal) && AllTimeline(m.n)
        invariant m.Objects() <= m0.Objects() && (forall x :: x in m.olds ==> x in m0.olds)
        invariant forall x :: x in m0.olds && x !in m.done ==> x.data == old(x.data)
        decreases m.Left()
      {
        Heads(m, prev, ob, old_);
        assert OnTimeline(ob.data);
        assert forall x :: x in m.done ==> x in m.Objects();
        assert old_ in m.olds && old_ in m.Objects() && old_ in Elems(m0.olds);
        prev, ob, old_, m := MergeTurn(m, prev, ob, old_, goal);
      }
    }

    lemma MergeStarts(first: Object?, olds: seq<Object>, odata: seq<Ob>)
      requires Linked() && Chain(first, olds, odata) && Elems(nodes) !! Elems(olds) && Owned(Elems(nodes) + Elems(olds))
      ensures var m := MergeState([], nodes, olds, freed, [], view, odata);
        && Merging(m, null, display, first) && m.Objects() == Elems(nodes) + Elems(olds)
        && |view| == |nodes| && |odata| == |olds| && m.Toward(Goal(m)) && m.n == view
        && Goal(m) == Merged(Merge(view, odata), MergeNodes(nodes, view, olds, odata),
                            freed + MergeGone(nodes, view, olds, odata))
    {
      var m := MergeState([], nodes, olds, freed, [], view, odata);
      assert forall i, j :: 0 <= i < |nodes| && 0 <= j < |olds| ==> nodes[i] in Elems(nodes) && olds[j] in Elems(olds);
      SeparateFrom(m);
      assert m.Objects() == Elems(nodes) + Elems(olds);
      assert [] + Merge(view, odata) == Merge(view, odata);
    }

    // The old list is used up: the rest of the new one stays.
    lemma NewRest(m0: MergeState, prev: Object?, ob: Object, goal: Merged) returns (m: MergeState)
      requires Merging(m0, prev, ob, null) && m0.Toward(goal)
      ensures m.IsMerged(goal) && m0.done <= m.done
      ensures Chain(display, goal.nodes, goal.d) && Owned(Elems(goal.nodes)) && freed == goal.gone
    {
      Heads(m0, prev, ob, null);
      TowardTakeNews(m0, goal);
      Joined(m0.done, m0.news, m0.d, m0.n);
      m := m0.TakeNews();
    }

    // ---- playing and seeking ------------------------------------------------

    constructor (stream: seq<Frame>, c0: int)
      ensures frames == stream && View() == Start(c0) && Valid({}) && freed == [] && made == []
    {
      frames := stream;
      display, children, freed := null, [], [];
      cframe, tagpos, stopped, fastforwarding := c0, 0, false, false;
      rewound, nodes, view, made := false, [], [], [];
      new;
      assert multiset(nodes) + multiset({}) + multiset(freed) == multiset(made);
    }

    // sprite_create_object
    method CreateObject(pi: Place, ghost rest: set<Object>)
      requires Valid(rest) && !Occupied(view, pi.depth)
      modifies this`display, this`nodes, this`view, this`children, this`made, nodes`above
      ensures Valid(rest) && view == Mount(old(view), NewOb(pi))
      ensures |made| == |old(made)| + 1 && old(made) <= made && fresh(made[|old(made)|])
      ensures PlacedBy(pi, made[|old(made)|].data)
      ensures Elems(nodes) == old(Elems(nodes)) + {made[|old(made)|]}
      ensures pi.depth < TIMELINE_DEPTHS ==> Dynamics() == old(Dynamics())
    {
      hide Linked, Owned, Sorted, Chain, Distinct, Accounted, Valid, Mount, Occupied, Dynamics;
      OpenValid(rest);
      MountSorted(view, NewOb(pi), -1);
      var o := NewObject(pi, rest);
      InElems(nodes);
      PlaceObject(o, rest);
      MountedValid(old(nodes), o, rest);
      Appended(old(made), made, o);
    }

    lemma Appended(s: seq<Object>, s': seq<Object>, o: Object)
      requires s' == s + [o]
      ensures |s'| == |s| + 1 && s <= s' && s'[|s|] == o
    {
    }

    // The new object goes to the children, if it is a sprite, and on the list.
    method PlaceObject(o: Object, ghost rest: set<Object>)
      requires Linked() && Owned(Elems(nodes) + rest) && o !in nodes && o !in rest && o !in Elems(nodes)
      modifies this`display, this`nodes, this`view, this`children, nodes`above, o`above
      ensures Linked() && Owned(old(Elems(nodes)) + rest + {o}) && view == Mount(old(view), o.data)
      ensures Elems(nodes) == old(Elems(nodes)) + {o} && multiset(nodes) == multiset(old(nodes)) + multiset{o}
      ensures OnTimeline(o.data) ==> Dynamics() == old(Dynamics())
    {
      hide Linked, Owned, Mount, Dynamics;
      AttachObject(o, Elems(nodes) + rest);
      ghost var k := MountObject(o);
      InsertElems(old(nodes), nodes, o, k);
    }

    // player_create_object and object_import_place; o enters the account.
    method NewObject(pi: Place, ghost rest: set<Object>) returns (o: Object)
      requires Accounted(rest)
      modifies this`made
      ensures fresh(o) && o.data == NewOb(pi) && made == old(made) + [o]
      ensures Distinct(made) && multiset(nodes) + multiset{o} + multiset(rest) + multiset(freed) == multiset(made)
    {
      o := new Object(NewOb(pi));
      made := made + [o];
    }

    lemma OpenValid(rest: set<Object>)
      requires Valid(rest)
      ensures Linked() && Owned(Elems(nodes) + rest) && Sorted(view) && Accounted(rest) && Elems(nodes) !! rest
    {
    }

    lemma MountedValid(s: seq<Object>, o: Object, rest: set<Object>)
      requires Linked() && Sorted(view) && Owned(Elems(s) + rest + {o})
      requires Elems(nodes) == Elems(s) + {o} && multiset(nodes) == multiset(s) + multiset{o}
      requires Elems(s) !! rest && o !in rest
      requires Distinct(made) && multiset(s) + multiset{o} + multiset(rest) + multiset(freed) == multiset(made)
      ensures Valid(rest)
    {
      hide Linked, Owned, Sorted, Chain, Distinct, Elems;
      assert Elems(nodes) + rest == Elems(s) + rest + {o};
    }

    // sprite_attach_object
    method AttachObject(o: Object, ghost live: set<Object>)
      requires Owned(live) && o !in live
      modifies this`children
      ensures Owned(live + {o})
    {
      if o.data.kind == Sprite {
        AddChild(o);
      }
    }

    lemma InsertElems(s: seq<Object>, s': seq<Object>, o: Object, k: nat)
      requires k <= |s| && s' == s[..k] + [o] + s[k..]
      ensures Elems(s') == Elems(s) + {o} && multiset(s') == multiset(s) + multiset{o}
    {
      assert s == s[..k] + s[k..];
    }

    lemma DistinctNodes()
      requires Linked()
      ensures Distinct(nodes)
    {
    }

    lemma RemoveElems(s: seq<Object>, s': seq<Object>, k: nat)
      requires k < |s| && s' == s[..k] + s[k + 1..] && Distinct(s)
      ensures Elems(s') == Elems(s) - {s[k]} && s[k] in Elems(s) && multiset(s) == multiset(s') + multiset{s[k]}
    {
      assert s == s[..k] + [s[k]] + s[k + 1..];
      WithoutOne(s, k);
    }

    // sprite_remove_object
    method RemoveObject(depth: nat, ghost rest: set<Object>)
      requires Valid(rest)
      modifies this`display, this`nodes, this`view, this`children, this`freed, nodes`above
      ensures Valid(rest) && view == Umount(old(view), depth)
      ensures Elems(nodes) <= old(Elems(nodes)) && old(freed) <= freed
      ensures depth < TIMELINE_DEPTHS ==> Dynamics() == old(Dynamics())
    {
      hide Linked, Owned, Sorted, Chain, Accounted, DynamicNodes, DynamicPart, Umount;
      UmountSorted(view, depth, -1);
      DistinctNodes();
      OpenAccount(rest);
      ghost var live := Elems(nodes) + rest;
      var ob;
      ghost var k;
      ob, k := UmountObject(depth);
      if ob != null {
        RemoveElems(old(nodes), nodes, k);
        DeleteObject(ob, live);
        RemovedValid(old(nodes), old(freed), ob, rest);
      } else {
        SameAccount(old(nodes), rest);
      }
    }

    // The object taken off the list is given back.
    lemma RemovedValid(s: seq<Object>, f: seq<Object>, o: Object, rest: set<Object>)
      requires Linked() && Sorted(view) && Owned(Elems(s) + rest - {o}) && Elems(s) !! rest
      requires Elems(nodes) == Elems(s) - {o} && o in Elems(s)
      requires multiset(s) == multiset(nodes) + multiset{o} && freed == f + [o]
      requires Distinct(made) && multiset(s) + multiset(rest) + multiset(f) == multiset(made)
      ensures Valid(rest)
    {
      hide Linked, Owned, Sorted, Distinct;
      assert Elems(nodes) + rest == Elems(s) + rest - {o};
    }

    lemma OpenAccount(rest: set<Object>)
      requires Accounted(rest)
      ensures Distinct(made) && multiset(nodes) + multiset(rest) + multiset(freed) == multiset(made)
    {
    }

    lemma SameAccount(s: seq<Object>, rest: set<Object>)
      requires s == nodes && Distinct(made) && multiset(s) + multiset(rest) + multiset(freed) == multiset(made)
      ensures Accounted(rest)
    {
    }

    // sprite_place_object and sprite_remove_object, as the stream calls them
    method ApplyTag(tag: Tag, ghost rest: set<Object>)
      requires Valid(rest) && TagLegal(view, tag)
      modifies this`display, this`nodes, this`view, this`children, this`freed, this`made, nodes`above, nodes`data
      ensures Valid(rest) && view == Timeline.ApplyTag(old(view), tag)
      ensures forall x: nat :: Effect(At(old(view), x), tag, x, At(view, x))
      ensures Dynamics() == old(Dynamics()) && old(freed) <= freed && old(made) <= made
      ensures fresh(Elems(nodes) - old(Elems(nodes)))
    {
      hide Linked, Owned, Sorted, Chain, Accounted, DynamicNodes, DynamicPart, Effect, At;
      ApplyTagSorted(view, tag);
      forall x: nat ensures Effect(At(view, x), tag, x, At(Timeline.ApplyTag(view, tag), x)) {
        CommandEffect(view, tag, x);
      }
      match tag
      case PlaceTag(pi) =>
        if pi.move {
          ChangeObject(pi);
          SameKinds(rest);
        } else {
          CreateObject(pi, rest);
        }
      case RemoveTag(depth) =>
        RemoveObject(depth, rest);
    }

    twostate lemma SameKinds(rest: set<Object>)
      requires old(Valid(rest)) && Linked() && nodes == old(nodes) && children == old(children)
      requires |view| == |old(view)| && forall i :: 0 <= i < |view| ==> view[i].kind == old(view)[i].kind
      requires forall o :: o in rest ==> o.data == old(o.data)
      ensures Owned(Elems(nodes) + rest)
    {
      forall o | o in nodes ensures o.data.kind == old(o.data.kind) {
        var i :| 0 <= i < |nodes| && nodes[i] == o;
        assert o.data == view[i] && old(o.data) == old(view)[i];
      }
    }

    // stream_progress_frame
    method PlayFrame(ghost rest: set<Object>)
      requires Valid(rest) && tagpos < |frames| && FrameLegal(view, frames[tagpos])
      modifies this`display, this`nodes, this`view, this`children, this`freed, this`made, this`tagpos, nodes`above,
               nodes`data
      ensures Valid(rest) && view == Timeline.PlayFrame(old(view), frames[old(tagpos)])
      ensures Dynamics() == old(Dynamics()) && old(freed) <= freed && old(made) <= made
      ensures tagpos == old(tagpos) + 1
      ensures fresh(Elems(nodes) - old(Elems(nodes)))
    {
      hide Valid, DynamicNodes, DynamicPart;
      var frame := frames[tagpos];
      var i := 0;
      while i < |frame|
        invariant i <= |frame| && tagpos == old(tagpos) && Valid(rest) && FrameLegal(view, frame[i..])
        invariant Timeline.PlayFrame(view, frame[i..]) == Timeline.PlayFrame(old(view), frame)
        invariant Dynamics() == old(Dynamics()) && old(freed) <= freed && old(made) <= made
        invariant fresh(Elems(nodes) - old(Elems(nodes)))
      {
        assert frame[i..][0] == frame[i] && frame[i..][1..] == frame[i + 1..];
        assert forall o :: o in nodes ==> o in Elems(nodes);
        ApplyTag(frame[i], rest);
        i := i + 1;
      }
      tagpos := tagpos + 1;
    }

    // sprite_progress_frames
    method ProgressFrames(n: nat, ghost rest: set<Object>)
      requires Valid(rest) && n > 0 && tagpos + n <= |frames| && LegalFrom(view, frames, tagpos, n)
      modifies this`display, this`nodes, this`view, this`children, this`freed, this`made, this`tagpos,
               this`fastforwarding
      modifies nodes`above, nodes`data
      ensures Valid(rest) && view == PlayFrames(old(view), frames, old(tagpos), n)
      ensures Dynamics() == old(Dynamics()) && old(freed) <= freed && old(made) <= made
      ensures tagpos == old(tagpos) + n && (n > 1 ==> !fastforwarding)
      ensures fresh(Elems(nodes) - old(Elems(nodes)))
    {
      hide Valid, DynamicNodes, DynamicPart, FrameLegal, Timeline.PlayFrame;
      var left := n;
      if left > 1 {
        fastforwarding := true;
        while left > 1
          invariant 1 <= left <= n && tagpos + left == old(tagpos) + n
          invariant Valid(rest) && LegalFrom(view, frames, tagpos, left)
          invariant PlayFrames(view, frames, tagpos, left) == PlayFrames(old(view), frames, old(tagpos), n)
          invariant Dynamics() == old(Dynamics()) && old(freed) <= freed && old(made) <= made
          invariant fresh(Elems(nodes) - old(Elems(nodes)))
        {
          assert forall o :: o in nodes ==> o in Elems(nodes);
          PlayFrame(rest);
          left := left - 1;
        }
        fastforwarding := false;
      }
      assert forall o :: o in nodes ==> o in Elems(nodes);
      PlayFrame(rest);
    }

    // sprite_goto_frame.  The objects at dynamic depths are the same objects
    // afterwards; a rewind keeps every sprite the replayed one is compatible with;
    // and by Valid every object ever made is on the list or was given back, once.
    method GotoFrame(frame: nat)
      requires Valid({}) && frame < |frames| && GotoLegal(View(), frames, frame)
      modifies this, nodes
      ensures Valid({}) && View() == Goto(old(View()), frames, frame)
      ensures cframe == frame && stopped == old(stopped)
      ensures Dynamics() == old(Dynamics()) && old(freed) <= freed && old(made) <= made
      ensures frame < old(cframe) ==> KeepsSprites(Replay(frames, frame + 1), old(nodes), old(view), nodes)
    {
      hide Valid, DynamicNodes, DynamicPart;
      if frame < cframe {
        Rewind(frame);
      } else if frame > cframe {
        ProgressFrames(frame - cframe, {});
      }
      cframe := frame;
    }

    method Rewind(frame: nat)
      requires Valid({}) && frame < |frames| && LegalFrom([], frames, 0, frame + 1)
      modifies this, nodes
      ensures Valid({}) && view == Merge(Replay(frames, frame + 1), old(view))
      ensures Dynamics() == old(Dynamics()) && old(freed) <= freed && old(made) <= made
      ensures KeepsSprites(Replay(frames, frame + 1), old(nodes), old(view), nodes)
      ensures tagpos == frame + 1 && cframe == -1 && stopped == old(stopped) && rewound
    {
      hide *;
      DynamicsAre();
      var old_ := display;
      ghost var olds, odata := TakeDisplay();
      PlayAgain(frame, Elems(olds));
      InElems(olds);
      InElems(old(nodes));
      InElems(nodes);
      assert forall i :: 0 <= i < |olds| ==> olds[i] in olds && olds[i] in old(nodes);
      assert forall o :: o in Elems(nodes) ==> fresh(o);
      assert forall i :: 0 <= i < |nodes| ==> nodes[i] in nodes && nodes[i] in Elems(nodes);
      FinishRewind(old_, olds, odata);
    }

    lemma DynamicsAre()
      ensures Dynamics() == (DynamicNodes(nodes, view), DynamicPart(view))
    {
    }

    // The frames up to this one, played on the empty display.
    method PlayAgain(frame: nat, ghost rest: set<Object>)
      requires Valid(rest) && nodes == [] && view == [] && frame < |frames| && LegalFrom([], frames, 0, frame + 1)
      modifies this`display, this`nodes, this`view, this`children, this`freed, this`made, this`fastforwarding
      modifies this`cframe, this`tagpos, this`rewound
      ensures Valid(rest) && view == Replay(frames, frame + 1) && AllTimeline(view) && fresh(Elems(nodes))
      ensures old(freed) <= freed && old(made) <= made
      ensures tagpos == frame + 1 && cframe == -1 && rewound
    {
      hide Valid, DynamicNodes, DynamicPart;
      cframe, tagpos, rewound := -1, 0, true;
      assert Elems([]) == {};
      ProgressFrames(frame + 1, rest);
      LegalTimeline([], frames, 0, frame + 1);
    }

    lemma InElems(s: seq<Object>)
      ensures forall o: Object :: o in s <==> o in Elems(s)
    {
    }

    // The display taken off the sprite.
    method TakeDisplay() returns (ghost olds: seq<Object>, ghost odata: seq<Ob>)
      requires Valid({})
      modifies this`display, this`nodes, this`view
      ensures display == null && nodes == [] && view == [] && olds == old(nodes) && odata == old(view)
      ensures Chain(old(display), olds, odata) && Sorted(odata) && Valid(Elems(olds))
    {
      hide *;
      olds, odata := nodes, view;
      TakenDisplay(olds, odata);
      display := null;
      Unlist();
      NothingListed(Elems(olds));
    }

    ghost method Unlist()
      modifies this`nodes, this`view
      ensures nodes == [] && view == []
    {
      nodes, view := [], [];
    }

    // What is known of the display before it is taken off.
    lemma TakenDisplay(olds: seq<Object>, odata: seq<Ob>)
      requires Valid({}) && olds == nodes && odata == view
      ensures Chain(display, olds, odata) && Sorted(odata) && Owned(Elems(olds))
      ensures Distinct(made) && multiset(Elems(olds)) + multiset(freed) == multiset(made)
    {
      hide Seg, Holds, Owned;
      OpenAccount({});
      ElemsOnce(nodes);
      assert Elems(nodes) + {} == Elems(nodes);
    }

    lemma NothingListed(rest: set<Object>)
      requires display == null && nodes == [] && view == [] && Owned(rest)
      requires Distinct(made) && multiset(rest) + multiset(freed) == multiset(made)
      ensures Valid(rest)
    {
      hide Owned;
      assert Elems([]) + rest == rest;
      assert multiset(nodes) + multiset(rest) + multiset(freed) == multiset(rest) + multiset(freed);
    }

    method FinishRewind(old_: Object?, ghost olds: seq<Object>, ghost odata: seq<Ob>)
      requires Valid(Elems(olds)) && Chain(old_, olds, odata) && Sorted(odata) && AllTimeline(view)
      modifies this`display, this`nodes, this`view, this`children, this`freed, nodes, olds
      ensures Valid({}) && view == Merge(old(view), odata)
      ensures Dynamics() == (DynamicNodes(olds, odata), DynamicPart(odata)) && old(freed) <= freed
      ensures KeepsSprites(old(view), olds, odata, nodes)
    {
      hide Linked, Owned, Sorted, Distinct, DynamicNodes, DynamicPart, Accounted;
      ListsMatch(old_, olds, odata);
      MergeSorted(view, odata);
      MergedDynamics(nodes, view, olds, odata);
      MergeKeepsSprites(nodes, view, olds, odata);
      MergedAccount(olds, odata);
      MergeOld(old_, olds, odata);
      assert Elems(nodes) + {} == Elems(nodes);
      SameAccount(nodes, {});
    }

    lemma ListsMatch(old_: Object?, olds: seq<Object>, odata: seq<Ob>)
      requires Linked() && Chain(old_, olds, odata)
      ensures |nodes| == |view| && |olds| == |odata| && Distinct(olds)
    {
    }

    // The merge keeps the account: what rest held is on the list or given back.
    lemma MergedAccount(olds: seq<Object>, odata: seq<Ob>)
      requires |nodes| == |view| && |olds| == |odata| && Distinct(olds) && Accounted(Elems(olds))
      ensures Distinct(made)
      ensures multiset(MergeNodes(nodes, view, olds, odata)) + multiset({})
        + multiset(freed + MergeGone(nodes, view, olds, odata))
              == multiset(made)
    {
      hide MergeNodes, MergeGone;
      MergeConserves(nodes, view, olds, odata);
      ElemsOnce(olds);
    }

    lemma ElemsOnce(s: seq<Object>)
      requires Distinct(s)
      ensures multiset(Elems(s)) == multiset(s)
    {
      if s != [] {
        PopElems(s);
        ElemsOnce(s[1..]);
        assert s == [s[0]] + s[1..];
        assert multiset(Elems(s)) == multiset(Elems(s[1..])) + multiset{s[0]};
      }
    }

    // sprite_advance
    method AdvanceFrame()
      requires Valid({}) && frames != [] && Position(View(), frames)
      requires !stopped ==> GotoLegal(View(), frames, NextFrame(View(), |frames|))
      modifies this, nodes
      ensures Valid({}) && View() == Perform(old(View()), frames, Advance)
      ensures stopped == old(stopped) && cframe == if stopped then old(cframe) else (old(cframe) + 1) % |frames|
      ensures Dynamics() == old(Dynamics()) && old(freed) <= freed && old(made) <= made
      ensures !old(stopped) && 0 < old(cframe) == |frames| - 1 ==>
        KeepsSprites(Replay(frames, 1), old(nodes), old(view), nodes)
    {
      hide Valid, DynamicNodes, DynamicPart, KeepsSprites, Goto, GotoLegal, Replay;
      NextFrameWraps(View(), |frames|);
      if !stopped {
        var to := cframe + 1;
        if to == |frames| {
          to := 0;
        }
        GotoFrame(to);
      }
    }
  }
}
