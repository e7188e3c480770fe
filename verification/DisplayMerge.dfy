// The objects of a display list and the merge that follows a rewind
// (core/sprite.c): lists linked through above, and which object, new or old,
// ends at which place.
module DisplayMerge {
  import opened Timeline
  import opened Seek

  // struct object: its place fields, and the link to the object above it.
  class Object {
    var data: Ob
    var above: Object?

    constructor (d: Ob)
      ensures data == d && above == null
    {
      data, above := d, null;
    }
  }

  function First(s: seq<Object>, tail: Object?): Object? {
    if s == [] then tail else s[0]
  }

  // The objects of s are linked in order, the last one to tail.
  ghost predicate Seg(s: seq<Object>, tail: Object?)
    reads s`above
  {
    forall i :: 0 <= i < |s| ==> s[i].above == Next(s, i, tail)
  }

  function Next(s: seq<Object>, i: nat, tail: Object?): Object?
    requires i < |s|
  {
    if i + 1 < |s| then s[i + 1] else tail
  }

  // What an assignment through the cursor may change.
  function Cursor(prev: Object?): set<Object> {
    if prev == null then {} else {prev}
  }

  lemma SegConcat(a: seq<Object>, b: seq<Object>, tail: Object?)
    ensures Seg(a + b, tail) <==> Seg(a, First(b, tail)) && Seg(b, tail)
  {
    if Seg(a + b, tail) {
      forall i | 0 <= i < |a| ensures a[i].above == Next(a, i, First(b, tail)) {
        assert (a + b)[i] == a[i];
      }
      forall i | 0 <= i < |b| ensures b[i].above == Next(b, i, tail) {
        assert (a + b)[|a| + i] == b[i];
      }
    }
  }

  predicate Distinct(s: seq<Object>) {
    forall i, j :: 0 <= i < j < |s| ==> s[i] != s[j]
  }

  // The objects of s hold the data d.
  ghost predicate Holds(s: seq<Object>, d: seq<Ob>)
    reads s`data
  {
    |s| == |d| && forall i :: 0 <= i < |s| ==> s[i].data == d[i]
  }

  function Last(s: seq<Object>): Object? {
    if s == [] then null else s[|s| - 1]
  }

  lemma DistinctParts(a: seq<Object>, b: seq<Object>)
    requires Distinct(a + b)
    ensures Distinct(a) && Distinct(b) && forall i, j :: 0 <= i < |a| && 0 <= j < |b| ==> a[i] != b[j]
  {
    assert forall i :: 0 <= i < |a| ==> (a + b)[i] == a[i];
    assert forall i :: 0 <= i < |b| ==> (a + b)[|a| + i] == b[i];
  }

  // A list fit for use: linked, without repetition, holding d.
  ghost predicate Chain(head: Object?, s: seq<Object>, d: seq<Ob>)
    reads s`above, s`data
  {
    head == First(s, null) && Seg(s, null) && Distinct(s) && Holds(s, d)
  }

  lemma Inserted(a: seq<Object>, o: Object, b: seq<Object>, da: seq<Ob>, db: seq<Ob>)
    requires Seg(a, o) && o.above == First(b, null) && Seg(b, null)
    requires Distinct(a + b) && o !in a && o !in b && Holds(a, da) && Holds(b, db)
    ensures Chain(First(a, o), a + [o] + b, da + [o.data] + db)
  {
    SegConcat([o], b, null);
    SegConcat(a, [o] + b, null);
    assert a + ([o] + b) == a + [o] + b;
    var s := a + [o] + b;
    forall i, j | 0 <= i < j < |s| ensures s[i] != s[j] {
      assert s[i] == if i < |a| then (a + b)[i] else if i == |a| then o else (a + b)[i - 1];
      assert s[j] == if j < |a| then (a + b)[j] else if j == |a| then o else (a + b)[j - 1];
    }
  }

  lemma SegTail(s: seq<Object>, tail: Object?)
    requires s != [] && Seg(s, tail)
    ensures s[0].above == First(s[1..], tail) && Seg(s[1..], tail)
  {
    assert s == s[..1] + s[1..];
    SegConcat(s[..1], s[1..], tail);
  }

  lemma Joined(a: seq<Object>, b: seq<Object>, da: seq<Ob>, db: seq<Ob>)
    requires Seg(a, First(b, null)) && Seg(b, null) && Distinct(a + b) && Holds(a, da) && Holds(b, db)
    ensures Chain(First(a, First(b, null)), a + b, da + db)
  {
    hide Seg, Distinct, Holds;
    SegConcat(a, b, null);
    HoldsConcat(a, b, da, db);
    assert First(a + b, null) == First(a, First(b, null));
  }

  lemma HoldsConcat(a: seq<Object>, b: seq<Object>, da: seq<Ob>, db: seq<Ob>)
    requires Holds(a, da) && Holds(b, db)
    ensures Holds(a + b, da + db)
  {
  }

  lemma WithoutOne(s: seq<Object>, k: nat)
    requires Distinct(s) && k < |s|
    ensures Distinct(s[..k] + s[k + 1..]) && s[k] !in s[..k] && s[k] !in s[k + 1..]
  {
  }

  lemma Cut(s: seq<Object>, d: seq<Ob>, k: nat, tail: Object?)
    requires k <= |s| && Seg(s, tail) && Holds(s, d)
    ensures Seg(s[..k], First(s[k..], tail)) && Seg(s[k..], tail)
    ensures Holds(s[..k], d[..k]) && Holds(s[k..], d[k..])
  {
    assert s == s[..k] + s[k..];
    SegConcat(s[..k], s[k..], tail);
  }

  function Elems(s: seq<Object>): set<Object> {
    set x | x in s
  }

  // ---- positions ------------------------------------------------------------

  lemma {:induction false} MountAt(d: seq<Ob>, o: Ob, k: nat)
    requires k <= |d| && (forall i :: 0 <= i < k ==> d[i].depth < o.depth) && (k < |d| ==> d[k].depth >= o.depth)
    ensures Mount(d, o) == d[..k] + [o] + d[k..]
  {
    if k > 0 {
      MountAt(d[1..], o, k - 1);
    }
  }

  lemma {:induction false} UmountAt(d: seq<Ob>, depth: nat, k: nat)
    requires k <= |d| && (forall i :: 0 <= i < k ==> d[i].depth < depth) && (k < |d| ==> d[k].depth >= depth)
    ensures Umount(d, depth) == if k < |d| && d[k].depth == depth then d[..k] + d[k + 1..] else d
  {
    if k > 0 {
      UmountAt(d[1..], depth, k - 1);
    }
  }

  lemma {:induction false} ChangeAt(d: seq<Ob>, pi: Place, k: nat)
    requires k <= |d| && (forall i :: 0 <= i < k ==> d[i].depth < pi.depth) && (k < |d| ==> d[k].depth >= pi.depth)
    ensures Change(d, pi) == if k < |d| && d[k].depth == pi.depth then d[k := ChangePlace(d[k], pi)] else d
  {
    if k > 0 {
      ChangeAt(d[1..], pi, k - 1);
    }
  }

  // ---- the merge, object by object --------------------------------------------

  // The objects of the merged list: sprite_merge_old keeps the old one where it
  // can, since outside actions may hold it.
  function MergeNodes(news: seq<Object>, n: seq<Ob>, olds: seq<Object>, o: seq<Ob>): (r: seq<Object>)
    requires |news| == |n| && |olds| == |o|
    decreases |n| + |o|
  {
    if n == [] then
      if o == [] || !OnTimeline(o[0]) then olds else MergeNodes([], [], olds[1..], o[1..])
    else if o == [] then news
    else if n[0].depth > o[0].depth then
      (if OnTimeline(o[0]) then [] else [olds[0]]) + MergeNodes(news, n, olds[1..], o[1..])
    else if n[0].depth == o[0].depth then
      [if Reusable(n[0], o[0]) then olds[0] else news[0]] + MergeNodes(news[1..], n[1..], olds[1..], o[1..])
    else [news[0]] + MergeNodes(news[1..], n[1..], olds, o)
  }

  // The objects given back, in order.
  function MergeGone(news: seq<Object>, n: seq<Ob>, olds: seq<Object>, o: seq<Ob>): (r: seq<Object>)
    requires |news| == |n| && |olds| == |o|
    decreases |n| + |o|
  {
    if n == [] then
      if o == [] || !OnTimeline(o[0]) then [] else [olds[0]] + MergeGone([], [], olds[1..], o[1..])
    else if o == [] then []
    else if n[0].depth > o[0].depth then
      (if OnTimeline(o[0]) then [olds[0]] else []) + MergeGone(news, n, olds[1..], o[1..])
    else if n[0].depth == o[0].depth then
      [if Reusable(n[0], o[0]) then news[0] else olds[0]] + MergeGone(news[1..], n[1..], olds[1..], o[1..])
    else MergeGone(news[1..], n[1..], olds, o)
  }

  // How often x occurs in s.
  function Count(s: seq<Object>, x: Object): nat {
    if s == [] then 0 else (if s[0] == x then 1 else 0) + Count(s[1..], x)
  }

  lemma {:induction false} CountIsMultiplicity(s: seq<Object>, x: Object)
    ensures Count(s, x) == multiset(s)[x]
  {
    if s != [] {
      CountIsMultiplicity(s[1..], x);
      assert s == [s[0]] + s[1..];
    }
  }

  lemma CountCons(y: Object, s: seq<Object>, x: Object)
    ensures Count([y] + s, x) == Count([y], x) + Count(s, x)
    ensures Count([y], x) == if y == x then 1 else 0
  {
    assert ([y] + s)[1..] == s && [y][1..] == [];
  }

  lemma {:induction false} CountMerged(news: seq<Object>, n: seq<Ob>, olds: seq<Object>, o: seq<Ob>, x: Object)
    requires |news| == |n| && |olds| == |o|
    ensures Count(MergeNodes(news, n, olds, o), x) + Count(MergeGone(news, n, olds, o), x)
      == Count(news, x) + Count(olds, x)
    decreases |n| + |o|
  {
    if n == [] {
      if o != [] && OnTimeline(o[0]) {
        CountMerged([], [], olds[1..], o[1..], x);
        CountCons(olds[0], MergeGone([], [], olds[1..], o[1..]), x);
      }
    } else if o != [] {
      var old_ := if n[0].depth < o[0].depth then olds else olds[1..];
      var od := if n[0].depth < o[0].depth then o else o[1..];
      var new_ := if n[0].depth > o[0].depth then news else news[1..];
      var nd := if n[0].depth > o[0].depth then n else n[1..];
      CountMerged(new_, nd, old_, od, x);
      var nodes, gone := MergeNodes(new_, nd, old_, od), MergeGone(new_, nd, old_, od);
      CountCons(olds[0], nodes, x);
      CountCons(news[0], nodes, x);
      CountCons(olds[0], gone, x);
      CountCons(news[0], gone, x);
      assert [] + nodes == nodes && [] + gone == gone;
    }
  }

  lemma SameCounts(a: seq<Object>, b: seq<Object>, c: seq<Object>, d: seq<Object>)
    requires forall x :: Count(a, x) + Count(b, x) == Count(c, x) + Count(d, x)
    ensures multiset(a) + multiset(b) == multiset(c) + multiset(d)
  {
    hide Count;
    forall x: Object ensures (multiset(a) + multiset(b))[x] == (multiset(c) + multiset(d))[x] {
      CountIsMultiplicity(a, x);
      CountIsMultiplicity(b, x);
      CountIsMultiplicity(c, x);
      CountIsMultiplicity(d, x);
    }
  }

  // Every object of the two lists is on the merged one or given back, once.
  lemma MergeConserves(news: seq<Object>, n: seq<Ob>, olds: seq<Object>, o: seq<Ob>)
    requires |news| == |n| && |olds| == |o|
    ensures multiset(MergeNodes(news, n, olds, o)) + multiset(MergeGone(news, n, olds, o))
      == multiset(news) + multiset(olds)
  {
    hide *;
    var nodes, gone := MergeNodes(news, n, olds, o), MergeGone(news, n, olds, o);
    forall x ensures Count(nodes, x) + Count(gone, x) == Count(news, x) + Count(olds, x) {
      CountMerged(news, n, olds, o, x);
    }
    SameCounts(nodes, gone, news, olds);
  }

  lemma {:induction false} DropTimeline(ts: seq<Object>, t: seq<Ob>, ys: seq<Object>, y: seq<Ob>)
    requires |ts| == |t| && |ys| == |y| && AllTimeline(t) && AllDynamic(y)
    ensures MergeNodes([], [], ts + ys, t + y) == ys && MergeGone([], [], ts + ys, t + y) == ts
  {
    if t == [] {
      assert t + y == y && ts + ys == ys;
    } else {
      assert (t + y)[1..] == t[1..] + y && (ts + ys)[1..] == ts[1..] + ys;
      DropTimeline(ts[1..], t[1..], ys, y);
    }
  }

  lemma {:induction false} MergeNodesDynamic(news: seq<Object>, n: seq<Ob>, ys: seq<Object>, y: seq<Ob>)
    requires |news| == |n| && |ys| == |y| && AllTimeline(n) && AllDynamic(y)
    ensures MergeNodes(news, n, ys, y) == news + ys && MergeGone(news, n, ys, y) == []
  {
    if n == [] {
      assert news + ys == ys;
    } else if y == [] {
      assert news + ys == news;
    } else {
      assert OnTimeline(n[0]) && !OnTimeline(y[0]);
      MergeNodesDynamic(news[1..], n[1..], ys, y);
      assert [news[0]] + (news[1..] + ys) == news + ys;
    }
  }

  lemma SplitOneSided(news: seq<Object>, n: seq<Ob>, ts: seq<Object>, t: seq<Ob>, ys: seq<Object>, y: seq<Ob>)
    requires |news| == |n| && |ts| == |t| && |ys| == |y| && AllTimeline(n) && AllTimeline(t) && AllDynamic(y)
    requires t == [] || n == []
    ensures MergeNodes(news, n, ts + ys, t + y) == MergeNodes(news, n, ts, t) + ys
    ensures MergeGone(news, n, ts + ys, t + y) == MergeGone(news, n, ts, t)
  {
    hide MergeNodes, MergeGone;
    if t == [] {
      assert t + y == y && ts + ys == ys;
      MergeNodesDynamic(news, n, ys, y);
      MergeNodesDynamic(news, n, [], []);
      assert news + [] == news;
    } else {
      DropTimeline(ts, t, ys, y);
      DropTimeline(ts, t, [], []);
      assert ts + [] == ts && t + [] == t;
    }
  }

  // Every old dynamic object stays, the same object, in order.
  lemma {:induction false} MergeNodesSplit(news: seq<Object>, n: seq<Ob>, ts: seq<Object>, t: seq<Ob>, ys: seq<Object>,
                                           y: seq<Ob>)
    requires |news| == |n| && |ts| == |t| && |ys| == |y| && AllTimeline(n) && AllTimeline(t) && AllDynamic(y)
    ensures MergeNodes(news, n, ts + ys, t + y) == MergeNodes(news, n, ts, t) + ys
    decreases |n| + |t|
  {
    if t == [] || n == [] {
      SplitOneSided(news, n, ts, t, ys, y);
    } else {
      Tails(ts, ys);
      Tails(t, y);
      if n[0].depth > t[0].depth {
        MergeNodesSplit(news, n, ts[1..], t[1..], ys, y);
      } else if n[0].depth == t[0].depth {
        MergeNodesSplit(news[1..], n[1..], ts[1..], t[1..], ys, y);
      } else {
        MergeNodesSplit(news[1..], n[1..], ts, t, ys, y);
      }
    }
  }

  // Only the timeline parts decide what is given back.
  lemma {:induction false} MergeGoneSplit(news: seq<Object>, n: seq<Ob>, ts: seq<Object>, t: seq<Ob>, ys: seq<Object>,
                                          y: seq<Ob>)
    requires |news| == |n| && |ts| == |t| && |ys| == |y| && AllTimeline(n) && AllTimeline(t) && AllDynamic(y)
    ensures MergeGone(news, n, ts + ys, t + y) == MergeGone(news, n, ts, t)
    decreases |n| + |t|
  {
    if t == [] || n == [] {
      SplitOneSided(news, n, ts, t, ys, y);
    } else {
      Tails(ts, ys);
      Tails(t, y);
      if n[0].depth > t[0].depth {
        MergeGoneSplit(news, n, ts[1..], t[1..], ys, y);
      } else if n[0].depth == t[0].depth {
        MergeGoneSplit(news[1..], n[1..], ts[1..], t[1..], ys, y);
      } else {
        MergeGoneSplit(news[1..], n[1..], ts, t, ys, y);
      }
    }
  }

  lemma {:induction false} MergeNodesOld(news: seq<Object>, n: seq<Ob>, ts: seq<Object>, t: seq<Ob>, i: nat, j: nat)
    requires |news| == |n| && |ts| == |t| && i < |n| && j < |t|
    requires Sorted(n) && Sorted(t) && AllTimeline(n) && AllTimeline(t)
    requires t[j].depth == n[i].depth && Reusable(n[i], t[j])
    ensures i < |MergeNodes(news, n, ts, t)| && MergeNodes(news, n, ts, t)[i] == ts[j]
    decreases |n| + |t|
  {
    hide Reusable;
    Steps(n, i);
    Steps(t, j);
    if n[0].depth > t[0].depth {
      MergeNodesOld(news, n, ts[1..], t[1..], i, j - 1);
    } else if n[0].depth < t[0].depth {
      MergeNodesOld(news[1..], n[1..], ts, t, i - 1, j);
    } else if i > 0 {
      MergeNodesOld(news[1..], n[1..], ts[1..], t[1..], i - 1, j - 1);
    }
  }

  lemma {:induction false} MergeNodesNew(news: seq<Object>, n: seq<Ob>, ts: seq<Object>, t: seq<Ob>, i: nat)
    requires |news| == |n| && |ts| == |t| && i < |n| && AllTimeline(n) && AllTimeline(t) && NoneReusable(n[i], t)
    ensures i < |MergeNodes(news, n, ts, t)| && MergeNodes(news, n, ts, t)[i] == news[i]
    decreases |n| + |t|
  {
    hide Reusable, AllTimeline;
    if t != [] {
      TailTimeline(t);
      NoneReusableTail(n[i], t);
      if n[0].depth > t[0].depth {
        MergeNodesNew(news, n, ts[1..], t[1..], i);
      } else if i > 0 {
        TailTimeline(n);
        var same := n[0].depth == t[0].depth;
        MergeNodesNew(news[1..], n[1..], if same then ts[1..] else ts, if same then t[1..] else t, i - 1);
      }
    }
  }

  // At each new depth: the old object itself if it is a compatible sprite, and the
  // new one otherwise.
  lemma MergeNodesPicks(news: seq<Object>, n: seq<Ob>, ts: seq<Object>, t: seq<Ob>, i: nat)
    requires |news| == |n| && |ts| == |t| && i < |n|
    requires Sorted(n) && Sorted(t) && AllTimeline(n) && AllTimeline(t)
    ensures |MergeNodes(news, n, ts, t)| == |n|
    ensures forall j :: 0 <= j < |t| && t[j].depth == n[i].depth && Reusable(n[i], t[j]) ==>
      MergeNodes(news, n, ts, t)[i] == ts[j]
    ensures NoneReusable(n[i], t) ==> MergeNodes(news, n, ts, t)[i] == news[i]
  {
    hide MergeNodes, Merge, Sorted, AllTimeline, Reusable;
    MergeLength(n, t);
    MergeOnTimeline(news, n, ts, t);
    forall j | 0 <= j < |t| && t[j].depth == n[i].depth && Reusable(n[i], t[j])
      ensures MergeNodes(news, n, ts, t)[i] == ts[j] {
      MergeNodesOld(news, n, ts, t, i, j);
    }
    if NoneReusable(n[i], t) {
      MergeNodesNew(news, n, ts, t, i);
    }
  }

  lemma {:induction false} MergeOnTimeline(news: seq<Object>, n: seq<Ob>, ts: seq<Object>, t: seq<Ob>)
    requires |news| == |n| && |ts| == |t| && AllTimeline(n) && AllTimeline(t)
    ensures AllTimeline(Merge(n, t)) && |MergeNodes(news, n, ts, t)| == |Merge(n, t)|
    decreases |n| + |t|
  {
    if n == [] {
      if t != [] {
        MergeOnTimeline([], [], ts[1..], t[1..]);
      }
    } else if t != [] {
      assert OnTimeline(n[0]) && OnTimeline(t[0]);
      if n[0].depth > t[0].depth {
        MergeOnTimeline(news, n, ts[1..], t[1..]);
      } else if n[0].depth == t[0].depth {
        MergeOnTimeline(news[1..], n[1..], ts[1..], t[1..]);
      } else {
        MergeOnTimeline(news[1..], n[1..], ts, t);
      }
    }
  }

  // ---- the objects at dynamic depths ------------------------------------------

  function DynamicNodes(s: seq<Object>, d: seq<Ob>): seq<Object> {
    if s == [] || d == [] || !OnTimeline(d[0]) then s else DynamicNodes(s[1..], d[1..])
  }

  // Two lists have the same dynamic objects, in the same order, holding the same.
  predicate SameDynamics(s: seq<Object>, d: seq<Ob>, s': seq<Object>, d': seq<Ob>) {
    DynamicNodes(s, d) == DynamicNodes(s', d') && DynamicPart(d) == DynamicPart(d')
  }

  lemma {:induction false} PastTimeline(s1: seq<Object>, d1: seq<Ob>, s2: seq<Object>, d2: seq<Ob>)
    requires |s1| == |d1| && AllTimeline(d1)
    ensures SameDynamics(s1 + s2, d1 + d2, s2, d2)
  {
    if d1 == [] {
      assert s1 + s2 == s2 && d1 + d2 == d2;
    } else {
      Tails(s1, s2);
      Tails(d1, d2);
      PastTimeline(s1[1..], d1[1..], s2, d2);
    }
  }

  // Whatever is done to timeline objects leaves the dynamic ones alone.
  lemma TimelineReplaced(s1: seq<Object>, d1: seq<Ob>, s1': seq<Object>, d1': seq<Ob>, s2: seq<Object>, d2: seq<Ob>)
    requires |s1| == |d1| && AllTimeline(d1) && |s1'| == |d1'| && AllTimeline(d1')
    ensures SameDynamics(s1 + s2, d1 + d2, s1' + s2, d1' + d2)
  {
    PastTimeline(s1, d1, s2, d2);
    PastTimeline(s1', d1', s2, d2);
  }

  lemma MountedDynamics(s: seq<Object>, d: seq<Ob>, k: nat, o: Object, x: Ob)
    requires |s| == |d| && k <= |d| && OnTimeline(x) && forall i :: 0 <= i < k ==> d[i].depth < x.depth
    ensures SameDynamics(s[..k] + [o] + s[k..], d[..k] + [x] + d[k..], s, d)
  {
    assert s == s[..k] + s[k..] && d == d[..k] + d[k..];
    TimelineReplaced(s[..k] + [o], d[..k] + [x], s[..k], d[..k], s[k..], d[k..]);
  }

  lemma UmountedDynamics(s: seq<Object>, d: seq<Ob>, k: nat)
    requires |s| == |d| && k < |d| && OnTimeline(d[k]) && forall i :: 0 <= i < k ==> d[i].depth < d[k].depth
    ensures SameDynamics(s[..k] + s[k + 1..], d[..k] + d[k + 1..], s, d)
  {
    assert s == s[..k + 1] + s[k + 1..] && d == d[..k + 1] + d[k + 1..];
    TimelineReplaced(s[..k], d[..k], s[..k + 1], d[..k + 1], s[k + 1..], d[k + 1..]);
  }

  lemma ChangedDynamics(s: seq<Object>, d: seq<Ob>, k: nat, x: Ob)
    requires |s| == |d| && k < |d| && OnTimeline(d[k]) && x.depth == d[k].depth
    requires forall i :: 0 <= i < k ==> d[i].depth < d[k].depth
    ensures SameDynamics(s, d[k := x], s, d)
  {
    var d' := d[k := x];
    assert s == s[..k + 1] + s[k + 1..] && d == d[..k + 1] + d[k + 1..] && d' == d'[..k + 1] + d[k + 1..];
    TimelineReplaced(s[..k + 1], d'[..k + 1], s[..k + 1], d[..k + 1], s[k + 1..], d[k + 1..]);
  }

  // After the merge the dynamic objects are those of the old list.
  lemma MergedDynamics(news: seq<Object>, n: seq<Ob>, olds: seq<Object>, o: seq<Ob>)
    requires |news| == |n| && |olds| == |o| && AllTimeline(n) && Sorted(o)
    ensures SameDynamics(MergeNodes(news, n, olds, o), Merge(n, o), olds, o)
  {
    hide *;
    Parts(o);
    var t, y := TimelinePart(o), DynamicPart(o);
    var ts, ys := olds[..|t|], olds[|t|..];
    assert olds == ts + ys;
    MergeSplit(n, t, y);
    MergeNodesSplit(news, n, ts, t, ys, y);
    MergeOnTimeline(news, n, ts, t);
    TimelineReplaced(MergeNodes(news, n, ts, t), Merge(n, t), ts, t, ys, y);
  }

  // Wherever the played list n has a sprite that one of the old list can stand
  // for, nodes has that old object.
  predicate KeepsSprites(n: seq<Ob>, olds: seq<Object>, o: seq<Ob>, nodes: seq<Object>) {
    |n| <= |nodes| && |olds| == |o| &&
    forall i, j :: 0 <= i < |n| && 0 <= j < |o| && n[i].depth == o[j].depth && Reusable(n[i], o[j]) ==>
      nodes[i] == olds[j]
  }

  lemma KeepsSpriteAt(news: seq<Object>, n: seq<Ob>, olds: seq<Object>, o: seq<Ob>, i: nat, j: nat)
    requires |news| == |n| && |olds| == |o| && AllTimeline(n) && Sorted(n) && Sorted(o)
    requires i < |n| && j < |o| && n[i].depth == o[j].depth && Reusable(n[i], o[j])
    ensures i < |MergeNodes(news, n, olds, o)| && MergeNodes(news, n, olds, o)[i] == olds[j]
  {
    hide MergeNodes, Sorted, TimelinePart, DynamicPart;
    Parts(o);
    var t, y := TimelinePart(o), DynamicPart(o);
    var ts, ys := olds[..|t|], olds[|t|..];
    assert olds == ts + ys;
    SortedPrefix(t, y);
    MergeNodesSplit(news, n, ts, t, ys, y);
    MergeNodesPicks(news, n, ts, t, i);
    InTimelinePart(t, y, j);
    assert olds[j] == ts[j];
  }

  lemma InTimelinePart(t: seq<Ob>, y: seq<Ob>, j: nat)
    requires AllDynamic(y) && j < |t + y| && OnTimeline((t + y)[j])
    ensures j < |t| && (t + y)[j] == t[j]
  {
  }

  lemma MergeKeepsSprites(news: seq<Object>, n: seq<Ob>, olds: seq<Object>, o: seq<Ob>)
    requires |news| == |n| && |olds| == |o| && AllTimeline(n) && Sorted(n) && Sorted(o)
    ensures KeepsSprites(n, olds, o, MergeNodes(news, n, olds, o))
  {
    hide MergeNodes, Sorted;
    MergeIsLong(news, n, olds, o);
    forall i, j | 0 <= i < |n| && 0 <= j < |o| && n[i].depth == o[j].depth && Reusable(n[i], o[j])
      ensures MergeNodes(news, n, olds, o)[i] == olds[j]
    {
      KeepsSpriteAt(news, n, olds, o, i, j);
    }
  }

  lemma {:induction false} MergeIsLong(news: seq<Object>, n: seq<Ob>, olds: seq<Object>, o: seq<Ob>)
    requires |news| == |n| && |olds| == |o|
    ensures |n| <= |MergeNodes(news, n, olds, o)|
    decreases |n| + |o|
  {
    if n != [] && o != [] {
      var old_ := if n[0].depth < o[0].depth then olds else olds[1..];
      var od := if n[0].depth < o[0].depth then o else o[1..];
      MergeIsLong(if n[0].depth > o[0].depth then news else news[1..],
                  if n[0].depth > o[0].depth then n else n[1..], old_, od);
    }
  }

  // What merging leaves: the data and objects of the list, and all given back.
  datatype Merged = Merged(d: seq<Ob>, nodes: seq<Object>, gone: seq<Object>)

  // The merge half done, as sequences: merged, rest of the new list, rest of the
  // old list, all objects given back so far; and what the first three hold.
  datatype MergeState = MergeState(done: seq<Object>, news: seq<Object>, olds: seq<Object>, gone: seq<Object>,
                                   d: seq<Ob>, n: seq<Ob>, o: seq<Ob>)
  {
    function Left(): nat {
      |news| + |olds|
    }

    ghost predicate Matched() {
      |d| == |done| && |n| == |news| && |o| == |olds|
    }

    function Live(): seq<Object> {
      done + news + olds
    }

    function Objects(): set<Object> {
      Elems(done) + Elems(news) + Elems(olds)
    }

    ghost predicate Separate() {
      Distinct(Live())
    }

    // The steps of the merge.
    function DropOld(): MergeState
      requires olds != [] && o != []
    {
      this.(olds := olds[1..], o := o[1..], gone := gone + [olds[0]])
    }

    function KeepOld(): MergeState
      requires olds != [] && o != []
    {
      this.(done := done + [olds[0]], d := d + [o[0]], olds := olds[1..], o := o[1..])
    }

    function KeepNew(): MergeState
      requires news != [] && n != []
    {
      this.(done := done + [news[0]], d := d + [n[0]], news := news[1..], n := n[1..])
    }

    function ReuseOld(): MergeState
      requires news != [] && n != [] && olds != [] && o != []
    {
      MergeState(done + [olds[0]], news[1..], olds[1..], gone + [news[0]], d + [Reuse(n[0], o[0])], n[1..], o[1..])
    }

    // All that is left of one list goes behind what is merged.
    function TakeOlds(): MergeState {
      this.(done := done + olds, olds := [], d := d + o, o := [])
    }

    function TakeNews(): MergeState {
      this.(done := done + news, news := [], d := d + n, n := [])
    }

    // Nothing is left to merge.
    ghost predicate IsMerged(goal: Merged) {
      news == [] && olds == [] && goal == Merged(d, done, gone)
    }

    // Merging the rest gives goal.
    ghost predicate Toward(goal: Merged) {
      && Matched()
      && d + Merge(n, o) == goal.d
      && done + MergeNodes(news, n, olds, o) == goal.nodes
      && gone + MergeGone(news, n, olds, o) == goal.gone
    }
  }

  // What a merge about to start comes to.
  function Goal(m: MergeState): Merged
    requires |m.n| == |m.news| && |m.o| == |m.olds|
  {
    Merged(m.d + Merge(m.n, m.o), m.done + MergeNodes(m.news, m.n, m.olds, m.o),
           m.gone + MergeGone(m.news, m.n, m.olds, m.o))
  }

  lemma Push<T>(a: seq<T>, x: T, b: seq<T>)
    ensures a + ([x] + b) == a + [x] + b
  {
  }

  lemma TowardDropOld(m: MergeState, goal: Merged)
    requires m.Toward(goal) && m.Matched() && m.olds != [] && OnTimeline(m.o[0])
    requires m.news != [] ==> m.n[0].depth > m.o[0].depth
    ensures m.DropOld().Toward(goal)
    ensures m.DropOld().Left() < m.Left() && m.DropOld().n == m.n
  {
    Push(m.gone, m.olds[0], MergeGone(m.news, m.n, m.olds[1..], m.o[1..]));
  }

  lemma TowardKeepOld(m: MergeState, goal: Merged)
    requires m.Toward(goal) && m.Matched() && m.olds != [] && m.news != [] && !OnTimeline(m.o[0])
    requires m.n[0].depth > m.o[0].depth
    ensures m.KeepOld().Toward(goal)
    ensures m.KeepOld().Left() < m.Left() && m.KeepOld().n == m.n
  {
    Push(m.d, m.o[0], Merge(m.n, m.o[1..]));
    Push(m.done, m.olds[0], MergeNodes(m.news, m.n, m.olds[1..], m.o[1..]));
  }

  lemma TowardKeepNew(m: MergeState, goal: Merged)
    requires m.Toward(goal) && m.Matched() && m.news != [] && (m.olds != [] ==> m.n[0].depth < m.o[0].depth)
    ensures m.KeepNew().Toward(goal)
    ensures m.KeepNew().Left() < m.Left() && m.KeepNew().n == m.n[1..]
  {
    NothingOld(m.news[1..], m.n[1..]);
    Push(m.d, m.n[0], Merge(m.n[1..], m.o));
    Push(m.done, m.news[0], MergeNodes(m.news[1..], m.n[1..], m.olds, m.o));
  }

  lemma NothingOld(news: seq<Object>, n: seq<Ob>)
    requires |news| == |n|
    ensures Merge(n, []) == n && MergeNodes(news, n, [], []) == news && MergeGone(news, n, [], []) == []
  {
  }

  lemma TowardReuseOld(m: MergeState, goal: Merged)
    requires m.Toward(goal) && m.Matched() && m.olds != [] && m.news != []
    requires m.n[0].depth == m.o[0].depth && Reusable(m.n[0], m.o[0])
    ensures m.ReuseOld().Toward(goal)
    ensures m.ReuseOld().Left() < m.Left() && m.ReuseOld().n == m.n[1..]
  {
    Push(m.d, Reuse(m.n[0], m.o[0]), Merge(m.n[1..], m.o[1..]));
    Push(m.done, m.olds[0], MergeNodes(m.news[1..], m.n[1..], m.olds[1..], m.o[1..]));
    Push(m.gone, m.news[0], MergeGone(m.news[1..], m.n[1..], m.olds[1..], m.o[1..]));
  }

  lemma TowardReplace(m: MergeState, goal: Merged)
    requires m.Toward(goal) && m.Matched() && m.olds != [] && m.news != []
    requires m.n[0].depth == m.o[0].depth && !Reusable(m.n[0], m.o[0])
    ensures m.DropOld().KeepNew().Toward(goal)
    ensures m.DropOld().news == m.news && m.DropOld().n == m.n
    ensures m.DropOld().KeepNew().Left() < m.Left() && m.DropOld().KeepNew().n == m.n[1..]
  {
    Push(m.d, m.n[0], Merge(m.n[1..], m.o[1..]));
    Push(m.done, m.news[0], MergeNodes(m.news[1..], m.n[1..], m.olds[1..], m.o[1..]));
    Push(m.gone, m.olds[0], MergeGone(m.news[1..], m.n[1..], m.olds[1..], m.o[1..]));
  }

  lemma TowardTakeOlds(m: MergeState, goal: Merged)
    requires m.Toward(goal) && m.news == [] && (m.o != [] ==> !OnTimeline(m.o[0])) && m.Separate()
    ensures m.TakeOlds().IsMerged(goal)
    ensures Elems(m.done + m.olds) == m.Objects() && Distinct(m.done + m.olds)
  {
    assert m.done + m.news + m.olds == m.done + m.olds;
  }

  lemma TowardTakeNews(m: MergeState, goal: Merged)
    requires m.Toward(goal) && m.news != [] && m.olds == [] && m.Separate()
    ensures m.TakeNews().IsMerged(goal)
    ensures Elems(m.done + m.news) == m.Objects() && Distinct(m.done + m.news)
  {
    assert m.done + m.news + m.olds == m.done + m.news;
  }

  predicate Apart(a: seq<Object>, b: seq<Object>) {
    forall i, j :: 0 <= i < |a| && 0 <= j < |b| ==> a[i] != b[j]
  }

  lemma SeparateParts(m: MergeState)
    requires m.Separate()
    ensures Apart(m.done, m.news) && Apart(m.done, m.olds) && Apart(m.news, m.olds)
    ensures Distinct(m.done) && Distinct(m.news) && Distinct(m.olds)
  {
    DistinctParts(m.done + m.news, m.olds);
    DistinctParts(m.done, m.news);
    assert forall i :: 0 <= i < |m.done| ==> (m.done + m.news)[i] == m.done[i];
    assert forall i :: 0 <= i < |m.news| ==> (m.done + m.news)[|m.done| + i] == m.news[i];
  }

  lemma SeparateFrom(m: MergeState)
    requires Apart(m.done, m.news) && Apart(m.done, m.olds) && Apart(m.news, m.olds)
    requires Distinct(m.done) && Distinct(m.news) && Distinct(m.olds)
    ensures m.Separate()
  {
  }

  lemma PopElems(s: seq<Object>)
    requires Distinct(s) && s != []
    ensures s[0] !in s[1..] && Distinct(s[1..]) && Elems(s[1..]) == Elems(s) - {s[0]} && s[0] in Elems(s)
  {
    assert s == [s[0]] + s[1..];
  }

  lemma PushElems(s: seq<Object>, o: Object)
    requires Distinct(s) && o !in s
    ensures Distinct(s + [o]) && Elems(s + [o]) == Elems(s) + {o}
  {
  }

  lemma DropOldParts(m: MergeState)
    requires m.Separate() && m.olds != [] && m.o != []
    ensures m.DropOld().Separate() && m.olds[0] in m.Objects()
    ensures m.DropOld().Objects() == m.Objects() - {m.olds[0]}
  {
    SeparateParts(m);
    PopElems(m.olds);
    SeparateFrom(m.DropOld());
  }

  lemma KeepNewParts(m: MergeState)
    requires m.Separate() && m.news != [] && m.n != []
    ensures m.KeepNew().Separate() && m.KeepNew().Objects() == m.Objects()
  {
    SeparateParts(m);
    PopElems(m.news);
    PushElems(m.done, m.news[0]);
    SeparateFrom(m.KeepNew());
  }

  lemma KeepOldParts(m: MergeState)
    requires m.Separate() && m.olds != [] && m.o != []
    ensures m.KeepOld().Separate() && m.KeepOld().Objects() == m.Objects()
    ensures Apart(m.done, m.news) && Apart(m.done, m.olds[1..]) && Distinct(m.done)
    ensures m.olds[0] !in m.done && m.olds[0] !in m.news && m.olds[0] !in m.olds[1..]
  {
    SeparateParts(m);
    PopElems(m.olds);
    PushElems(m.done, m.olds[0]);
    SeparateFrom(m.KeepOld());
  }

  lemma ReuseOldParts(m: MergeState)
    requires m.Separate() && m.olds != [] && m.news != [] && m.n != [] && m.o != []
    ensures m.ReuseOld().Separate() && m.news[0] in m.Objects() && m.olds[0] != m.news[0]
    ensures m.ReuseOld().Objects() == m.Objects() - {m.news[0]}
    ensures Apart(m.done, m.news[1..]) && Apart(m.done, m.olds[1..]) && Distinct(m.done)
    ensures m.olds[0] !in m.done && m.olds[0] !in m.news[1..] && m.olds[0] !in m.olds[1..]
  {
    SeparateParts(m);
    PopElems(m.olds);
    PopElems(m.news);
    PushElems(m.done, m.olds[0]);
    SeparateFrom(m.ReuseOld());
  }
}
