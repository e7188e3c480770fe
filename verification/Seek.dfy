// Seeking equals replaying: whatever sequence of advances, jumps and dynamic
// clones, the timeline part of the display is what the stream's first frames
// put on an empty display, but for the characters of sprites (module SeekSprites).
module Seek {
  import opened Timeline

  // What two objects at a depth have in common when one stands for the other:
  // everything the stream sets, but for the character of a sprite.
  datatype Face = Face(depth: nat, kind: Kind, ratio: nat, clip: nat, transform: Transform, character: nat)

  function FaceOf(o: Ob): Face {
    Face(o.depth, o.kind, o.ratio, o.clip, o.transform, if o.kind == Sprite then 0 else o.character)
  }

  predicate SameFaces(a: seq<Ob>, b: seq<Ob>) {
    |a| == |b| && forall i :: 0 <= i < |a| ==> FaceOf(a[i]) == FaceOf(b[i])
  }

  predicate Unscripted(d: seq<Ob>) {
    forall i :: 0 <= i < |d| ==> !d[i].scripted
  }

  // Two displays no command can tell apart.
  predicate Alike(a: seq<Ob>, b: seq<Ob>) {
    SameFaces(a, b) && Unscripted(a) && Unscripted(b)
  }

  lemma AlikeCons(x: Ob, a: seq<Ob>, y: Ob, b: seq<Ob>)
    requires FaceOf(x) == FaceOf(y) && !x.scripted && !y.scripted && Alike(a, b)
    ensures Alike([x] + a, [y] + b)
  {
  }

  lemma AlikeTail(a: seq<Ob>, b: seq<Ob>)
    requires Alike(a, b) && a != []
    ensures b != [] && FaceOf(a[0]) == FaceOf(b[0]) && !a[0].scripted && !b[0].scripted && Alike(a[1..], b[1..])
  {
    assert forall i :: 0 <= i < |a[1..]| ==> a[1..][i] == a[i + 1] && b[1..][i] == b[i + 1];
  }

  lemma ChangePlaceAlike(x: Ob, y: Ob, pi: Place)
    requires FaceOf(x) == FaceOf(y) && !x.scripted && !y.scripted
    ensures FaceOf(ChangePlace(x, pi)) == FaceOf(ChangePlace(y, pi))
    ensures !ChangePlace(x, pi).scripted && !ChangePlace(y, pi).scripted
  {
  }

  lemma {:induction false} MountAlike(a: seq<Ob>, b: seq<Ob>, o: Ob)
    requires Alike(a, b) && !o.scripted
    ensures Alike(Mount(a, o), Mount(b, o))
  {
    if a != [] {
      AlikeTail(a, b);
      if a[0].depth >= o.depth {
        AlikeCons(o, a, o, b);
      } else {
        MountAlike(a[1..], b[1..], o);
        AlikeCons(a[0], Mount(a[1..], o), b[0], Mount(b[1..], o));
      }
    }
  }

  lemma {:induction false} UmountAlike(a: seq<Ob>, b: seq<Ob>, depth: nat)
    requires Alike(a, b)
    ensures Alike(Umount(a, depth), Umount(b, depth))
  {
    if a != [] {
      AlikeTail(a, b);
      if a[0].depth < depth {
        UmountAlike(a[1..], b[1..], depth);
        AlikeCons(a[0], Umount(a[1..], depth), b[0], Umount(b[1..], depth));
      }
    }
  }

  lemma {:induction false} ChangeAlike(a: seq<Ob>, b: seq<Ob>, pi: Place)
    requires Alike(a, b)
    ensures Alike(Change(a, pi), Change(b, pi))
  {
    if a != [] {
      AlikeTail(a, b);
      if a[0].depth < pi.depth {
        ChangeAlike(a[1..], b[1..], pi);
        AlikeCons(a[0], Change(a[1..], pi), b[0], Change(b[1..], pi));
      } else if a[0].depth == pi.depth {
        ChangePlaceAlike(a[0], b[0], pi);
        AlikeCons(ChangePlace(a[0], pi), a[1..], ChangePlace(b[0], pi), b[1..]);
      }
    }
  }

  lemma TagAlike(a: seq<Ob>, b: seq<Ob>, tag: Tag)
    requires Alike(a, b)
    ensures Alike(ApplyTag(a, tag), ApplyTag(b, tag))
  {
    match tag
    case PlaceTag(pi) =>
      if pi.move { ChangeAlike(a, b, pi); } else { MountAlike(a, b, NewOb(pi)); }
    case RemoveTag(depth) => UmountAlike(a, b, depth);
  }

  lemma {:induction false} FrameAlike(a: seq<Ob>, b: seq<Ob>, frame: Frame)
    requires Alike(a, b)
    ensures Alike(PlayFrame(a, frame), PlayFrame(b, frame))
    ensures FrameLegal(a, frame) <==> FrameLegal(b, frame)
    decreases |frame|
  {
    if frame != [] {
      TagAlike(a, b, frame[0]);
      FrameAlike(ApplyTag(a, frame[0]), ApplyTag(b, frame[0]), frame[1..]);
      OccupiedAlike(a, b, frame[0]);
    }
  }

  lemma OccupiedAlike(a: seq<Ob>, b: seq<Ob>, tag: Tag)
    requires Alike(a, b)
    ensures TagLegal(a, tag) <==> TagLegal(b, tag)
  {
    if tag.PlaceTag? {
      forall i | 0 <= i < |a| ensures a[i].depth == b[i].depth {
        assert FaceOf(a[i]) == FaceOf(b[i]);
      }
    }
  }

  // ---- timeline and dynamic parts -------------------------------------------

  function TimelinePart(d: seq<Ob>): seq<Ob> {
    if d == [] || !OnTimeline(d[0]) then [] else [d[0]] + TimelinePart(d[1..])
  }

  function DynamicPart(d: seq<Ob>): seq<Ob> {
    if d == [] || !OnTimeline(d[0]) then d else DynamicPart(d[1..])
  }

  lemma {:induction false} PartsOf(t: seq<Ob>, y: seq<Ob>)
    requires AllTimeline(t) && AllDynamic(y)
    ensures TimelinePart(t + y) == t && DynamicPart(t + y) == y
  {
    if t == [] {
      assert t + y == y;
    } else {
      assert (t + y)[1..] == t[1..] + y;
      PartsOf(t[1..], y);
    }
  }

  lemma {:induction false} PartsJoin(d: seq<Ob>)
    ensures d == TimelinePart(d) + DynamicPart(d)
  {
    if d != [] && OnTimeline(d[0]) {
      PartsJoin(d[1..]);
    }
  }

  lemma {:induction false} TimelineParts(d: seq<Ob>)
    ensures AllTimeline(TimelinePart(d))
  {
    if d != [] && OnTimeline(d[0]) {
      TimelineParts(d[1..]);
    }
  }

  lemma {:induction false} DynamicParts(d: seq<Ob>)
    requires Sorted(d)
    ensures AllDynamic(DynamicPart(d))
  {
    if d != [] && OnTimeline(d[0]) {
      SortedTail(d);
      DynamicParts(d[1..]);
    }
  }

  lemma Parts(d: seq<Ob>)
    requires Sorted(d)
    ensures d == TimelinePart(d) + DynamicPart(d)
    ensures AllTimeline(TimelinePart(d)) && AllDynamic(DynamicPart(d))
  {
    PartsJoin(d);
    TimelineParts(d);
    DynamicParts(d);
  }

  // Commands of the stream work on the timeline part alone.
  lemma {:induction false} MountSplit(t: seq<Ob>, y: seq<Ob>, o: Ob)
    requires AllDynamic(y) && OnTimeline(o)
    ensures Mount(t + y, o) == Mount(t, o) + y
  {
    if t == [] {
      assert t + y == y;
    } else {
      assert (t + y)[1..] == t[1..] + y;
      if t[0].depth < o.depth { MountSplit(t[1..], y, o); }
    }
  }

  lemma {:induction false} UmountSplit(t: seq<Ob>, y: seq<Ob>, depth: nat)
    requires AllDynamic(y) && depth < TIMELINE_DEPTHS
    ensures Umount(t + y, depth) == Umount(t, depth) + y
  {
    if t == [] {
      assert t + y == y;
    } else {
      assert (t + y)[1..] == t[1..] + y;
      if t[0].depth < depth { UmountSplit(t[1..], y, depth); }
    }
  }

  lemma {:induction false} ChangeSplit(t: seq<Ob>, y: seq<Ob>, pi: Place)
    requires AllDynamic(y) && pi.depth < TIMELINE_DEPTHS
    ensures Change(t + y, pi) == Change(t, pi) + y
  {
    if t == [] {
      assert t + y == y;
    } else {
      assert (t + y)[1..] == t[1..] + y;
      if t[0].depth < pi.depth { ChangeSplit(t[1..], y, pi); }
    }
  }

  lemma {:induction false} MountTimeline(t: seq<Ob>, o: Ob)
    requires AllTimeline(t) && OnTimeline(o)
    ensures AllTimeline(Mount(t, o))
  {
    if t != [] && t[0].depth < o.depth { MountTimeline(t[1..], o); }
  }

  lemma {:induction false} UmountTimeline(t: seq<Ob>, depth: nat)
    requires AllTimeline(t)
    ensures AllTimeline(Umount(t, depth))
  {
    if t != [] && t[0].depth < depth { UmountTimeline(t[1..], depth); }
  }

  lemma TagSplit(t: seq<Ob>, y: seq<Ob>, tag: Tag)
    requires AllTimeline(t) && AllDynamic(y) && TagLegal(t, tag)
    ensures ApplyTag(t + y, tag) == ApplyTag(t, tag) + y && AllTimeline(ApplyTag(t, tag))
    ensures TagLegal(t + y, tag)
  {
    match tag
    case PlaceTag(pi) =>
      if pi.move {
        ChangeSplit(t, y, pi);
        ChangeDepths(t, pi);
      } else {
        MountSplit(t, y, NewOb(pi));
        MountTimeline(t, NewOb(pi));
      }
    case RemoveTag(depth) =>
      UmountSplit(t, y, depth);
      UmountTimeline(t, depth);
  }

  lemma {:induction false} FrameSplit(t: seq<Ob>, y: seq<Ob>, frame: Frame)
    requires AllTimeline(t) && AllDynamic(y) && FrameLegal(t, frame)
    ensures PlayFrame(t + y, frame) == PlayFrame(t, frame) + y && AllTimeline(PlayFrame(t, frame))
    ensures FrameLegal(t + y, frame)
    decreases |frame|
  {
    if frame != [] {
      TagSplit(t, y, frame[0]);
      FrameSplit(ApplyTag(t, frame[0]), y, frame[1..]);
    }
  }

  // ---- playing on -----------------------------------------------------------

  lemma {:induction false} PlayFramesSnoc(d: seq<Ob>, frames: seq<Frame>, at: nat, n: nat)
    requires at + n < |frames|
    ensures PlayFrames(d, frames, at, n + 1) == PlayFrame(PlayFrames(d, frames, at, n), frames[at + n])
    decreases n
  {
    hide PlayFrame;
    if n > 0 {
      PlayFramesSnoc(PlayFrame(d, frames[at]), frames, at + 1, n - 1);
    }
  }

  // The display is the replay of the first k frames, up to what is in a face,
  // with dynamic objects y on top.
  ghost predicate Shows(d: seq<Ob>, frames: seq<Frame>, k: nat, t: seq<Ob>, y: seq<Ob>)
    requires k <= |frames|
  {
    && d == t + y && AllTimeline(t) && AllDynamic(y) && Sorted(d)
    && Alike(t, Replay(frames, k))
  }

  lemma ShowsNext(d: seq<Ob>, frames: seq<Frame>, k: nat, t: seq<Ob>, y: seq<Ob>)
    requires k < |frames| && StreamLegal(frames) && Shows(d, frames, k, t, y)
    ensures Shows(PlayFrame(d, frames[k]), frames, k + 1, PlayFrame(t, frames[k]), y)
    ensures FrameLegal(d, frames[k])
  {
    FrameAlike(t, Replay(frames, k), frames[k]);
    FrameSplit(t, y, frames[k]);
    PlayFrameSorted(d, frames[k]);
    PlayFramesSnoc([], frames, 0, k);
  }

  // A display that shows k frames shows k + n after playing the next n.
  lemma {:induction false} ShowsOn(d: seq<Ob>, frames: seq<Frame>, k: nat, n: nat, t: seq<Ob>, y: seq<Ob>)
    returns (t': seq<Ob>)
    requires k + n <= |frames| && StreamLegal(frames) && Shows(d, frames, k, t, y)
    ensures Shows(PlayFrames(d, frames, k, n), frames, k + n, t', y) && t' == PlayFrames(t, frames, k, n)
    decreases n
  {
    if n == 0 {
      t' := t;
    } else {
      ShowsNext(d, frames, k, t, y);
      t' := ShowsOn(PlayFrame(d, frames[k]), frames, k + 1, n - 1, PlayFrame(t, frames[k]), y);
    }
  }

  lemma ReplayShows(frames: seq<Frame>, k: nat)
    requires k <= |frames| && StreamLegal(frames)
    ensures Shows(Replay(frames, k), frames, k, Replay(frames, k), [])
    ensures Unscripted(Replay(frames, k)) && AllTimeline(Replay(frames, k)) && Sorted(Replay(frames, k))
  {
    var t := ShowsOn([], frames, 0, k, [], []);
    assert t + [] == t;
  }

  // ---- the merge ------------------------------------------------------------

  lemma {:induction false} SkipAllTimeline(t: seq<Ob>, y: seq<Ob>)
    requires AllTimeline(t) && AllDynamic(y)
    ensures SkipTimeline(t + y) == y
  {
    if t == [] {
      assert t + y == y;
    } else {
      assert (t + y)[1..] == t[1..] + y;
      SkipAllTimeline(t[1..], y);
    }
  }

  lemma {:induction false} MergeDynamic(ob: seq<Ob>, y: seq<Ob>)
    requires AllTimeline(ob) && AllDynamic(y)
    ensures Merge(ob, y) == ob + y
  {
    if ob == [] {
      SkipAllTimeline([], y);
      assert [] + y == y;
    } else if y != [] {
      assert OnTimeline(ob[0]) && !OnTimeline(y[0]);
      MergeDynamic(ob[1..], y);
      assert [ob[0]] + (ob[1..] + y) == ob + y;
    }
  }

  lemma Tails<T>(a: seq<T>, b: seq<T>)
    requires a != []
    ensures a + b != [] && (a + b)[0] == a[0] && (a + b)[1..] == a[1..] + b
  {
  }

  // Every old dynamic object comes after what is merged below.
  lemma {:induction false} MergeSplit(ob: seq<Ob>, t: seq<Ob>, y: seq<Ob>)
    requires AllTimeline(ob) && AllTimeline(t) && AllDynamic(y)
    ensures Merge(ob, t + y) == Merge(ob, t) + y
    decreases |ob| + |t|
  {
    hide Head, Reuse, Reusable;
    if t == [] {
      assert t + y == y;
      MergeDynamic(ob, y);
      MergeDynamic(ob, []);
    } else if ob == [] {
      SkipAllTimeline(t, y);
      SkipAllTimeline(t, []);
      assert t + [] == t;
    } else {
      Tails(t, y);
      MergeHead(ob, t);
      MergeHead(ob, t + y);
      var ob', t' := if ob[0].depth > t[0].depth then ob else ob[1..], if ob[0].depth < t[0].depth then t else t[1..];
      assert t' + y == if ob[0].depth < t[0].depth then t + y else (t + y)[1..];
      MergeSplit(ob', t', y);
      Regroup(Head(ob[0], t[0]), Merge(ob', t'), y);
    }
  }

  lemma Regroup<T>(a: seq<T>, b: seq<T>, c: seq<T>)
    ensures a + (b + c) == a + b + c
  {
  }

  // What the merge puts on the list first, when the old object is the stream's.
  function Head(o: Ob, old_: Ob): seq<Ob> {
    if o.depth > old_.depth then []
    else if o.depth == old_.depth then [if Reusable(o, old_) then Reuse(o, old_) else o]
    else [o]
  }

  lemma MergeHead(ob: seq<Ob>, t: seq<Ob>)
    requires ob != [] && t != [] && OnTimeline(t[0])
    ensures Merge(ob, t) == Head(ob[0], t[0])
      + Merge(if ob[0].depth > t[0].depth then ob else ob[1..], if ob[0].depth < t[0].depth then t else t[1..])
  {
  }

  // Merging a replayed timeline with an old one gives the replay's faces back.
  lemma {:induction false} MergeAlike(ob: seq<Ob>, t: seq<Ob>)
    requires AllTimeline(ob) && AllTimeline(t) && Unscripted(ob) && Unscripted(t)
    ensures Alike(Merge(ob, t), ob) && AllTimeline(Merge(ob, t))
    decreases |ob| + |t|
  {
    if ob == [] {
      SkipAllTimeline(t, []);
      assert t + [] == t;
    } else if t != [] {
      if ob[0].depth > t[0].depth {
        MergeAlike(ob, t[1..]);
      } else {
        var rest := if ob[0].depth == t[0].depth then t[1..] else t;
        var x := if ob[0].depth == t[0].depth && Reusable(ob[0], t[0]) then Reuse(ob[0], t[0]) else ob[0];
        MergeAlike(ob[1..], rest);
        AlikeCons(x, Merge(ob[1..], rest), ob[0], ob[1..]);
      }
    }
  }

  lemma {:induction false} MergeLength(ob: seq<Ob>, t: seq<Ob>)
    requires AllTimeline(ob) && AllTimeline(t)
    ensures |Merge(ob, t)| == |ob|
    decreases |ob| + |t|
  {
    if ob == [] {
      if t != [] {
        MergeLength([], t[1..]);
      }
    } else if t != [] {
      assert OnTimeline(t[0]);
      MergeLength(if ob[0].depth > t[0].depth then ob else ob[1..], if ob[0].depth < t[0].depth then t else t[1..]);
    }
  }

  // The step of the merge that decides the place of ob[i].
  lemma {:induction false} MergePicksOld(ob: seq<Ob>, t: seq<Ob>, i: nat, j: nat)
    requires Sorted(ob) && Sorted(t) && AllTimeline(ob) && AllTimeline(t) && i < |ob| && j < |t|
    requires t[j].depth == ob[i].depth && Reusable(ob[i], t[j])
    ensures i < |Merge(ob, t)| && Merge(ob, t)[i] == Reuse(ob[i], t[j])
    decreases |ob| + |t|
  {
    hide Reuse, Reusable;
    Steps(ob, i);
    Steps(t, j);
    if ob[0].depth > t[0].depth {
      MergePicksOld(ob, t[1..], i, j - 1);
    } else if ob[0].depth < t[0].depth {
      MergePicksOld(ob[1..], t, i - 1, j);
    } else if i > 0 {
      MergePicksOld(ob[1..], t[1..], i - 1, j - 1);
    }
  }

  // The first element of a sorted list is the lowest.
  lemma Steps(d: seq<Ob>, i: nat)
    requires Sorted(d) && AllTimeline(d) && i < |d|
    ensures d[0].depth <= d[i].depth && (d[0].depth == d[i].depth ==> i == 0)
    ensures Sorted(d[1..]) && AllTimeline(d[1..]) && OnTimeline(d[0]) && (i > 0 ==> d[1..][i - 1] == d[i])
  {
  }

  predicate NoneReusable(o: Ob, t: seq<Ob>) {
    forall j :: 0 <= j < |t| ==> !(t[j].depth == o.depth && Reusable(o, t[j]))
  }

  lemma {:induction false} MergePicksNew(ob: seq<Ob>, t: seq<Ob>, i: nat)
    requires AllTimeline(ob) && AllTimeline(t) && i < |ob| && NoneReusable(ob[i], t)
    ensures i < |Merge(ob, t)| && Merge(ob, t)[i] == ob[i]
    decreases |ob| + |t|
  {
    hide Reuse, Reusable, AllTimeline;
    if t != [] {
      TailTimeline(t);
      NoneReusableTail(ob[i], t);
      if ob[0].depth > t[0].depth {
        MergePicksNew(ob, t[1..], i);
      } else if i > 0 {
        TailTimeline(ob);
        MergePicksNew(ob[1..], if ob[0].depth == t[0].depth then t[1..] else t, i - 1);
      }
    }
  }

  lemma TailTimeline(d: seq<Ob>)
    requires AllTimeline(d) && d != []
    ensures AllTimeline(d[1..]) && OnTimeline(d[0])
  {
  }

  lemma NoneReusableTail(o: Ob, t: seq<Ob>)
    requires NoneReusable(o, t) && t != []
    ensures NoneReusable(o, t[1..]) && !(t[0].depth == o.depth && Reusable(o, t[0]))
  {
    assert forall j :: 0 <= j < |t[1..]| ==> t[1..][j] == t[j + 1];
  }

  // At each new depth the merge keeps the old object if it is a compatible
  // sprite, with the new transform, and the new object otherwise.
  lemma MergePicks(ob: seq<Ob>, t: seq<Ob>, i: nat)
    requires Sorted(ob) && Sorted(t) && AllTimeline(ob) && AllTimeline(t) && i < |ob|
    ensures |Merge(ob, t)| == |ob|
    ensures forall j :: 0 <= j < |t| && t[j].depth == ob[i].depth && Reusable(ob[i], t[j]) ==>
      Merge(ob, t)[i] == Reuse(ob[i], t[j])
    ensures NoneReusable(ob[i], t) ==> Merge(ob, t)[i] == ob[i]
  {
    hide Merge, Sorted, AllTimeline, Reuse, Reusable;
    MergeLength(ob, t);
    forall j | 0 <= j < |t| && t[j].depth == ob[i].depth && Reusable(ob[i], t[j])
      ensures Merge(ob, t)[i] == Reuse(ob[i], t[j]) {
      MergePicksOld(ob, t, i, j);
    }
    if NoneReusable(ob[i], t) {
      MergePicksNew(ob, t, i);
    }
  }

  // ---- runs -----------------------------------------------------------------

  // The sprite's fields; rewound records whether it has ever been rewound.
  datatype State = State(display: seq<Ob>, cframe: int, tagpos: nat, stopped: bool, rewound: bool)

  // A new sprite whose frame counter reads c0.
  function Start(c0: int): State {
    State([], c0, 0, false, false)
  }

  // sprite_goto_frame
  function Goto(s: State, frames: seq<Frame>, frame: nat): State
    requires frame < |frames| && (frame > s.cframe ==> s.tagpos + (frame - s.cframe) <= |frames|)
  {
    if frame < s.cframe then
      State(Merge(Replay(frames, frame + 1), s.display), frame, frame + 1, s.stopped, true)
    else if frame > s.cframe then
      var n := frame - s.cframe;
      s.(display := PlayFrames(s.display, frames, s.tagpos, n), cframe := frame, tagpos := s.tagpos + n)
    else s
  }

  // The frame sprite_advance goes to.
  function NextFrame(s: State, nframe: nat): int {
    if s.cframe + 1 == nframe then 0 else s.cframe + 1
  }

  // sprite_clone to a dynamic depth, and script removal of what is there.
  datatype Op = GotoFrame(frame: nat) | Advance | SetStopped(stopped: bool) | CloneTo(o: Ob) | ScriptRemove(depth: nat)

  predicate Allowed(frames: seq<Frame>, op: Op) {
    match op
    case GotoFrame(frame) => frame < |frames|
    case CloneTo(o) => !OnTimeline(o)
    case ScriptRemove(depth) => depth >= TIMELINE_DEPTHS
    case _ => true
  }

  function Perform(s: State, frames: seq<Frame>, op: Op): (r: State)
    requires Allowed(frames, op) && frames != [] && Position(s, frames)
    ensures Position(r, frames)
  {
    match op
    case GotoFrame(frame) => Goto(s, frames, frame)
    case Advance => if s.stopped then s else Goto(s, frames, NextFrame(s, |frames|))
    case SetStopped(stopped) => s.(stopped := stopped)
    case CloneTo(o) => s.(display := Mount(Umount(s.display, o.depth), o))
    case ScriptRemove(depth) => s.(display := Umount(s.display, depth))
  }

  // The counters stay in range.
  predicate Position(s: State, frames: seq<Frame>) {
    -1 <= s.cframe < |frames| && s.tagpos <= s.cframe + 1
  }

  // How far the stream position is behind the frame counter: a sprite never
  // rewound keeps the offset its counter started with.
  predicate Offset(s: State, c0: int) {
    s.tagpos == s.cframe + 1 - (if s.rewound then 0 else c0 + 1)
  }

  ghost predicate InSync(s: State, frames: seq<Frame>, c0: int) {
    && Position(s, frames) && Offset(s, c0)
    && Shows(s.display, frames, s.tagpos, TimelinePart(s.display), DynamicPart(s.display))
  }

  lemma GotoInSync(s: State, frames: seq<Frame>, c0: int, frame: nat)
    requires StreamLegal(frames) && frame < |frames| && -1 <= c0 && InSync(s, frames, c0)
    ensures InSync(Goto(s, frames, frame), frames, c0)
    ensures DynamicPart(Goto(s, frames, frame).display) == DynamicPart(s.display)
  {
    hide Shows, StreamLegal, TimelinePart, DynamicPart, PlayFrames, Merge, Replay;
    var s' := Goto(s, frames, frame);
    if frame < s.cframe {
      var d := Merge(Replay(frames, frame + 1), s.display);
      RewindShows(s, frames, frame);
      assert s' == State(d, frame, frame + 1, s.stopped, true);
    } else if frame > s.cframe {
      var n := frame - s.cframe;
      ForwardShows(s, frames, n);
      var d := PlayFrames(s.display, frames, s.tagpos, n);
      assert s' == s.(display := d, cframe := frame, tagpos := s.tagpos + n);
    }
  }

  lemma ForwardShows(s: State, frames: seq<Frame>, n: nat)
    requires StreamLegal(frames) && s.tagpos + n <= |frames|
    requires Shows(s.display, frames, s.tagpos, TimelinePart(s.display), DynamicPart(s.display))
    ensures var d := PlayFrames(s.display, frames, s.tagpos, n);
      Shows(d, frames, s.tagpos + n, TimelinePart(d), DynamicPart(d)) && DynamicPart(d) == DynamicPart(s.display)
  {
    var t' := ShowsOn(s.display, frames, s.tagpos, n, TimelinePart(s.display), DynamicPart(s.display));
    PartsOf(t', DynamicPart(s.display));
  }

  lemma RewindShows(s: State, frames: seq<Frame>, frame: nat)
    requires StreamLegal(frames) && frame < |frames| && s.tagpos <= |frames|
    requires Shows(s.display, frames, s.tagpos, TimelinePart(s.display), DynamicPart(s.display))
    ensures var d := Merge(Replay(frames, frame + 1), s.display);
      Shows(d, frames, frame + 1, TimelinePart(d), DynamicPart(d)) && DynamicPart(d) == DynamicPart(s.display)
  {
    var t, y := TimelinePart(s.display), DynamicPart(s.display);
    var ob := Replay(frames, frame + 1);
    ReplayShows(frames, frame + 1);
    MergeSplit(ob, t, y);
    MergeAlike(ob, t);
    PartsOf(Merge(ob, t), y);
    SortedSuffix(t, y);
    AlikeSorted(ob, Merge(ob, t), y);
  }

  lemma SortedSuffix(t: seq<Ob>, y: seq<Ob>)
    requires Sorted(t + y)
    ensures Sorted(y)
  {
    assert forall i :: 0 <= i < |y| ==> (t + y)[|t| + i] == y[i];
  }

  lemma AlikeSorted(a: seq<Ob>, b: seq<Ob>, y: seq<Ob>)
    requires Alike(b, a) && Sorted(a) && AllTimeline(b) && AllDynamic(y) && Sorted(y)
    ensures Sorted(b + y)
  {
    forall i | 0 <= i < |b| ensures b[i].depth == a[i].depth {
      assert FaceOf(b[i]) == FaceOf(a[i]);
    }
  }

  lemma {:induction false} MountAbove(t: seq<Ob>, y: seq<Ob>, o: Ob)
    requires AllTimeline(t) && !OnTimeline(o)
    ensures Mount(t + y, o) == t + Mount(y, o)
  {
    if t == [] {
      assert t + y == y;
    } else {
      assert (t + y)[1..] == t[1..] + y;
      MountAbove(t[1..], y, o);
    }
  }

  lemma {:induction false} UmountAbove(t: seq<Ob>, y: seq<Ob>, depth: nat)
    requires AllTimeline(t) && depth >= TIMELINE_DEPTHS
    ensures Umount(t + y, depth) == t + Umount(y, depth)
  {
    if t == [] {
      assert t + y == y;
    } else {
      assert (t + y)[1..] == t[1..] + y;
      UmountAbove(t[1..], y, depth);
    }
  }

  lemma {:induction false} UmountDynamic(y: seq<Ob>, depth: nat)
    requires AllDynamic(y) && Sorted(y)
    ensures AllDynamic(Umount(y, depth)) && !Occupied(Umount(y, depth), depth)
  {
    if y != [] {
      SortedTail(y);
      if y[0].depth < depth {
        UmountDynamic(y[1..], depth);
      } else if y[0].depth > depth {
        assert forall i :: 0 < i < |y| ==> y[i] == y[1..][i - 1];
      }
    }
  }

  lemma {:induction false} MountDynamic(y: seq<Ob>, o: Ob)
    requires AllDynamic(y) && !OnTimeline(o)
    ensures AllDynamic(Mount(y, o))
  {
    if y != [] && y[0].depth < o.depth { MountDynamic(y[1..], o); }
  }

  lemma SortedParts(t: seq<Ob>, y: seq<Ob>, y': seq<Ob>)
    requires AllTimeline(t) && AllDynamic(y') && Sorted(t + y) && Sorted(y')
    ensures Sorted(t + y')
  {
    assert forall i :: 0 <= i < |t| ==> (t + y)[i] == t[i];
  }

  // What a script does at a dynamic depth stays in the dynamic part.
  function DynamicChange(y: seq<Ob>, op: Op): seq<Ob>
    requires op.CloneTo? || op.ScriptRemove?
  {
    if op.CloneTo? then Mount(Umount(y, op.o.depth), op.o) else Umount(y, op.depth)
  }

  lemma DynamicChangeKeeps(y: seq<Ob>, frames: seq<Frame>, op: Op)
    requires Allowed(frames, op) && (op.CloneTo? || op.ScriptRemove?) && AllDynamic(y) && Sorted(y)
    ensures AllDynamic(DynamicChange(y, op)) && Sorted(DynamicChange(y, op))
  {
    var depth := if op.CloneTo? then op.o.depth else op.depth;
    UmountSorted(y, depth, -1);
    UmountDynamic(y, depth);
    if op.CloneTo? {
      MountSorted(Umount(y, depth), op.o, -1);
      MountDynamic(Umount(y, depth), op.o);
    }
  }

  lemma DynamicChangeSplit(t: seq<Ob>, y: seq<Ob>, frames: seq<Frame>, op: Op)
    requires Allowed(frames, op) && (op.CloneTo? || op.ScriptRemove?) && AllTimeline(t)
    ensures DynamicChange(t + y, op) == t + DynamicChange(y, op)
  {
    var depth := if op.CloneTo? then op.o.depth else op.depth;
    UmountAbove(t, y, depth);
    if op.CloneTo? {
      MountAbove(t, Umount(y, depth), op.o);
    }
  }

  lemma DynamicInSync(s: State, frames: seq<Frame>, c0: int, op: Op)
    requires Allowed(frames, op) && (op.CloneTo? || op.ScriptRemove?) && frames != [] && InSync(s, frames, c0)
    ensures InSync(Perform(s, frames, op), frames, c0)
  {
    var t, y := TimelinePart(s.display), DynamicPart(s.display);
    SortedSuffix(t, y);
    DynamicChangeKeeps(y, frames, op);
    DynamicChangeSplit(t, y, frames, op);
    SortedParts(t, y, DynamicChange(y, op));
    PartsOf(t, DynamicChange(y, op));
    assert Perform(s, frames, op) == s.(display := t + DynamicChange(y, op));
  }

  lemma PerformInSync(s: State, frames: seq<Frame>, c0: int, op: Op)
    requires StreamLegal(frames) && frames != [] && -1 <= c0 && Allowed(frames, op) && InSync(s, frames, c0)
    ensures InSync(Perform(s, frames, op), frames, c0)
  {
    match op
    case GotoFrame(frame) => GotoInSync(s, frames, c0, frame);
    case Advance => if !s.stopped { GotoInSync(s, frames, c0, NextFrame(s, |frames|)); }
    case SetStopped(_) =>
    case CloneTo(_) => DynamicInSync(s, frames, c0, op);
    case ScriptRemove(_) => DynamicInSync(s, frames, c0, op);
  }

  // s' is reached from s by the operations.
  predicate Runs(s: State, frames: seq<Frame>, ops: seq<Op>, s': State)
    requires frames != [] && Position(s, frames)
    decreases |ops|
  {
    if ops == [] then s' == s
    else Allowed(frames, ops[0]) && Runs(Perform(s, frames, ops[0]), frames, ops[1..], s')
  }

  lemma {:induction false} RunInSync(s: State, frames: seq<Frame>, c0: int, ops: seq<Op>, s': State)
    requires StreamLegal(frames) && frames != [] && -1 <= c0 && InSync(s, frames, c0) && Runs(s, frames, ops, s')
    ensures InSync(s', frames, c0)
    decreases |ops|
  {
    if ops != [] {
      PerformInSync(s, frames, c0, ops[0]);
      RunInSync(Perform(s, frames, ops[0]), frames, c0, ops[1..], s');
    }
  }

  lemma StartInSync(frames: seq<Frame>, c0: int)
    requires -1 <= c0 < |frames|
    ensures InSync(Start(c0), frames, c0)
  {
  }

  lemma InSyncMeans(s: State, frames: seq<Frame>, c0: int)
    requires InSync(s, frames, c0)
    ensures Position(s, frames) && Offset(s, c0) && SameFaces(TimelinePart(s.display), Replay(frames, s.tagpos))
    ensures s.display == TimelinePart(s.display) + DynamicPart(s.display) && Sorted(s.display)
  {
  }

  // Seek equals replay.  After any run from a counter of -1 the timeline part of
  // the display has the faces of frames 0..cframe played on an empty display,
  // and the stream position is behind cframe + 1 frames.
  lemma SeekEqualsReplay(frames: seq<Frame>, ops: seq<Op>, s: State)
    requires StreamLegal(frames) && frames != [] && Runs(Start(-1), frames, ops, s)
    ensures -1 <= s.cframe < |frames| && s.tagpos == s.cframe + 1
    ensures SameFaces(TimelinePart(s.display), Replay(frames, s.cframe + 1))
    ensures s.display == TimelinePart(s.display) + DynamicPart(s.display) && Sorted(s.display)
  {
    hide Runs, StreamLegal, InSync, Perform, Replay, PlayFrames, TimelinePart, DynamicPart, Sorted, SameFaces;
    StartInSync(frames, -1);
    RunInSync(Start(-1), frames, -1, ops, s);
    InSyncMeans(s, frames, -1);
  }

  // A jump arrives: after any run from a counter of -1, stopped or not, it counts
  // the frame asked for and shows it.
  lemma GotoArrives(frames: seq<Frame>, ops: seq<Op>, s: State, frame: nat)
    requires StreamLegal(frames) && frames != [] && Runs(Start(-1), frames, ops, s) && frame < |frames|
    ensures Position(s, frames)
    ensures var s' := Perform(s, frames, GotoFrame(frame));
      && s'.cframe == frame && s'.tagpos == frame + 1 && s'.stopped == s.stopped
      && SameFaces(TimelinePart(s'.display), Replay(frames, frame + 1))
      && DynamicPart(s'.display) == DynamicPart(s.display)
  {
    hide Runs, StreamLegal, InSync, Goto, Replay, PlayFrames, TimelinePart, DynamicPart, Sorted, SameFaces;
    StartInSync(frames, -1);
    RunInSync(Start(-1), frames, -1, ops, s);
    InSyncMeans(s, frames, -1);
    GotoInSync(s, frames, -1, frame);
    GotoCounts(s, frames, frame);
    InSyncMeans(Goto(s, frames, frame), frames, -1);
  }

  lemma GotoCounts(s: State, frames: seq<Frame>, frame: nat)
    requires frame < |frames| && (frame > s.cframe ==> s.tagpos + (frame - s.cframe) <= |frames|)
    ensures Goto(s, frames, frame).cframe == frame && Goto(s, frames, frame).stopped == s.stopped
  {
  }

  // So does an advance: to the next frame, around the end, unless stopped.
  lemma AdvanceArrives(frames: seq<Frame>, ops: seq<Op>, s: State)
    requires StreamLegal(frames) && frames != [] && Runs(Start(-1), frames, ops, s)
    ensures Position(s, frames)
    ensures var s', to := Perform(s, frames, Advance), (s.cframe + 1) % |frames|;
      && (s.stopped ==> s' == s)
      && (!s.stopped ==>
           && s'.cframe == to && s'.tagpos == to + 1 && !s'.stopped
           && SameFaces(TimelinePart(s'.display), Replay(frames, to + 1))
           && DynamicPart(s'.display) == DynamicPart(s.display))
  {
    hide Runs, StreamLegal, InSync, Goto, Replay, PlayFrames, TimelinePart, DynamicPart, Sorted, SameFaces;
    StartInSync(frames, -1);
    RunInSync(Start(-1), frames, -1, ops, s);
    InSyncMeans(s, frames, -1);
    NextFrameWraps(s, |frames|);
    GotoArrives(frames, ops, s, NextFrame(s, |frames|));
  }

  // A stopped sprite stays on its frame through any number of advances, and goes on
  // from there once it is no longer stopped.
  function Advances(n: nat): seq<Op> {
    if n == 0 then [] else [Advance] + Advances(n - 1)
  }

  lemma {:induction false} StoppedStays(s: State, frames: seq<Frame>, n: nat, s': State)
    requires frames != [] && Position(s, frames)
    requires Runs(s, frames, [SetStopped(true)] + (Advances(n) + [SetStopped(s.stopped)]), s')
    ensures s' == s
  {
    var rest := Advances(n) + [SetStopped(s.stopped)];
    var ops := [SetStopped(true)] + rest;
    assert ops[0] == SetStopped(true) && ops[1..] == rest;
    AdvancesStay(s.(stopped := true), frames, n, s.stopped, s');
  }

  lemma {:induction false} AdvancesStay(s: State, frames: seq<Frame>, n: nat, stopped: bool, s': State)
    requires frames != [] && Position(s, frames) && s.stopped
    requires Runs(s, frames, Advances(n) + [SetStopped(stopped)], s')
    ensures s' == s.(stopped := stopped)
    decreases n
  {
    var ops := Advances(n) + [SetStopped(stopped)];
    if n == 0 {
      assert ops == [SetStopped(stopped)] && ops[1..] == [];
    } else {
      assert ops[0] == Advance && ops[1..] == Advances(n - 1) + [SetStopped(stopped)];
      AdvancesStay(s, frames, n - 1, stopped, s');
    }
  }

  lemma NextFrameWraps(s: State, nframe: nat)
    requires -1 <= s.cframe < nframe && nframe > 0
    ensures NextFrame(s, nframe) == (s.cframe + 1) % nframe
  {
  }

  // From any other starting counter (player_inita leaves 0) the position equals
  // cframe + 1 exactly from the first rewind on; before it, the display shows as
  // many frames fewer as the counter started above -1.
  lemma SeekFromAnyCounter(frames: seq<Frame>, c0: int, ops: seq<Op>, s: State)
    requires StreamLegal(frames) && frames != [] && -1 <= c0 < |frames| && Runs(Start(c0), frames, ops, s)
    ensures s.tagpos == s.cframe + 1 <==> c0 == -1 || s.rewound
    ensures s.tagpos <= |frames| && SameFaces(TimelinePart(s.display), Replay(frames, s.tagpos))
    ensures !s.rewound ==> s.tagpos == s.cframe - c0
  {
    hide Runs, StreamLegal, InSync, Perform, Replay, PlayFrames, TimelinePart, DynamicPart, Sorted, SameFaces;
    StartInSync(frames, c0);
    RunInSync(Start(c0), frames, c0, ops, s);
    InSyncMeans(s, frames, c0);
  }

  // The player's own first advance: its counter starts at 0, so it counts to
  // frame 1 having played frame 0 only.
  lemma PlayerStartsBehind(frames: seq<Frame>)
    requires |frames| > 1
    ensures var s := Perform(Start(0), frames, Advance); s.cframe == 1 && s.tagpos == 1
  {
  }

  // A jump, backward or forward, leaves objects at dynamic depths alone.
  lemma GotoKeepsDynamics(frames: seq<Frame>, c0: int, ops: seq<Op>, s: State, frame: nat)
    requires StreamLegal(frames) && frames != [] && -1 <= c0 < |frames|
    requires Runs(Start(c0), frames, ops, s) && frame < |frames|
    ensures Position(s, frames)
    ensures DynamicPart(Goto(s, frames, frame).display) == DynamicPart(s.display)
  {
    hide Runs, StreamLegal, InSync, Perform, Goto, DynamicPart;
    StartInSync(frames, c0);
    RunInSync(Start(c0), frames, c0, ops, s);
    InSyncMeans(s, frames, c0);
    GotoInSync(s, frames, c0, frame);
  }

  // ---- what the assertions need ---------------------------------------------

  // n frames from frame at can be played without placing on an occupied depth.
  predicate LegalFrom(d: seq<Ob>, frames: seq<Frame>, at: nat, n: nat)
    requires at + n <= |frames|
    decreases n
  {
    n == 0 || (FrameLegal(d, frames[at]) && LegalFrom(PlayFrame(d, frames[at]), frames, at + 1, n - 1))
  }

  // What a jump asks of the stream.
  predicate GotoLegal(s: State, frames: seq<Frame>, frame: nat)
    requires frame < |frames|
  {
    if frame < s.cframe then LegalFrom([], frames, 0, frame + 1)
    else frame > s.cframe ==>
      s.tagpos + (frame - s.cframe) <= |frames| && LegalFrom(s.display, frames, s.tagpos, frame - s.cframe)
  }

  lemma {:induction false} ShowsLegal(d: seq<Ob>, frames: seq<Frame>, k: nat, n: nat, t: seq<Ob>, y: seq<Ob>)
    requires k + n <= |frames| && StreamLegal(frames) && Shows(d, frames, k, t, y)
    ensures LegalFrom(d, frames, k, n)
    decreases n
  {
    if n > 0 {
      ShowsNext(d, frames, k, t, y);
      ShowsLegal(PlayFrame(d, frames[k]), frames, k + 1, n - 1, PlayFrame(t, frames[k]), y);
    }
  }

  lemma StartLegal(frames: seq<Frame>, n: nat)
    requires StreamLegal(frames) && n <= |frames|
    ensures LegalFrom([], frames, 0, n)
  {
    ShowsLegal([], frames, 0, n, [], []);
  }

  // A sprite in step with a legal stream can go to any frame.
  lemma InSyncLegal(s: State, frames: seq<Frame>, c0: int, frame: nat)
    requires StreamLegal(frames) && frame < |frames| && -1 <= c0 && InSync(s, frames, c0)
    ensures GotoLegal(s, frames, frame)
  {
    hide Shows, StreamLegal, TimelinePart, DynamicPart, LegalFrom;
    if frame < s.cframe {
      StartLegal(frames, frame + 1);
    } else if frame > s.cframe {
      ShowsLegal(s.display, frames, s.tagpos, frame - s.cframe, TimelinePart(s.display), DynamicPart(s.display));
    }
  }

  // Replaying needs no more than timeline depths.
  lemma {:induction false} LegalTimeline(d: seq<Ob>, frames: seq<Frame>, at: nat, n: nat)
    requires at + n <= |frames| && LegalFrom(d, frames, at, n) && AllTimeline(d)
    ensures AllTimeline(PlayFrames(d, frames, at, n))
    decreases n
  {
    if n > 0 {
      FrameSplit(d, [], frames[at]);
      LegalTimeline(PlayFrame(d, frames[at]), frames, at + 1, n - 1);
    }
  }

  // The merged list is in strict order of depth.
  lemma MergeSorted(ob: seq<Ob>, old_: seq<Ob>)
    requires Sorted(ob) && AllTimeline(ob) && Sorted(old_)
    ensures Sorted(Merge(ob, old_))
  {
    hide Merge, TimelinePart, DynamicPart;
    var t, y := TimelinePart(old_), DynamicPart(old_);
    Parts(old_);
    MergeSplit(ob, t, y);
    SortedSuffix(t, y);
    SortedPrefix(t, y);
    MergeDepths(ob, t);
    SortedJoin(ob, Merge(ob, t), y);
  }

  lemma SortedPrefix(t: seq<Ob>, y: seq<Ob>)
    requires Sorted(t + y)
    ensures Sorted(t)
  {
    assert forall i :: 0 <= i < |t| ==> (t + y)[i] == t[i];
  }

  // Timeline objects at the depths of a sorted list go below dynamic ones.
  lemma SortedJoin(ob: seq<Ob>, m: seq<Ob>, y: seq<Ob>)
    requires Sorted(ob) && AllTimeline(ob) && Sorted(y) && AllDynamic(y)
    requires |m| == |ob| && forall i :: 0 <= i < |ob| ==> m[i].depth == ob[i].depth
    ensures Sorted(m + y)
  {
    forall i, j | 0 <= i < j < |m + y| ensures (m + y)[i].depth < (m + y)[j].depth {
      if i < |ob| <= j {
        assert OnTimeline(ob[i]) && !OnTimeline(y[j - |ob|]);
      }
    }
  }

  lemma MergeDepths(ob: seq<Ob>, t: seq<Ob>)
    requires Sorted(ob) && Sorted(t) && AllTimeline(ob) && AllTimeline(t)
    ensures |Merge(ob, t)| == |ob| && forall i :: 0 <= i < |ob| ==> Merge(ob, t)[i].depth == ob[i].depth
  {
    hide Merge, Sorted;
    MergeLength(ob, t);
    forall i | 0 <= i < |ob| ensures Merge(ob, t)[i].depth == ob[i].depth {
      MergePicks(ob, t, i);
    }
  }
}
