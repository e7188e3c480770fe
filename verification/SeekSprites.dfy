// What a seek shows beyond the faces: a rewind that keeps an old sprite keeps its
// character, so the display equals the replay, but for dirty marks, exactly when
// no sprite of another character is in the way.
module SeekSprites {
  import opened Timeline
  import opened Seek

  // The objects without their dirty marks.
  function Bare(d: seq<Ob>): (r: seq<Ob>)
    ensures |r| == |d| && forall i :: 0 <= i < |d| ==> r[i] == d[i].(dirty := false)
  {
    if d == [] then [] else [d[0].(dirty := false)] + Bare(d[1..])
  }

  // ---- commands do not look at dirty marks ------------------------------------

  lemma {:induction false} MountBare(a: seq<Ob>, b: seq<Ob>, o: Ob)
    requires Bare(a) == Bare(b)
    ensures Bare(Mount(a, o)) == Bare(Mount(b, o))
  {
    if a != [] {
      BareTail(a, b);
      if a[0].depth < o.depth {
        MountBare(a[1..], b[1..], o);
        BareCons(a[0], Mount(a[1..], o));
        BareCons(b[0], Mount(b[1..], o));
      } else {
        BareCons(o, a);
        BareCons(o, b);
      }
    }
  }

  lemma {:induction false} UmountBare(a: seq<Ob>, b: seq<Ob>, depth: nat)
    requires Bare(a) == Bare(b)
    ensures Bare(Umount(a, depth)) == Bare(Umount(b, depth))
  {
    if a != [] {
      BareTail(a, b);
      if a[0].depth < depth {
        UmountBare(a[1..], b[1..], depth);
        BareCons(a[0], Umount(a[1..], depth));
        BareCons(b[0], Umount(b[1..], depth));
      }
    }
  }

  lemma {:induction false} ChangeBare(a: seq<Ob>, b: seq<Ob>, pi: Place)
    requires Bare(a) == Bare(b)
    ensures Bare(Change(a, pi)) == Bare(Change(b, pi))
  {
    if a != [] {
      BareTail(a, b);
      if a[0].depth < pi.depth {
        ChangeBare(a[1..], b[1..], pi);
        BareCons(a[0], Change(a[1..], pi));
        BareCons(b[0], Change(b[1..], pi));
      } else if a[0].depth == pi.depth {
        ChangePlaceBare(a[0], b[0], pi);
        BareCons(ChangePlace(a[0], pi), a[1..]);
        BareCons(ChangePlace(b[0], pi), b[1..]);
      }
    }
  }

  lemma ChangePlaceBare(x: Ob, y: Ob, pi: Place)
    requires x.(dirty := false) == y.(dirty := false)
    ensures ChangePlace(x, pi).(dirty := false) == ChangePlace(y, pi).(dirty := false)
  {
  }

  lemma BareCons(x: Ob, d: seq<Ob>)
    ensures Bare([x] + d) == [x.(dirty := false)] + Bare(d)
  {
    assert ([x] + d)[1..] == d;
  }

  lemma BareTail(a: seq<Ob>, b: seq<Ob>)
    requires Bare(a) == Bare(b) && a != []
    ensures b != [] && a[0].(dirty := false) == b[0].(dirty := false) && Bare(a[1..]) == Bare(b[1..])
  {
    assert |a| == |Bare(a)| == |b|;
    assert Bare(a)[1..] == Bare(a[1..]) && Bare(b)[1..] == Bare(b[1..]);
    assert Bare(a)[0] == Bare(b)[0];
  }

  lemma {:induction false} FrameBare(a: seq<Ob>, b: seq<Ob>, frame: Frame)
    requires Bare(a) == Bare(b)
    ensures Bare(PlayFrame(a, frame)) == Bare(PlayFrame(b, frame))
    decreases |frame|
  {
    if frame != [] {
      match frame[0] {
        case PlaceTag(pi) =>
          if pi.move {
            ChangeBare(a, b, pi);
          } else {
            MountBare(a, b, NewOb(pi));
          }
        case RemoveTag(depth) => UmountBare(a, b, depth);
      }
      FrameBare(ApplyTag(a, frame[0]), ApplyTag(b, frame[0]), frame[1..]);
    }
  }

  lemma {:induction false} FramesBare(a: seq<Ob>, b: seq<Ob>, frames: seq<Frame>, k: nat, n: nat)
    requires k + n <= |frames| && Bare(a) == Bare(b)
    ensures Bare(PlayFrames(a, frames, k, n)) == Bare(PlayFrames(b, frames, k, n))
    decreases n
  {
    if n > 0 {
      FrameBare(a, b, frames[k]);
      FramesBare(PlayFrame(a, frames[k]), PlayFrame(b, frames[k]), frames, k + 1, n - 1);
    }
  }

  lemma {:induction false} PlayOn(d: seq<Ob>, frames: seq<Frame>, k: nat, m: nat, n: nat)
    requires k + m + n <= |frames|
    ensures PlayFrames(PlayFrames(d, frames, k, m), frames, k + m, n) == PlayFrames(d, frames, k, m + n)
    decreases m
  {
    hide PlayFrame;
    if m > 0 {
      PlayOn(PlayFrame(d, frames[k]), frames, k + 1, m - 1, n);
    }
  }

  // ---- the merge ---------------------------------------------------------------

  predicate SameCharacters(a: seq<Ob>, b: seq<Ob>) {
    |a| == |b| && forall i :: 0 <= i < |a| ==> a[i].character == b[i].character
  }

  // No old object of another character can stand for one of ob.
  predicate SameCast(ob: seq<Ob>, old_: seq<Ob>) {
    forall i, j :: 0 <= i < |ob| && 0 <= j < |old_| && StandsFor(ob[i], old_[j]) ==>
      ob[i].character == old_[j].character
  }

  predicate StandsFor(o: Ob, old_: Ob) {
    old_.depth == o.depth && Reusable(o, old_)
  }

  // The merge gives the characters of the replay exactly if the casts agree.
  lemma MergeCharacters(ob: seq<Ob>, t: seq<Ob>)
    requires Sorted(ob) && Sorted(t) && AllTimeline(ob) && AllTimeline(t)
    ensures SameCharacters(Merge(ob, t), ob) <==> SameCast(ob, t)
  {
    hide Merge, Sorted, AllTimeline, Reusable;
    MergeLength(ob, t);
    if SameCast(ob, t) {
      forall i | 0 <= i < |ob| ensures Merge(ob, t)[i].character == ob[i].character {
        CharacterPicked(ob, t, i);
      }
    } else {
      var i, j :| 0 <= i < |ob| && 0 <= j < |t| && StandsFor(ob[i], t[j]) && ob[i].character != t[j].character;
      MergePicksOld(ob, t, i, j);
      assert Merge(ob, t)[i].character == t[j].character;
    }
  }

  lemma CharacterPicked(ob: seq<Ob>, t: seq<Ob>, i: nat)
    requires Sorted(ob) && Sorted(t) && AllTimeline(ob) && AllTimeline(t) && i < |ob| && SameCast(ob, t)
    ensures i < |Merge(ob, t)| && Merge(ob, t)[i].character == ob[i].character
  {
    hide Merge, Sorted, AllTimeline, Reusable;
    if j :| 0 <= j < |t| && StandsFor(ob[i], t[j]) {
      MergePicksOld(ob, t, i, j);
    } else {
      assert forall j :: 0 <= j < |t| ==> !StandsFor(ob[i], t[j]);
      MergePicksNew(ob, t, i);
    }
  }

  // With equal faces, unscripted lists of equal characters are equal but for dirty
  // marks.
  lemma AlikeBare(a: seq<Ob>, b: seq<Ob>)
    requires Alike(a, b)
    ensures Bare(a) == Bare(b) <==> SameCharacters(a, b)
  {
    if SameCharacters(a, b) {
      forall i | 0 <= i < |a| ensures Bare(a)[i] == Bare(b)[i] {
        assert FaceOf(a[i]) == FaceOf(b[i]) && !a[i].scripted && !b[i].scripted;
      }
    } else {
      var i :| 0 <= i < |a| && a[i].character != b[i].character;
      assert Bare(a)[i] != Bare(b)[i];
    }
  }

  // ---- seeking -------------------------------------------------------------------

  // The timeline part of the display is the replay itself, but for dirty marks.
  ghost predicate Exact(s: State, frames: seq<Frame>)
    requires s.tagpos <= |frames|
  {
    Bare(TimelinePart(s.display)) == Bare(Replay(frames, s.tagpos))
  }

  lemma RewindExact(s: State, frames: seq<Frame>, frame: nat)
    requires StreamLegal(frames) && frame < |frames| && s.tagpos <= |frames|
    requires Shows(s.display, frames, s.tagpos, TimelinePart(s.display), DynamicPart(s.display))
    ensures Bare(TimelinePart(Merge(Replay(frames, frame + 1), s.display))) == Bare(Replay(frames, frame + 1))
       <==> SameCast(Replay(frames, frame + 1), s.display)
  {
    hide Merge, Replay, StreamLegal, Sorted, PlayFrames;
    var t, y := TimelinePart(s.display), DynamicPart(s.display);
    var ob := Replay(frames, frame + 1);
    ReplayShows(frames, frame + 1);
    MergeSplit(ob, t, y);
    MergeAlike(ob, t);
    PartsOf(Merge(ob, t), y);
    SortedPrefix(t, y);
    AlikeBare(Merge(ob, t), ob);
    MergeCharacters(ob, t);
    CastOfTimeline(ob, t, y);
  }

  lemma CastOfTimeline(ob: seq<Ob>, t: seq<Ob>, y: seq<Ob>)
    requires AllTimeline(ob) && AllDynamic(y)
    ensures SameCast(ob, t + y) <==> SameCast(ob, t)
  {
    if SameCast(ob, t + y) {
      forall i, j | 0 <= i < |ob| && 0 <= j < |t| && StandsFor(ob[i], t[j]) ensures ob[i].character == t[j].character {
        assert (t + y)[j] == t[j];
      }
    }
    if SameCast(ob, t) {
      forall i, j | 0 <= i < |ob| && 0 <= j < |t + y| && StandsFor(ob[i], (t + y)[j])
        ensures ob[i].character == (t + y)[j].character
      {
        assert OnTimeline(ob[i]);
      }
    }
  }

  lemma ForwardExact(s: State, frames: seq<Frame>, n: nat)
    requires StreamLegal(frames) && s.tagpos + n <= |frames| && Exact(s, frames)
    requires Shows(s.display, frames, s.tagpos, TimelinePart(s.display), DynamicPart(s.display))
    ensures Bare(TimelinePart(PlayFrames(s.display, frames, s.tagpos, n))) == Bare(Replay(frames, s.tagpos + n))
  {
    hide StreamLegal, PlayFrames;
    var t, y := TimelinePart(s.display), DynamicPart(s.display);
    var t' := ShowsOn(s.display, frames, s.tagpos, n, t, y);
    PartsOf(t', y);
    FramesBare(t, Replay(frames, s.tagpos), frames, s.tagpos, n);
    PlayOn([], frames, 0, s.tagpos, n);
  }

  // What a call asks of the display if it is to stay exact.
  predicate CastKept(s: State, frames: seq<Frame>, op: Op)
    requires frames != [] && Position(s, frames) && Allowed(frames, op)
  {
    match op
    case GotoFrame(frame) => frame < s.cframe ==> SameCast(Replay(frames, frame + 1), s.display)
    case Advance =>
      !s.stopped && NextFrame(s, |frames|) < s.cframe ==>
        SameCast(Replay(frames, NextFrame(s, |frames|) + 1), s.display)
    case _ => true
  }

  lemma GotoExact(s: State, frames: seq<Frame>, c0: int, frame: nat)
    requires StreamLegal(frames) && frame < |frames| && -1 <= c0 && InSync(s, frames, c0)
    requires frame >= s.cframe ==> Exact(s, frames)
    ensures Goto(s, frames, frame).tagpos <= |frames| && Goto(s, frames, frame).cframe == frame
    ensures Exact(Goto(s, frames, frame), frames) <==>
            (frame < s.cframe ==> SameCast(Replay(frames, frame + 1), s.display))
  {
    hide Shows, StreamLegal, TimelinePart, DynamicPart, PlayFrames, Merge, Replay, SameCast, Bare;
    if frame < s.cframe {
      RewindExact(s, frames, frame);
    } else if frame > s.cframe {
      ForwardExact(s, frames, frame - s.cframe);
    }
  }

  lemma PerformExact(s: State, frames: seq<Frame>, c0: int, op: Op)
    requires StreamLegal(frames) && frames != [] && -1 <= c0 && Allowed(frames, op)
    requires InSync(s, frames, c0) && Exact(s, frames)
    ensures Perform(s, frames, op).tagpos <= |frames|
    ensures Exact(Perform(s, frames, op), frames) <==> CastKept(s, frames, op)
  {
    hide Shows, StreamLegal, PlayFrames, Merge, Replay, SameCast, Bare, Goto;
    match op
    case GotoFrame(frame) => GotoExact(s, frames, c0, frame);
    case Advance => if !s.stopped { GotoExact(s, frames, c0, NextFrame(s, |frames|)); }
    case SetStopped(_) =>
    case CloneTo(_) => DynamicExact(s, frames, c0, op);
    case ScriptRemove(_) => DynamicExact(s, frames, c0, op);
  }

  lemma DynamicExact(s: State, frames: seq<Frame>, c0: int, op: Op)
    requires Allowed(frames, op) && (op.CloneTo? || op.ScriptRemove?) && frames != [] && InSync(s, frames, c0)
    ensures TimelinePart(Perform(s, frames, op).display) == TimelinePart(s.display)
    ensures Perform(s, frames, op).tagpos == s.tagpos
  {
    var t, y := TimelinePart(s.display), DynamicPart(s.display);
    SortedSuffix(t, y);
    DynamicChangeKeeps(y, frames, op);
    DynamicChangeSplit(t, y, frames, op);
    PartsOf(t, DynamicChange(y, op));
  }

  // Every state of the run is exact.
  ghost predicate AllExact(s: State, frames: seq<Frame>, ops: seq<Op>)
    requires frames != [] && Position(s, frames)
    decreases |ops|
  {
    s.tagpos <= |frames| && Exact(s, frames)
    && (ops != [] && Allowed(frames, ops[0]) ==> AllExact(Perform(s, frames, ops[0]), frames, ops[1..]))
  }

  // Every rewind of the run finds the cast it replays.
  predicate CastsKept(s: State, frames: seq<Frame>, ops: seq<Op>)
    requires frames != [] && Position(s, frames)
    decreases |ops|
  {
    ops != [] && Allowed(frames, ops[0]) ==>
      CastKept(s, frames, ops[0]) && CastsKept(Perform(s, frames, ops[0]), frames, ops[1..])
  }

  lemma {:induction false} RunExact(s: State, frames: seq<Frame>, c0: int, ops: seq<Op>)
    requires StreamLegal(frames) && frames != [] && -1 <= c0 && InSync(s, frames, c0)
    requires s.tagpos <= |frames| && Exact(s, frames)
    ensures AllExact(s, frames, ops) <==> CastsKept(s, frames, ops)
    decreases |ops|
  {
    hide Exact, InSync, StreamLegal, CastKept, Perform;
    InSyncMeans(s, frames, c0);
    if ops != [] && Allowed(frames, ops[0]) {
      PerformExact(s, frames, c0, ops[0]);
      PerformInSync(s, frames, c0, ops[0]);
      if CastKept(s, frames, ops[0]) {
        RunExact(Perform(s, frames, ops[0]), frames, c0, ops[1..]);
      }
    }
  }

  // The timeline part equals the replay, but for dirty marks, all through a run
  // exactly if no rewind meets an old sprite that could stand for the replayed one
  // and has another character.
  lemma SeekEqualsReplayExactly(frames: seq<Frame>, c0: int, ops: seq<Op>)
    requires StreamLegal(frames) && frames != [] && -1 <= c0 < |frames|
    ensures AllExact(Start(c0), frames, ops) <==> CastsKept(Start(c0), frames, ops)
  {
    hide StreamLegal, AllExact, CastsKept;
    StartInSync(frames, c0);
    RunExact(Start(c0), frames, c0, ops);
  }

  // Two sprites of one depth, the second placed a frame later: going back to the
  // first frame leaves the second one's character on the display.
  function SpriteAt(character: nat): Place {
    Place(false, true, false, false, false, Sprite, character, Transform(0, 0), 0, 1, 0)
  }

  lemma OtherCharacterStays()
    ensures var frames := [[PlaceTag(SpriteAt(7))], [RemoveTag(1), PlaceTag(SpriteAt(5))]];
      && StreamLegal(frames)
      && var s := Goto(Goto(Start(-1), frames, 1), frames, 0);
         |s.display| == 1 && s.display[0].character == 5
         && |Replay(frames, 1)| == 1 && Replay(frames, 1)[0].character == 7
  {
    var f0, f1 := [PlaceTag(SpriteAt(7))], [RemoveTag(1), PlaceTag(SpriteAt(5))];
    var frames := [f0, f1];
    assert f0[1..] == [] && f1[1..] == [PlaceTag(SpriteAt(5))] && f1[1..][1..] == [];
    var seven, five := NewOb(SpriteAt(7)), NewOb(SpriteAt(5));
    assert PlayFrame([], f0) == PlayFrame([seven], []) == [seven];
    assert Umount([seven], 1) == [];
    assert PlayFrame([seven], f1) == PlayFrame([], f1[1..]) == PlayFrame([five], []) == [five];
    assert Replay(frames, 1) == PlayFrames([seven], frames, 1, 0) == [seven];
    assert Replay(frames, 2) == PlayFrames([seven], frames, 1, 1) == PlayFrames([five], frames, 2, 0) == [five];
    assert Replay(frames, 0) == [];
    assert FrameLegal([], f0) && FrameLegal([seven], f1);
    assert Merge([seven], [five]) == [Reuse(seven, five)] + Merge([], []);
  }
}
