// What the stream's commands leave at a depth, told by the fields of the last
// command that sets each: an account of place, move and remove that does not
// follow the list.
module Commands {
  import opened Options
  import opened Timeline
  import opened Seek

  // The object at a depth.
  function At(d: seq<Ob>, x: nat): Option<Ob> {
    if d == [] then None else if d[0].depth == x then Some(d[0]) else At(d[1..], x)
  }

  lemma {:induction false} AtIndex(d: seq<Ob>, i: nat)
    requires Sorted(d) && i < |d|
    ensures At(d, d[i].depth) == Some(d[i])
  {
    if i > 0 {
      SortedTail(d);
      AtIndex(d[1..], i - 1);
    }
  }

  lemma {:induction false} AtNone(d: seq<Ob>, x: nat)
    ensures At(d, x).None? <==> !Occupied(d, x)
    ensures At(d, x).Some? ==> At(d, x).value in d && At(d, x).value.depth == x
  {
    if d != [] {
      AtNone(d[1..], x);
      if d[0].depth != x {
        if i :| 0 <= i < |d| && d[i].depth == x {
          assert d[1..][i - 1].depth == x;
        }
        if i :| 0 <= i < |d[1..]| && d[1..][i].depth == x {
          assert d[i + 1].depth == x;
        }
      }
    }
  }

  // What a place command says of a new object.
  predicate PlacedBy(pi: Place, o: Ob) {
    && o.depth == pi.depth && o.kind == pi.kind && o.character == pi.character
    && o.transform.matrix == pi.transform.matrix && o.transform.cxform == pi.transform.cxform
    && o.ratio == pi.ratio % 0x10000 && o.clip == pi.clip % 0x10000 && !o.scripted
  }

  predicate ChangesCharacter(pi: Place, kind: Kind) {
    pi.hasCharacter && pi.kind == kind && !Scriptable(kind)
  }

  // What a move command makes of the object o: each field is the command's if it
  // carries it, and o's if not; an object scripts have changed is left alone.
  predicate MovedBy(o: Ob, pi: Place, o': Ob) {
    if o.scripted then o' == o
    else
      && o'.depth == o.depth && o'.kind == o.kind && o'.clip == o.clip && !o'.scripted && o'.dirty
      && o'.transform.matrix == (if pi.hasMatrix then pi.transform.matrix else o.transform.matrix)
      && o'.transform.cxform == (if pi.hasCxform then pi.transform.cxform else o.transform.cxform)
      && o'.ratio == (if pi.hasRatio then pi.ratio % 0x10000 else o.ratio)
      && o'.character == (if ChangesCharacter(pi, o.kind) then pi.character else o.character)
  }

  // What one command does at depth x.
  predicate Effect(before: Option<Ob>, tag: Tag, x: nat, after: Option<Ob>) {
    match tag
    case RemoveTag(depth) => after == if depth == x then None else before
    case PlaceTag(pi) =>
      if pi.depth != x then after == before
      else if !pi.move then after.Some? && PlacedBy(pi, after.value)
      else if before.None? then after.None?
      else after.Some? && MovedBy(before.value, pi, after.value)
  }

  lemma {:induction false} MountAtDepth(d: seq<Ob>, o: Ob, x: nat)
    ensures At(Mount(d, o), x) == if x == o.depth then Some(o) else At(d, x)
  {
    if d != [] && d[0].depth < o.depth {
      MountAtDepth(d[1..], o, x);
    }
  }

  lemma {:induction false} UmountAtDepth(d: seq<Ob>, depth: nat, x: nat)
    requires Sorted(d)
    ensures At(Umount(d, depth), x) == if x == depth then None else At(d, x)
  {
    if d != [] {
      SortedTail(d);
      if d[0].depth < depth {
        UmountAtDepth(d[1..], depth, x);
      } else {
        AboveAt(d[1..], d[0].depth, depth);
      }
    }
  }

  lemma AboveAt(d: seq<Ob>, low: nat, x: nat)
    requires Above(low, d) && x <= low
    ensures At(d, x).None?
  {
    AtNone(d, x);
  }

  lemma {:induction false} ChangeAtDepth(d: seq<Ob>, pi: Place, x: nat)
    requires Sorted(d)
    ensures Effect(At(d, x), PlaceTag(pi.(move := true)), x, At(Change(d, pi), x))
  {
    if d != [] {
      SortedTail(d);
      AboveAt(d[1..], d[0].depth, d[0].depth);
      if d[0].depth < pi.depth {
        ChangeAtDepth(d[1..], pi, x);
      } else if d[0].depth > pi.depth {
        AboveAt(d[1..], d[0].depth, pi.depth);
      }
    }
  }

  // A move on a list changes the object at its depth and no other.
  lemma {:induction false} ChangeMoves(d: seq<Ob>, pi: Place)
    requires Sorted(d)
    ensures |Change(d, pi)| == |d|
    ensures forall i :: 0 <= i < |d| ==> Change(d, pi)[i].depth == d[i].depth
    ensures forall i :: 0 <= i < |d| ==>
              if d[i].depth == pi.depth then MovedBy(d[i], pi, Change(d, pi)[i]) else Change(d, pi)[i] == d[i]
  {
    if d != [] {
      SortedTail(d);
      if d[0].depth < pi.depth {
        ChangeMoves(d[1..], pi);
      } else if d[0].depth == pi.depth {
        assert MovedBy(d[0], pi, ChangePlace(d[0], pi));
      }
    }
  }

  lemma CommandEffect(d: seq<Ob>, tag: Tag, x: nat)
    requires Sorted(d)
    ensures Effect(At(d, x), tag, x, At(ApplyTag(d, tag), x))
  {
    match tag
    case RemoveTag(depth) => UmountAtDepth(d, depth, x);
    case PlaceTag(pi) =>
      if pi.move {
        ChangeAtDepth(d, pi, x);
        assert pi.(move := true) == pi;
      } else {
        MountAtDepth(d, NewOb(pi), x);
      }
  }

  // ---- the last command of each kind ----------------------------------------------

  // What can be set at a depth: whether an object is there, and its fields; the
  // character only for an object of the same kind.
  datatype Field = Presence | Matrix | Cxform | Ratio | Character(kind: Kind)

  predicate Sets(tag: Tag, x: nat, f: Field) {
    match tag
    case RemoveTag(depth) => depth == x && f == Presence
    case PlaceTag(pi) =>
      pi.depth == x &&
      match f
      case Presence => !pi.move
      case Matrix => !pi.move || pi.hasMatrix
      case Cxform => !pi.move || pi.hasCxform
      case Ratio => !pi.move || pi.hasRatio
      case Character(kind) => !pi.move || ChangesCharacter(pi, kind)
  }

  // The last of the commands that sets the field at x, or -1.
  function LastSetter(tags: seq<Tag>, x: nat, f: Field): (i: int)
    ensures -1 <= i < |tags| && (i >= 0 ==> Sets(tags[i], x, f))
    ensures forall j :: i < j < |tags| ==> !Sets(tags[j], x, f)
  {
    if tags == [] then -1
    else if Sets(tags[|tags| - 1], x, f) then |tags| - 1
    else LastSetter(tags[..|tags| - 1], x, f)
  }

  // The last command that carries the field was a place command, with the object's
  // own place or after it.
  predicate Carried(tags: seq<Tag>, x: nat, f: Field) {
    var i := LastSetter(tags, x, f);
    i >= 0 && tags[i].PlaceTag? && i >= LastSetter(tags, x, Presence)
  }

  function Carrier(tags: seq<Tag>, x: nat, f: Field): Place
    requires Carried(tags, x, f)
  {
    tags[LastSetter(tags, x, f)].pi
  }

  // The object at x is told by the last commands there.
  predicate ToldBy(tags: seq<Tag>, x: nat, o: Ob) {
    && Carried(tags, x, Presence) && Carried(tags, x, Matrix) && Carried(tags, x, Cxform) && Carried(tags, x, Ratio)
    && o.depth == x && !o.scripted
    && o.kind == Carrier(tags, x, Presence).kind && o.clip == Carrier(tags, x, Presence).clip % 0x10000
    && o.transform.matrix == Carrier(tags, x, Matrix).transform.matrix
    && o.transform.cxform == Carrier(tags, x, Cxform).transform.cxform
    && o.ratio == Carrier(tags, x, Ratio).ratio % 0x10000
    && Carried(tags, x, Character(o.kind)) && o.character == Carrier(tags, x, Character(o.kind)).character
  }

  predicate Shown(tags: seq<Tag>, x: nat, o: Option<Ob>) {
    match o
    case None => !Carried(tags, x, Presence)
    case Some(ob) => ToldBy(tags, x, ob)
  }

  lemma LastSetterSnoc(tags: seq<Tag>, tag: Tag, x: nat, f: Field)
    ensures LastSetter(tags + [tag], x, f) == if Sets(tag, x, f) then |tags| else LastSetter(tags, x, f)
  {
    assert (tags + [tag])[..|tags|] == tags;
  }

  lemma CarriedSnoc(tags: seq<Tag>, tag: Tag, x: nat, f: Field)
    ensures Sets(tag, x, f) && tag.PlaceTag? ==>
              Carried(tags + [tag], x, f) && Carrier(tags + [tag], x, f) == tag.pi
    ensures Sets(tag, x, f) && tag.RemoveTag? ==> !Carried(tags + [tag], x, f)
    ensures !Sets(tag, x, f) && !Sets(tag, x, Presence) ==> Carried(tags + [tag], x, f) == Carried(tags, x, f)
    ensures !Sets(tag, x, f) && !Sets(tag, x, Presence) && Carried(tags, x, f) ==>
              Carrier(tags + [tag], x, f) == Carrier(tags, x, f)
  {
    hide Sets, LastSetter;
    LastSetterSnoc(tags, tag, x, f);
    LastSetterSnoc(tags, tag, x, Presence);
  }

  lemma ShownSnoc(tags: seq<Tag>, tag: Tag, x: nat, before: Option<Ob>, after: Option<Ob>)
    requires Shown(tags, x, before) && Effect(before, tag, x, after)
    ensures Shown(tags + [tag], x, after)
  {
    hide LastSetter, Carried, Carrier;
    CarriedSnoc(tags, tag, x, Presence);
    if after.Some? {
      CarriedSnoc(tags, tag, x, Matrix);
      CarriedSnoc(tags, tag, x, Cxform);
      CarriedSnoc(tags, tag, x, Ratio);
      CarriedSnoc(tags, tag, x, Character(after.value.kind));
    }
  }

  // The commands of a frame, played from its start on an empty display.
  lemma {:induction false} CommandsShown(pre: seq<Tag>, d: seq<Ob>, tags: Frame, x: nat)
    requires Sorted(d) && FrameLegal(d, tags) && Shown(pre, x, At(d, x))
    ensures Sorted(PlayFrame(d, tags)) && Shown(pre + tags, x, At(PlayFrame(d, tags), x))
    decreases |tags|
  {
    hide Shown, Effect;
    if tags == [] {
      assert pre + tags == pre;
    } else {
      ApplyTagSorted(d, tags[0]);
      CommandEffect(d, tags[0], x);
      ShownSnoc(pre, tags[0], x, At(d, x), At(ApplyTag(d, tags[0]), x));
      CommandsShown(pre + [tags[0]], ApplyTag(d, tags[0]), tags[1..], x);
      assert pre + [tags[0]] + tags[1..] == pre + tags;
    }
  }

  // The commands of the first n frames, in order.
  function Stream(frames: seq<Frame>, n: nat): seq<Tag>
    requires n <= |frames|
  {
    if n == 0 then [] else Stream(frames, n - 1) + frames[n - 1]
  }

  // The object at every depth of a replay is there exactly if the last command
  // that places at or removes from that depth places, and each of its fields is
  // that of the last command that carries it.
  lemma {:induction false} ReplayShown(frames: seq<Frame>, n: nat, x: nat)
    requires StreamLegal(frames) && n <= |frames|
    ensures Sorted(Replay(frames, n)) && Shown(Stream(frames, n), x, At(Replay(frames, n), x))
    decreases n
  {
    hide Shown, FrameLegal;
    if n > 0 {
      ReplayShown(frames, n - 1, x);
      PlayFramesSnoc([], frames, 0, n - 1);
      assert FrameLegal(Replay(frames, n - 1), frames[n - 1]);
      CommandsShown(Stream(frames, n - 1), Replay(frames, n - 1), frames[n - 1], x);
    } else {
      assert Shown([], x, None) by { NothingShown(x); }
    }
  }

  lemma NothingShown(x: nat)
    ensures Shown([], x, None)
  {
  }

  // ---- merges and scripts, depth by depth -------------------------------------------

  // An old object can stand for a replayed one of the same depth.
  predicate StandsIn(o: Ob, p: Ob) {
    o.kind == Sprite && p.kind == Sprite && o.ratio == p.ratio && o.clip == p.clip
  }

  // What a rewind shows at a timeline depth, from what was replayed there and what
  // was there before.
  predicate MergedAt(new_: Option<Ob>, old_: Option<Ob>, r: Option<Ob>) {
    if new_.None? then r.None?
    else if old_.None? || !StandsIn(new_.value, old_.value) then r == new_
    else
      var o, p := new_.value, old_.value;
      r == Some(p.(transform := if p.scripted then p.transform else o.transform))
  }

  predicate RewindEffect(x: nat, new_: Option<Ob>, old_: Option<Ob>, r: Option<Ob>) {
    if x < TIMELINE_DEPTHS then MergedAt(new_, old_, r) else r == old_
  }

  // A rewind decides each depth by what is at that depth alone: a compatible sprite
  // stays, with the replayed transform unless scripts own it, anything else of the
  // timeline is replaced or goes, and the dynamic depths are as before.
  lemma {:induction false} MergeAtDepth(ob: seq<Ob>, old_: seq<Ob>, x: nat)
    requires Sorted(ob) && Sorted(old_) && AllTimeline(ob)
    ensures RewindEffect(x, At(ob, x), At(old_, x), At(Merge(ob, old_), x))
    decreases |ob| + |old_|
  {
    if ob != [] && x <= ob[0].depth { BelowHead(ob, x); }
    if old_ != [] && x <= old_[0].depth { BelowHead(old_, x); }
    if ob == [] {
      SkippedAtDepth(old_, x);
    } else if x >= TIMELINE_DEPTHS {
      AtNone(ob, x);
    }
    if ob != [] && old_ != [] {
      SortedTail(ob);
      SortedTail(old_);
      if ob[0].depth > old_[0].depth {
        MergeAtDepth(ob, old_[1..], x);
      } else if ob[0].depth == old_[0].depth {
        MergeAtDepth(ob[1..], old_[1..], x);
      } else {
        MergeAtDepth(ob[1..], old_, x);
      }
    }
  }

  lemma BelowHead(d: seq<Ob>, x: nat)
    requires Sorted(d) && d != [] && x <= d[0].depth
    ensures At(d[1..], x).None?
  {
    SortedTail(d);
    AboveAt(d[1..], d[0].depth, x);
  }

  lemma {:induction false} SkippedAtDepth(old_: seq<Ob>, x: nat)
    requires Sorted(old_)
    ensures At(SkipTimeline(old_), x) == if x < TIMELINE_DEPTHS then None else At(old_, x)
  {
    if old_ != [] {
      SortedTail(old_);
      if OnTimeline(old_[0]) {
        SkippedAtDepth(old_[1..], x);
      } else if x < TIMELINE_DEPTHS {
        BelowHead(old_, x);
      }
    }
  }

  // A clone takes the place of what was at its depth and a removal empties it;
  // every other depth is as before.
  lemma ScriptAtDepth(s: State, frames: seq<Frame>, op: Op, x: nat)
    requires frames != [] && Position(s, frames) && Allowed(frames, op) && (op.CloneTo? || op.ScriptRemove?)
    requires Sorted(s.display)
    ensures var s' := Perform(s, frames, op);
      && At(s'.display, x) == (if op.CloneTo? && x == op.o.depth then Some(op.o)
                               else if op.ScriptRemove? && x == op.depth then None
                               else At(s.display, x))
      && s' == s.(display := s'.display)
  {
    UmountAtDepth(s.display, if op.CloneTo? then op.o.depth else op.depth, x);
    if op.CloneTo? {
      MountAtDepth(Umount(s.display, op.o.depth), op.o, x);
    }
  }

  // ---- seeking, told by the commands --------------------------------------------------

  // As Shown, but for the character of a sprite.
  ghost predicate FaceShown(tags: seq<Tag>, x: nat, o: Option<Ob>) {
    match o
    case None => !Carried(tags, x, Presence)
    case Some(ob) => exists c: nat :: (ob.kind == Sprite || c == ob.character) && ToldBy(tags, x, ob.(character := c))
  }

  lemma {:induction false} AtAlike(a: seq<Ob>, b: seq<Ob>, x: nat)
    requires Alike(a, b)
    ensures match At(b, x)
            case None => At(a, x).None?
            case Some(o) => At(a, x).Some? && FaceOf(At(a, x).value) == FaceOf(o) && !At(a, x).value.scripted
  {
    if a != [] {
      AlikeTail(a, b);
      AtAlike(a[1..], b[1..], x);
    }
  }

  lemma AtFront(t: seq<Ob>, y: seq<Ob>, x: nat)
    requires AllDynamic(y) && x < TIMELINE_DEPTHS
    ensures At(t + y, x) == At(t, x)
    decreases |t|
  {
    if t == [] {
      assert t + y == y;
      AtNone(y, x);
    } else {
      assert (t + y)[1..] == t[1..] + y;
      AtFront(t[1..], y, x);
    }
  }

  // After any run of jumps, advances, stops and scripts at dynamic depths, the
  // object at each timeline depth is there exactly if the last command of frames 0
  // to cframe that places or removes at that depth places, and every field of it,
  // the character of a sprite aside, is that of the last command that carries it.
  lemma SeekShowsCommands(frames: seq<Frame>, ops: seq<Op>, s: State, x: nat)
    requires StreamLegal(frames) && frames != [] && Runs(Start(-1), frames, ops, s) && x < TIMELINE_DEPTHS
    ensures -1 <= s.cframe < |frames| && FaceShown(Stream(frames, s.cframe + 1), x, At(s.display, x))
  {
    hide Runs, StreamLegal, Replay, Shown, FaceShown, Alike;
    StartInSync(frames, -1);
    RunInSync(Start(-1), frames, -1, ops, s);
    var t := TimelinePart(s.display);
    AtFront(t, DynamicPart(s.display), x);
    AtAlike(t, Replay(frames, s.tagpos), x);
    ReplayShown(frames, s.tagpos, x);
    FaceOfShown(Stream(frames, s.tagpos), x, At(Replay(frames, s.tagpos), x), At(t, x));
  }

  lemma FaceOfShown(tags: seq<Tag>, x: nat, o: Option<Ob>, p: Option<Ob>)
    requires Shown(tags, x, o)
    requires match o
             case None => p.None?
             case Some(ob) => p.Some? && FaceOf(p.value) == FaceOf(ob) && !p.value.scripted
    ensures FaceShown(tags, x, p)
  {
    if o.Some? {
      var c := o.value.character;
      assert ToldBy(tags, x, p.value.(character := c));
    }
  }
}
