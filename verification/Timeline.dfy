// The display list of a sprite as a value: depth-sorted objects, the stream's
// place, move and remove commands, and the merge that follows a rewind
// (core/sprite.c).
module Timeline {
  const TIMELINE_DEPTHS: nat := 0x4000

  datatype Kind = Shape | Sprite | MorphShape | Button | Source | Font | Text | EditText

  predicate Scriptable(k: Kind) {
    k == Sprite || k == Button || k == EditText
  }

  datatype Transform = Transform(matrix: int, cxform: int)

  // The place fields of struct object.  ratio and clip are 16 bits wide.
  datatype Ob = Ob(depth: nat, kind: Kind, ratio: nat, clip: nat, character: nat, transform: Transform,
                   scripted: bool, dirty: bool)

  // struct place_info, its flag bits spelled out.
  datatype Place = Place(move: bool, hasCharacter: bool, hasMatrix: bool, hasCxform: bool, hasRatio: bool,
                         kind: Kind, character: nat, transform: Transform, clip: nat, depth: nat, ratio: nat)

  datatype Tag = PlaceTag(pi: Place) | RemoveTag(depth: nat)

  type Frame = seq<Tag>

  function U16(n: nat): nat {
    n % 0x10000
  }

  // depth_classify
  predicate OnTimeline(o: Ob) {
    o.depth < TIMELINE_DEPTHS
  }

  // object_import_place on a fresh object
  function NewOb(pi: Place): Ob {
    Ob(pi.depth, pi.kind, U16(pi.ratio), U16(pi.clip), pi.character, pi.transform, false, false)
  }

  // object_replace_character
  function ReplaceCharacter(o: Ob, character: nat, kind: Kind): Ob {
    if o.kind == kind && !Scriptable(o.kind) then o.(character := character) else o
  }

  // object_change_place
  function ChangePlace(o: Ob, pi: Place): Ob {
    if o.scripted then o
    else
      var o1 := if pi.hasCharacter then ReplaceCharacter(o, pi.character, pi.kind) else o;
      var o2 := if pi.hasMatrix then o1.(transform := o1.transform.(matrix := pi.transform.matrix)) else o1;
      var o3 := if pi.hasCxform then o2.(transform := o2.transform.(cxform := pi.transform.cxform)) else o2;
      var o4 := if pi.hasRatio then o3.(ratio := U16(pi.ratio)) else o3;
      o4.(dirty := true)
  }

  // sprite_mount_object
  function Mount(d: seq<Ob>, o: Ob): seq<Ob> {
    if d == [] || d[0].depth >= o.depth then [o] + d else [d[0]] + Mount(d[1..], o)
  }

  // sprite_umount_object, the list that is left
  function Umount(d: seq<Ob>, depth: nat): seq<Ob> {
    if d == [] || d[0].depth > depth then d
    else if d[0].depth == depth then d[1..]
    else [d[0]] + Umount(d[1..], depth)
  }

  // sprite_change_object
  function Change(d: seq<Ob>, pi: Place): seq<Ob> {
    if d == [] || d[0].depth > pi.depth then d
    else if d[0].depth == pi.depth then [ChangePlace(d[0], pi)] + d[1..]
    else [d[0]] + Change(d[1..], pi)
  }

  function ApplyTag(d: seq<Ob>, tag: Tag): seq<Ob> {
    match tag
    case PlaceTag(pi) => if pi.move then Change(d, pi) else Mount(d, NewOb(pi))
    case RemoveTag(depth) => Umount(d, depth)
  }

  function PlayFrame(d: seq<Ob>, frame: Frame): seq<Ob>
    decreases |frame|
  {
    if frame == [] then d else PlayFrame(ApplyTag(d, frame[0]), frame[1..])
  }

  // n frames of the stream from frame at.
  function PlayFrames(d: seq<Ob>, frames: seq<Frame>, at: nat, n: nat): seq<Ob>
    requires at + n <= |frames|
    decreases n
  {
    if n == 0 then d else PlayFrames(PlayFrame(d, frames[at]), frames, at + 1, n - 1)
  }

  // The first n frames played on an empty display.
  function Replay(frames: seq<Frame>, n: nat): seq<Ob>
    requires n <= |frames|
  {
    PlayFrames([], frames, 0, n)
  }

  // ---- the merge ------------------------------------------------------------

  // object_compatible, for objects of equal depth
  predicate Compatible(ob: Ob, old_: Ob) {
    ob.ratio == old_.ratio && ob.clip == old_.clip && ob.kind == old_.kind
  }

  predicate Reusable(ob: Ob, old_: Ob) {
    Compatible(ob, old_) && ob.kind == Sprite
  }

  // The old object in the new one's place.
  function Reuse(ob: Ob, old_: Ob): Ob {
    if old_.scripted then old_ else old_.(transform := ob.transform)
  }

  // The rest of the old list once the new one is used up.
  function SkipTimeline(old_: seq<Ob>): seq<Ob> {
    if old_ == [] || !OnTimeline(old_[0]) then old_ else SkipTimeline(old_[1..])
  }

  // sprite_merge_old
  function Merge(ob: seq<Ob>, old_: seq<Ob>): seq<Ob>
    decreases |ob| + |old_|
  {
    if ob == [] then SkipTimeline(old_)
    else if old_ == [] then ob
    else if ob[0].depth > old_[0].depth then
      if OnTimeline(old_[0]) then Merge(ob, old_[1..]) else [old_[0]] + Merge(ob, old_[1..])
    else if ob[0].depth == old_[0].depth then
      [if Reusable(ob[0], old_[0]) then Reuse(ob[0], old_[0]) else ob[0]] + Merge(ob[1..], old_[1..])
    else [ob[0]] + Merge(ob[1..], old_)
  }

  // ---- order ----------------------------------------------------------------

  predicate Sorted(d: seq<Ob>) {
    forall i, j :: 0 <= i < j < |d| ==> d[i].depth < d[j].depth
  }

  predicate AllTimeline(d: seq<Ob>) {
    forall i :: 0 <= i < |d| ==> OnTimeline(d[i])
  }

  predicate AllDynamic(d: seq<Ob>) {
    forall i :: 0 <= i < |d| ==> !OnTimeline(d[i])
  }

  predicate Above(depth: nat, d: seq<Ob>) {
    forall i :: 0 <= i < |d| ==> depth < d[i].depth
  }

  predicate Occupied(d: seq<Ob>, depth: nat) {
    exists i :: 0 <= i < |d| && d[i].depth == depth
  }

  // Timeline depths only, and no object placed on an occupied depth, which the
  // source asserts.
  predicate TagLegal(d: seq<Ob>, tag: Tag) {
    match tag
    case PlaceTag(pi) => pi.depth < TIMELINE_DEPTHS && (pi.move || !Occupied(d, pi.depth))
    case RemoveTag(depth) => depth < TIMELINE_DEPTHS
  }

  predicate FrameLegal(d: seq<Ob>, frame: Frame)
    decreases |frame|
  {
    frame == [] || (TagLegal(d, frame[0]) && FrameLegal(ApplyTag(d, frame[0]), frame[1..]))
  }

  // A stream that plays from its start without hitting the assertion.
  predicate StreamLegal(frames: seq<Frame>) {
    forall n :: 0 <= n < |frames| ==> FrameLegal(Replay(frames, n), frames[n])
  }

  lemma SortedTail(d: seq<Ob>)
    requires Sorted(d) && d != []
    ensures Sorted(d[1..]) && Above(d[0].depth, d[1..])
  {
  }

  lemma {:induction false} MountSorted(d: seq<Ob>, o: Ob, low: int)
    requires Sorted(d) && !Occupied(d, o.depth) && low < o.depth && forall i :: 0 <= i < |d| ==> low < d[i].depth
    ensures Sorted(Mount(d, o)) && forall i :: 0 <= i < |Mount(d, o)| ==> low < Mount(d, o)[i].depth
  {
    if d != [] && d[0].depth < o.depth {
      SortedTail(d);
      assert forall i :: 0 <= i < |d[1..]| ==> d[1..][i] == d[i + 1];
      MountSorted(d[1..], o, d[0].depth);
    } else if d != [] {
      assert d[0].depth != o.depth;
    }
  }

  lemma {:induction false} UmountSorted(d: seq<Ob>, depth: nat, low: int)
    requires Sorted(d) && forall i :: 0 <= i < |d| ==> low < d[i].depth
    ensures Sorted(Umount(d, depth)) && forall i :: 0 <= i < |Umount(d, depth)| ==> low < Umount(d, depth)[i].depth
  {
    if d != [] && d[0].depth < depth {
      SortedTail(d);
      UmountSorted(d[1..], depth, d[0].depth);
    }
  }

  lemma {:induction false} ChangeDepths(d: seq<Ob>, pi: Place)
    ensures |Change(d, pi)| == |d| && forall i :: 0 <= i < |d| ==> Change(d, pi)[i].depth == d[i].depth
  {
    if d != [] && d[0].depth < pi.depth {
      ChangeDepths(d[1..], pi);
    }
  }

  lemma ApplyTagSorted(d: seq<Ob>, tag: Tag)
    requires Sorted(d) && TagLegal(d, tag)
    ensures Sorted(ApplyTag(d, tag))
  {
    match tag
    case PlaceTag(pi) =>
      if pi.move {
        ChangeDepths(d, pi);
      } else {
        MountSorted(d, NewOb(pi), -1);
      }
    case RemoveTag(depth) =>
      UmountSorted(d, depth, -1);
  }

  lemma {:induction false} PlayFrameSorted(d: seq<Ob>, frame: Frame)
    requires Sorted(d) && FrameLegal(d, frame)
    ensures Sorted(PlayFrame(d, frame))
    decreases |frame|
  {
    if frame != [] {
      ApplyTagSorted(d, frame[0]);
      PlayFrameSorted(ApplyTag(d, frame[0]), frame[1..]);
    }
  }
}
