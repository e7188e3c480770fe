// The two halves of struct bitval on one array: a list of items written by the
// writer, synced, and read back by the reader.
module BitExchange {
  import opened Bits
  import opened BitReader
  import opened BitWriter
  import opened BitRoundTrip

  lemma {:induction false} EndAllGrows(p: nat, q: nat, items: seq<Item>)
    requires p <= q
    ensures p <= EndAll(p, items) <= EndAll(q, items)
    decreases |items|
  {
    if items != [] {
      EdgeMonotone(p, q);
      EndAllGrows(End(p, items[0]), End(q, items[0]), items[1..]);
    }
  }

  lemma EdgeMonotone(p: nat, q: nat)
    requires p <= q
    ensures ByteEdge(p) <= ByteEdge(q)
  {
  }

  // One item through the writer.
  method WriteItem(wr: Writer, item: Item)
    requires wr.Valid() && (item.Number? ==> item.width <= wr.W)
    requires End(|wr.View().out|, item) <= 8 * wr.len && Aligned(wr.View(), wr.W)
    modifies wr`buf, wr`num, wr`ptr, wr.data
    ensures wr.Valid() && wr.View() == Put(old(wr.View()), item, wr.W)
    ensures old(wr.ptr) <= wr.ptr && Behind(wr)
  {
    hide BitsOf, PutBits, PutZeros, PutSync, Low;
    match item
    case Number(v, n) => wr.WriteUbits(v, n);
    case Blank(n) => wr.ZeroBits(n);
    case ToByte => wr.Sync();
  }

  // The array from the cursor on is as it was.
  twostate predicate Behind(wr: Writer)
    reads wr, wr.data
  {
    forall j :: wr.ptr <= j < wr.data.Length ==> wr.data[j] == old(wr.data[j])
  }

  // All of them, when there is room for all.
  method WriteItems(wr: Writer, items: seq<Item>)
    requires wr.Valid() && Narrow(items, wr.W) && Aligned(wr.View(), wr.W)
    requires EndAll(|wr.View().out|, items) <= 8 * wr.len
    modifies wr`buf, wr`num, wr`ptr, wr.data
    ensures wr.Valid() && wr.View() == PutAll(old(wr.View()), items, wr.W)
    ensures Behind(wr)
  {
    hide BitsOf, Put, End;
    var i := 0;
    assert items[0..] == items;
    while i < |items|
      invariant 0 <= i <= |items| && wr.Valid() && Aligned(wr.View(), wr.W) && Narrow(items[i..], wr.W)
      invariant EndAll(|wr.View().out|, items[i..]) <= 8 * wr.len
      invariant PutAll(wr.View(), items[i..], wr.W) == PutAll(old(wr.View()), items, wr.W)
      invariant Behind(wr)
    {
      assert items[i..][0] == items[i] && items[i..][1..] == items[i + 1..];
      EndAllGrows(End(|wr.View().out|, items[i]), End(|wr.View().out|, items[i]), items[i + 1..]);
      PutKeeps(wr.View(), items[i], wr.W);
      EndAllGrows(|Put(wr.View(), items[i], wr.W).out|, End(|wr.View().out|, items[i]), items[i + 1..]);
      WriteItem(wr, items[i]);
      i := i + 1;
    }
  }

  // What the reader makes of an item's bits.
  datatype Reading = Reading(unsigned: nat, signed: int)

  // A number of no bits may read as anything.
  predicate HasValue(item: Item) {
    item.Number? ==> item.width > 0
  }

  function ReadingOf(b: seq<bool>, item: Item): Reading {
    if item.Number? then Reading(Value(b), Signed(b)) else Reading(0, 0)
  }

  method ReadItem(rd: Reader, item: Item) returns (r: Reading)
    requires rd.Valid() && (item.Number? ==> item.width <= 32) && End(rd.Pos(), item) <= 8 * rd.len
    modifies rd`buf, rd`num, rd`ptr, rd`past
    ensures rd.Valid() && rd.Pos() == End(old(rd.Pos()), item)
    ensures HasValue(item) ==> r == ReadingOf(rd.Input()[old(rd.Pos())..rd.Pos()], item)
  {
    r := Reading(0, 0);
    match item
    case Number(_, n) =>
      var s := rd.PeekSbits(n);
      var u := rd.ReadUbits(n);
      r := Reading(u, s);
    case Blank(n) => rd.SkipBits(n);
    case ToByte => rd.Sync();
  }

  // Each reading is that of the item's own bits.
  ghost predicate Readings(bits: seq<bool>, pos: nat, items: seq<Item>, rs: seq<Reading>)
    decreases |items|
  {
    |rs| == |items| && (items == [] ||
    (var end := End(pos, items[0]);
     end <= |bits| && pos <= end && (HasValue(items[0]) ==> rs[0] == ReadingOf(bits[pos..end], items[0])) &&
     Readings(bits, end, items[1..], rs[1..])))
  }

  lemma {:induction false} ReadingsSnoc(bits: seq<bool>, pos: nat, items: seq<Item>, rs: seq<Reading>, item: Item,
                                        r: Reading)
    requires Readings(bits, pos, items, rs) && EndAll(pos, items) <= End(EndAll(pos, items), item) <= |bits|
    requires HasValue(item) ==> r == ReadingOf(bits[EndAll(pos, items)..End(EndAll(pos, items), item)], item)
    ensures Readings(bits, pos, items + [item], rs + [r])
    ensures EndAll(pos, items + [item]) == End(EndAll(pos, items), item)
    decreases |items|
  {
    if items == [] {
      assert [item][1..] == [] && rs == [] && [r][1..] == [];
    } else {
      assert (items + [item])[1..] == items[1..] + [item] && (rs + [r])[1..] == rs[1..] + [r];
      ReadingsSnoc(bits, End(pos, items[0]), items[1..], rs[1..], item, r);
    }
  }

  method ReadItems(rd: Reader, items: seq<Item>) returns (rs: seq<Reading>)
    requires rd.Valid() && Narrow(items, 32) && EndAll(rd.Pos(), items) <= 8 * rd.len
    modifies rd`buf, rd`num, rd`ptr, rd`past
    ensures rd.Valid() && rd.Pos() == EndAll(old(rd.Pos()), items)
    ensures Readings(rd.Input(), old(rd.Pos()), items, rs)
  {
    hide End, ReadingOf, BitsOf, Pow2;
    ghost var p0, bits := rd.Pos(), rd.Input();
    rs := [];
    var i := 0;
    while i < |items|
      invariant 0 <= i <= |items| && rd.Valid() && rd.Pos() == EndAll(p0, items[..i])
      invariant Readings(bits, p0, items[..i], rs)
    {
      NextEnd(p0, items, i);
      assert items[..i + 1] == items[..i] + [items[i]];
      ghost var p := rd.Pos();
      var r := ReadItem(rd, items[i]);
      ReadingsSnoc(bits, p0, items[..i], rs, items[i], r);
      rs := rs + [r];
      i := i + 1;
    }
    assert items[..i] == items;
  }

  // Every item's end is within the end of all.
  lemma {:induction false} NextEnd(p: nat, items: seq<Item>, i: nat)
    requires i < |items|
    ensures EndAll(p, items[..i]) <= End(EndAll(p, items[..i]), items[i]) <= EndAll(p, items)
    decreases i
  {
    if i == 0 {
      EndAllGrows(End(p, items[0]), End(p, items[0]), items[1..]);
    } else {
      assert items[..i][1..] == items[1..][..i - 1] && items[..i][0] == items[0];
      NextEnd(End(p, items[0]), items[1..], i - 1);
    }
  }

  // Numbers read are the numbers written.
  predicate Reproduces(items: seq<Item>, rs: seq<Reading>) {
    |rs| == |items| && forall i :: 0 <= i < |items| && items[i].Number? ==>
        Returns(items[i].value, items[i].width, rs[i])
  }

  predicate Returns(v: int, n: nat, r: Reading) {
    n > 0 ==> r.unsigned == v % Pow2(n) && (-(Pow2(n - 1) as int) <= v < Pow2(n - 1) ==> r.signed == v)
  }

  lemma {:induction false} ReadBackReproduces(bits: seq<bool>, pos: nat, items: seq<Item>, rs: seq<Reading>)
    requires ReadsBack(bits, pos, items) && Readings(bits, pos, items, rs)
    ensures Reproduces(items, rs)
    decreases |items|
  {
    if items != [] {
      ReadBackReproduces(bits, End(pos, items[0]), items[1..], rs[1..]);
      forall i | 0 <= i < |items| && items[i].Number? ensures Returns(items[i].value, items[i].width, rs[i]) {
        if i > 0 {
          assert items[1..][i - 1] == items[i] && rs[1..][i - 1] == rs[i];
        }
      }
    }
  }

  // Written to an array, synced, and read from it: on intact lists every number
  // comes back, signed or not, and the reader stops where the writer stopped; the
  // array behind the writer's last byte is untouched.  The input may be followed
  // by anything.
  method Exchange(items: seq<Item>, dst: array<Byte>, w: nat, masks: nat -> seq<bool>, over: seq<bool> -> seq<bool>,
                  behind: seq<Byte>) returns (rs: seq<Reading>)
    requires w >= 32 && w % 8 == 0 && Masks(masks, w) && |behind| >= 4 && Pow2(w) > 8 * (dst.Length + 4)
    requires Narrow(items, 32) && EndAll(0, items) <= 8 * dst.Length
    modifies dst
    ensures |rs| == |items|
    ensures Aligned(Pen([], 0), w) && (Intact(Pen([], 0), items, w) ==> Reproduces(items, rs))
    ensures forall j :: |PutSync(PutAll(Pen([], 0), items, w)).out| <= 8 * j < 8 * dst.Length ==> dst[j] == old(dst[j])
  {
    hide BitsOf, PutBits, PutSync, Pow2;
    WriteSynced(items, dst, w);
    ghost var out := PutSync(PutAll(Pen([], 0), items, w)).out;
    var input := dst[..] + behind;
    var rd := new Reader(w, masks, over, input, dst.Length);
    rs := ReadItems(rd, items);
    if Intact(Pen([], 0), items, w) {
      SyncKeeps(items, w);
      InputStarts(dst[..], |out| / 8, behind);
      IntactReadsBack(Pen([], 0), items, w, rd.Input());
      ReadBackReproduces(rd.Input(), 0, items, rs);
    }
  }

  lemma SyncKeeps(items: seq<Item>, w: nat)
    requires w >= 32 && w % 8 == 0 && Narrow(items, w)
    ensures Aligned(Pen([], 0), w)
    ensures PutAll(Pen([], 0), items, w).out <= PutSync(PutAll(Pen([], 0), items, w)).out
  {
  }

  // The list written from the start of the array, and synced.
  method WriteSynced(items: seq<Item>, dst: array<Byte>, w: nat)
    requires w >= 32 && w % 8 == 0 && Narrow(items, w) && EndAll(0, items) <= 8 * dst.Length
    modifies dst
    ensures Aligned(Pen([], 0), w)
    ensures var out := PutSync(PutAll(Pen([], 0), items, w)).out;
      && |out| % 8 == 0 && |out| / 8 <= dst.Length && BitsOf(dst[..|out| / 8]) == out
      && forall j :: |out| / 8 <= j < dst.Length ==> dst[j] == old(dst[j])
  {
    hide BitsOf, Put, PutBits;
    var wr := new Writer(w, dst, dst.Length);
    WriteItems(wr, items);
    assert forall j :: wr.ptr <= j < dst.Length ==> dst[j] == old(dst[j]);
    wr.Sync();
    assert BitsOf(dst[..wr.ptr]) + wr.buf[..0] == BitsOf(dst[..wr.ptr]);
  }

  // The array's first bytes are the input's first bits.
  lemma InputStarts(d: seq<Byte>, k: nat, behind: seq<Byte>)
    requires k <= |d|
    ensures BitsOf(d[..k]) <= BitsOf(d + behind)[..8 * |d|]
  {
    BitsOfConcat(d, behind);
    BitsOfConcat(d[..k], d[k..]);
    assert d == d[..k] + d[k..];
    assert BitsOf(d + behind)[..8 * |d|] == BitsOf(d);
  }
}
