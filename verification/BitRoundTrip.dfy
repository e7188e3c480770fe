// What is written is read back: any list of numbers, zero fills and syncs.
module BitRoundTrip {
  import opened Bits
  import opened BitReader
  import opened BitWriter

  datatype Item = Number(value: int, width: nat) | Blank(width: nat) | ToByte

  // No number is wider than n bits.
  predicate Narrow(items: seq<Item>, n: nat) {
    forall i :: 0 <= i < |items| && items[i].Number? ==> items[i].width <= n
  }

  // One call of the writer.
  function Put(p: Pen, item: Item, w: nat): Pen
    requires p.num <= w && (item.Number? ==> item.width <= w)
  {
    match item
    case Number(v, n) => PutBits(p, Low(v, n), w)
    case Blank(n) => PutZeros(p, n, w)
    case ToByte => PutSync(p)
  }

  // The position behind an item, read from position pos.
  function End(pos: nat, item: Item): nat {
    match item
    case Number(_, n) => pos + n
    case Blank(n) => pos + n
    case ToByte => ByteEdge(pos)
  }

  // The bits a call loses: when the number runs over the end of the word, all
  // between the last byte begun before the call and the end of the word.
  function Lost(p: Pen, item: Item, w: nat): (r: nat)
    requires p.num <= w
  {
    if item.Number? && Overruns(p, item.width, w) && Spare(p.num) <= w - p.num
    then w - p.num - Spare(p.num)
    else 0
  }

  ghost predicate Aligned(p: Pen, w: nat) {
    p.num <= w && w % 8 == 0 && w >= 32 && p.num <= |p.out| && (|p.out| - p.num) % 8 == 0
  }

  lemma LostIff(p: Pen, item: Item, w: nat)
    requires Aligned(p, w) && (item.Number? ==> item.width <= w)
    ensures Lost(p, item, w) % 8 == 0
    ensures Lost(p, item, w) > 0 <==> item.Number? && p.num <= w - 8 && p.num + item.width > w
  {
    if p.num < w {
      SpareFits(p.num, w);
    }
  }

  lemma PutKeeps(p: Pen, item: Item, w: nat)
    requires Aligned(p, w) && (item.Number? ==> item.width <= w)
    ensures Aligned(Put(p, item, w), w)
    ensures |Put(p, item, w).out| + Lost(p, item, w) == End(|p.out|, item)
    ensures p.out <= Put(p, item, w).out
    ensures Lost(p, item, w) == 0 ==> Put(p, item, w).out == p.out + ItemBits(|p.out|, item)
  {
    hide Spare, ByteEdge, PutBits, Low;
    match item {
      case Number(v, n) =>
        PutBitsAligned(p, Low(v, n), w);
        PutBitsExact(p, Low(v, n), w);
        if p.num < w {
          SpareFits(p.num, w);
        }
      case Blank(n) => PutZerosAligned(p, n, w);
      case ToByte =>
        SpareIsEdge(p.num, |p.out|);
        Sum8(|p.out| - p.num, p.num + Spare(p.num));
    }
  }

  lemma Sum8(a: int, b: int)
    requires a % 8 == 0 && b % 8 == 0
    ensures (a + b) % 8 == 0
  {
  }

  lemma PutZerosAligned(p: Pen, n: nat, w: nat)
    requires Aligned(p, w)
    ensures Aligned(PutZeros(p, n, w), w)
  {
    if p.num + n > w {
      var d := (p.num + n - w) / 8 * 8;
      Sum8(|p.out| - p.num, w);
      Sum8(|p.out| - p.num + w, d);
    }
  }

  lemma SpareIsEdge(num: nat, pos: nat)
    requires num <= pos && (pos - num) % 8 == 0
    ensures ByteEdge(pos) == pos + Spare(num)
  {
    Sum8(pos - num, num + Spare(num));
    EdgeIsUnique(pos, (pos + Spare(num)) / 8);
  }

  lemma PutBitsAligned(p: Pen, v: seq<bool>, w: nat)
    requires Aligned(p, w) && |v| <= w
    ensures Aligned(PutBits(p, v, w), w)
  {
    hide Spare;
    if p.num == w {
      Sum8(|p.out| - p.num, w);
    } else if p.num + |v| > w {
      SpareFits(p.num, w);
      Sum8(|p.out| - p.num, p.num + Spare(p.num));
    }
  }

  lemma PutBitsExact(p: Pen, v: seq<bool>, w: nat)
    requires p.num <= w && w % 8 == 0 && w >= 32 && |v| <= w
    ensures var q := PutBits(p, v, w); var lost := if Overruns(p, |v|, w) then w - p.num - Spare(p.num) else 0;
      p.out <= q.out && |q.out| + lost == |p.out| + |v| && (lost == 0 ==> q.out == p.out + v)
  {
    hide Spare;
    if Overruns(p, |v|, w) {
      var room := w - p.num;
      SpareFits(p.num, w);
      if Spare(p.num) == room {
        assert p.out + v[..room] + v[room..] == p.out + v;
      }
    }
  }

  predicate Overruns(p: Pen, n: nat, w: nat) {
    p.num < w && p.num + n > w
  }

  lemma SpareFits(num: nat, w: nat)
    requires num < w && w % 8 == 0
    ensures num + Spare(num) <= w && (w - num - Spare(num)) % 8 == 0
  {
  }

  // The bits an item puts behind position pos.
  function ItemBits(pos: nat, item: Item): seq<bool> {
    match item
    case Number(v, n) => Low(v, n)
    case Blank(n) => Zeros(n)
    case ToByte => Zeros(ByteEdge(pos) - pos)
  }

  function PutAll(p: Pen, items: seq<Item>, w: nat): Pen
    requires Aligned(p, w) && Narrow(items, w)
    decreases |items|
  {
    if items == [] then p
    else
      var p' := Put(p, items[0], w);
      assert Aligned(p', w) by { PutKeeps(p, items[0], w); }
      PutAll(p', items[1..], w)
  }

  function EndAll(pos: nat, items: seq<Item>): nat
    decreases |items|
  {
    if items == [] then pos else EndAll(End(pos, items[0]), items[1..])
  }

  function LostAll(p: Pen, items: seq<Item>, w: nat): nat
    requires Aligned(p, w) && Narrow(items, w)
    decreases |items|
  {
    if items == [] then 0
    else
      var p' := Put(p, items[0], w);
      assert Aligned(p', w) by { PutKeeps(p, items[0], w); }
      Lost(p, items[0], w) + LostAll(p', items[1..], w)
  }

  // No number of the list meets a word it overruns with whole bytes still free.
  predicate Intact(p: Pen, items: seq<Item>, w: nat)
    requires p.num <= w && w >= 32 && Narrow(items, w)
    decreases |items|
  {
    items == [] ||
    (!(items[0].Number? && p.num + 8 <= w && p.num + items[0].width > w)
     && Put(p, items[0], w).num <= w && Intact(Put(p, items[0], w), items[1..], w))
  }

  // Reading bits from pos by the widths of the items gives their values, and
  // zeros where they were filled in.
  ghost predicate ReadsBack(bits: seq<bool>, pos: nat, items: seq<Item>)
    decreases |items|
  {
    items == [] ||
    (var end := End(pos, items[0]);
     end <= |bits| && ReadsItem(bits[pos..end], items[0]) && ReadsBack(bits, end, items[1..]))
  }

  ghost predicate ReadsItem(b: seq<bool>, item: Item) {
    match item
    case Number(v, n) =>
      && Value(b) == v % Pow2(n)
      && (n > 0 && -(Pow2(n - 1) as int) <= v < Pow2(n - 1) ==> Signed(b) == v)
    case _ => b == Zeros(|b|)
  }

  lemma ItemReads(pos: nat, item: Item)
    ensures ReadsItem(ItemBits(pos, item), item) && pos + |ItemBits(pos, item)| == End(pos, item)
  {
    if item.Number? {
      ValueLow(item.value, item.width);
      if item.width > 0 && -(Pow2(item.width - 1) as int) <= item.value < Pow2(item.width - 1) {
        SignedLow(item.value, item.width);
      }
    }
  }

  lemma {:induction false} EndShift(pos: nat, k: nat, items: seq<Item>)
    ensures EndAll(pos + 8 * k, items) == EndAll(pos, items) + 8 * k
    decreases |items|
  {
    if items != [] {
      EdgeIsUnique(pos + 8 * k, ByteEdge(pos) / 8 + k);
      EndShift(End(pos, items[0]), k, items[1..]);
    }
  }

  // How much is missing at the end is what the calls lost, and that is nothing
  // exactly on intact lists.
  lemma {:induction false} PutAllLength(p: Pen, items: seq<Item>, w: nat)
    requires Aligned(p, w) && Narrow(items, w)
    ensures |PutAll(p, items, w).out| + LostAll(p, items, w) == EndAll(|p.out|, items)
    ensures Intact(p, items, w) <==> LostAll(p, items, w) == 0
    ensures p.out <= PutAll(p, items, w).out && Aligned(PutAll(p, items, w), w)
    decreases |items|
  {
    hide Put, Lost, End, Spare;
    if items != [] {
      var p' := Put(p, items[0], w);
      PutKeeps(p, items[0], w);
      LostIff(p, items[0], w);
      PutAllLength(p', items[1..], w);
      EndShift(|p'.out|, Lost(p, items[0], w) / 8, items[1..]);
    }
  }

  lemma {:induction false} IntactReadsBack(p: Pen, items: seq<Item>, w: nat, bits: seq<bool>)
    requires Aligned(p, w) && Narrow(items, w) && Intact(p, items, w) && PutAll(p, items, w).out <= bits
    ensures ReadsBack(bits, |p.out|, items)
    decreases |items|
  {
    hide Put, Lost, ItemBits, ReadsItem, Spare;
    if items != [] {
      var p' := Put(p, items[0], w);
      PutKeeps(p, items[0], w);
      LostIff(p, items[0], w);
      PutAllLength(p', items[1..], w);
      ItemReads(|p.out|, items[0]);
      assert p'.out <= bits;
      assert bits[|p.out|..|p'.out|] == p'.out[|p.out|..] == ItemBits(|p.out|, items[0]);
      IntactReadsBack(p', items[1..], w, bits);
    }
  }

  // Any list written from the start of the array and synced: it is read back,
  // ending where the writing ended, exactly when no call lost bits.
  lemma WriteThenRead(items: seq<Item>, w: nat)
    requires w >= 32 && w % 8 == 0 && Narrow(items, w)
    ensures Aligned(Pen([], 0), w)
    ensures var p := PutAll(Pen([], 0), items, w);
      (ReadsBack(PutSync(p).out, 0, items) && EndAll(0, items) == |p.out|) <==> Intact(Pen([], 0), items, w)
  {
    var p0 := Pen([], 0);
    var p := PutAll(p0, items, w);
    PutAllLength(p0, items, w);
    if Intact(p0, items, w) {
      assert p.out <= PutSync(p).out;
      IntactReadsBack(p0, items, w, PutSync(p).out);
    }
  }

  // Forty bits, then thirty-two: the second call flushes five bytes of a full
  // eight-byte word, and 24 bits are gone.
  lemma OverrunLosesBits(a: int, b: int, c: int)
    ensures Aligned(Pen([], 0), 64)
    ensures var items := [Number(a, 32), Number(b, 8), Number(c, 32)];
      LostAll(Pen([], 0), items, 64) == 24 && !Intact(Pen([], 0), items, 64)
      && |PutAll(Pen([], 0), items, 64).out| == 48 && EndAll(0, items) == 72
  {
    var p0, i0, i1, i2 := Pen([], 0), Number(a, 32), Number(b, 8), Number(c, 32);
    var items := [i0, i1, i2];
    assert items[1..] == [i1, i2] && [i1, i2][1..] == [i2] && [i2][1..] == [];
    var p1 := Put(p0, i0, 64);
    var p2 := Put(p1, i1, 64);
    assert p1 == Pen([] + Low(a, 32), 32) && p2 == Pen(p1.out + Low(b, 8), 40);
    assert Aligned(p1, 64) && Aligned(p2, 64);
    PutAllLength(p0, items, 64);
    assert EndAll(40, [i2]) == EndAll(72, []) == 72;
    assert EndAll(0, items) == EndAll(32, [i1, i2]) == EndAll(40, [i2]);
    assert LostAll(p2, [i2], 64) == 24 + LostAll(Put(p2, i2, 64), [], 64);
  }

  // Lists with at most a word of bits between two syncs are intact.
  lemma {:induction false} ShortRunsAreIntact(p: Pen, items: seq<Item>, w: nat)
    requires w >= 32 && Narrow(items, w) && ShortRuns(p.num, items, w)
    ensures Intact(p, items, w)
    decreases |items|
  {
    if items != [] {
      ShortRunsAreIntact(Put(p, items[0], w), items[1..], w);
    }
  }

  predicate ShortRuns(num: nat, items: seq<Item>, w: nat)
    decreases |items|
  {
    num <= w && (items == [] || ShortRuns(if items[0].ToByte? then 0 else num + items[0].width, items[1..], w))
  }
}
