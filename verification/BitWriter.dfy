// The writing half of struct bitval (base/bitval.c, base/bitval.h): bits gather
// in a word and go to the array when it is full.  Each call is proved against a
// function on what has been written so far.
module BitWriter {
  import opened Bits

  // What has been written, and how many of its last bits are still in the word.
  datatype Pen = Pen(out: seq<bool>, num: nat)

  // Bits from num to the end of its last byte.
  function Spare(num: nat): (r: nat)
    ensures r < 8 && (num + r) % 8 == 0
  {
    (num + 7) / 8 * 8 - num
  }

  // Writing v to a word of w bits.  When v runs over the end of the word, the
  // word is flushed by the count it had before v was added.
  function PutBits(p: Pen, v: seq<bool>, w: nat): Pen
    requires p.num <= w && |v| <= w
  {
    if v == [] then p
    else if p.num == w then Pen(p.out + v, |v|)
    else if p.num + |v| <= w then Pen(p.out + v, p.num + |v|)
    else
      var room := w - p.num;
      Pen(p.out + v[..if Spare(p.num) < room then Spare(p.num) else room] + v[room..], |v| - room)
  }

  function PutZeros(p: Pen, n: nat, w: nat): Pen
    requires p.num <= w
  {
    Pen(p.out + Zeros(n), if p.num + n <= w then p.num + n else (p.num + n - w) % 8)
  }

  function PutSync(p: Pen): Pen {
    Pen(p.out + Zeros(Spare(p.num)), 0)
  }

  // What of r does not fit behind c is shifted out.
  lemma OrBehind(c: seq<bool>, r: seq<bool>, w: nat)
    requires |c| <= w && |r| <= w
    ensures Or(Pad(c, w), Shr(Pad(r, w), |c|)) == Pad(c + r[..if |r| < w - |c| then |r| else w - |c|], w)
  {
  }

  // What the loop of bitval_write_ubits still does: c is in the word, counted
  // as field bits, and r is to come.
  function Loop(bytes: seq<bool>, c: seq<bool>, field: nat, r: seq<bool>, w: nat): Pen
    requires |c| <= w && field <= w && w > 0 && w % 8 == 0
    decreases |r|
  {
    if r == [] then Pen(bytes + c, |c|)
    else if |c| == w then
      var t := if |r| < w then |r| else w;
      Loop(bytes + c[..(field + 7) / 8 * 8], r[..t], 0, r[t..], w)
    else
      var t := if |r| < w - |c| then |r| else w - |c|;
      Loop(bytes, c + r[..t], field, r[t..], w)
  }

  lemma LoopStep(bytes: seq<bool>, c: seq<bool>, field: nat, r: seq<bool>, w: nat)
    requires |c| <= w && field <= w && w > 0 && w % 8 == 0 && r != []
    ensures var full := |c| == w; var c' := if full then [] else c;
      var t := if |r| < w - |c'| then |r| else w - |c'|;
      Loop(bytes, c, field, r, w) ==
      Loop(if full then bytes + c[..(field + 7) / 8 * 8] else bytes, c' + r[..t], if full then 0 else field, r[t..], w)
  {
    assert [] + r[..if |r| < w then |r| else w] == r[..if |r| < w then |r| else w];
  }

  lemma LoopWrites(bytes: seq<bool>, c: seq<bool>, r: seq<bool>, w: nat)
    requires |c| <= w && |r| <= w && w > 0 && w % 8 == 0
    ensures Loop(bytes, c, |c|, r, w) == PutBits(Pen(bytes + c, |c|), r, w)
  {
    hide Spare, Loop;
    if r == [] {
      LoopDone(bytes, c, |c|, w);
    } else if |c| < w && |r| > w - |c| {
      LoopOverruns(bytes, c, r, w);
    } else if |c| == w {
      LoopFlushes(bytes, c, r, w);
    } else {
      LoopFits(bytes, c, r, w);
    }
  }

  // One turn is enough: from a full word, after flushing it whole,
  lemma LoopFlushes(bytes: seq<bool>, c: seq<bool>, r: seq<bool>, w: nat)
    requires |c| == w && r != [] && |r| <= w && w % 8 == 0
    ensures Loop(bytes, c, w, r, w) == Pen(bytes + c + r, |r|)
  {
    hide Loop;
    LoopStep(bytes, c, w, r, w);
    LoopDone(bytes + c, r, 0, w);
    Whole(c);
    Whole(r);
    assert [] + r == r;
  }

  // or where there is room.
  lemma LoopFits(bytes: seq<bool>, c: seq<bool>, r: seq<bool>, w: nat)
    requires r != [] && |c| + |r| <= w && w % 8 == 0
    ensures Loop(bytes, c, |c|, r, w) == Pen(bytes + c + r, |c| + |r|)
  {
    hide Loop;
    LoopStep(bytes, c, |c|, r, w);
    LoopDone(bytes, c + r, |c|, w);
    Whole(r);
    assert bytes + (c + r) == bytes + c + r;
  }

  lemma Whole(s: seq<bool>)
    ensures s[..|s|] == s && s[|s|..] == []
  {
  }

  lemma LoopDone(bytes: seq<bool>, c: seq<bool>, field: nat, w: nat)
    requires |c| <= w && field <= w && w > 0 && w % 8 == 0
    ensures Loop(bytes, c, field, [], w) == Pen(bytes + c, |c|)
  {
  }

  // The loop's second turn flushes by the count from before the first.
  lemma LoopOverruns(bytes: seq<bool>, c: seq<bool>, r: seq<bool>, w: nat)
    requires |c| < w && w - |c| < |r| <= w && w % 8 == 0
    ensures var room := w - |c|;
      Loop(bytes, c, |c|, r, w)
      == Pen(bytes + c + r[..if Spare(|c|) < room then Spare(|c|) else room] + r[room..], |r| - room)
  {
    var room, k := w - |c|, (|c| + 7) / 8 * 8;
    var c', r' := c + r[..room], r[room..];
    assert Loop(bytes, c, |c|, r, w) == Loop(bytes, c', |c|, r', w);
    assert r'[..|r'|] == r' && r'[|r'|..] == [];
    assert Loop(bytes, c', |c|, r', w) == Pen(bytes + c'[..k] + r', |r'|);
    assert bytes + c'[..k] == bytes + c + r[..Spare(|c|)];
  }

  function ZeroBytesOf(k: nat): (r: seq<Byte>)
    ensures |r| == k && forall i :: 0 <= i < k ==> r[i] == Zeros(8)
  {
    if k == 0 then [] else [Zeros(8)] + ZeroBytesOf(k - 1)
  }

  lemma {:induction false} BitsOfZeros(k: nat)
    ensures BitsOf(ZeroBytesOf(k)) == Zeros(8 * k)
  {
    if k > 0 {
      BitsOfZeros(k - 1);
      assert ZeroBytesOf(k)[1..] == ZeroBytesOf(k - 1);
      assert Zeros(8) + Zeros(8 * (k - 1)) == Zeros(8 * k);
    }
  }

  lemma NothingPadded(w: nat)
    ensures Zeros(w) == Pad([], w)
  {
  }

  lemma MoreZeros(out: seq<bool>, a: nat, b: nat)
    ensures out + Zeros(a) + Zeros(b) == out + Zeros(a + b)
  {
  }

  lemma NoZeros(out: seq<bool>)
    ensures out + Zeros(0) == out
  {
  }

  // A padded word's bits up to k are its first n and zeros.
  lemma PadEnd(before: seq<bool>, b: seq<bool>, n: nat, k: nat)
    requires n <= k <= |b| && b == Pad(b[..n], |b|)
    ensures before + b[..k] == before + b[..n] + Zeros(k - n)
  {
    assert b[..k] == b[..n] + Zeros(k - n);
  }

  // A sequence that agrees with three parts, index by index.
  lemma Glue<T>(d: seq<T>, a: seq<T>, b: seq<T>, c: seq<T>)
    requires |d| == |a| + |b| + |c|
    requires forall i :: 0 <= i < |a| ==> d[i] == a[i]
    requires forall i :: |a| <= i < |a| + |b| ==> d[i] == b[i - |a|]
    requires forall i :: |a| + |b| <= i < |d| ==> d[i] == c[i - |a| - |b|]
    ensures d == a + b + c
  {
  }

  lemma GlueTwo<T>(d: seq<T>, a: seq<T>, b: seq<T>)
    requires |d| == |a| + |b|
    requires forall i :: 0 <= i < |a| ==> d[i] == a[i]
    requires forall i :: |a| <= i < |d| ==> d[i] == b[i - |a|]
    ensures d == a + b
  {
  }

  lemma NthByte(b: seq<bool>, k: nat, i: nat)
    requires 8 * k <= |b| && i < k
    ensures Shl(b, 8 * i)[..8] == TopBytes(b, k)[i]
  {
    assert TopBytes(b, k)[i] == b[8 * i..8 * i + 8];
  }

  lemma ShlShl(b: seq<bool>, k: nat)
    ensures Shl(Shl(b, k), 8) == Shl(b, k + 8) && Shl(b, 0) == b
  {
  }

  class Writer {
    const W: nat                 // bits of buffer_t
    const len: nat               // bytes the caller gave
    const data: array<Byte>
    var buf: seq<bool>
    var num: nat
    var ptr: nat

    ghost predicate Valid()
      reads this
    {
      && W >= 32 && W % 8 == 0 && len <= data.Length
      && num <= W && 8 * ptr + num <= 8 * len
      && |buf| == W && buf == Pad(buf[..num], W)
    }

    ghost function View(): Pen
      requires Valid()
      reads this, data
    {
      Pen(BitsOf(data[..ptr]) + buf[..num], num)
    }

    // bitval_init_write
    constructor (width: nat, dst: array<Byte>, n: nat)
      requires width >= 32 && width % 8 == 0 && n <= dst.Length
      ensures Valid() && View() == Pen([], 0) && data == dst && len == n && W == width && ptr == 0
    {
      W, len, data := width, n, dst;
      buf, num, ptr := Zeros(width), 0, 0;
    }

    // The first k bytes of the word to the array: the last first or, when they
    // are many, the first first.
    method Store(k: nat)
      requires ptr + k <= data.Length && 8 * k <= |buf|
      modifies data
      ensures data[..] == old(data[..ptr]) + TopBytes(buf, k) + old(data[ptr + k..])
    {
      hide TopBytes;
      if k <= 4 {
        StoreDown(k);
      } else {
        StoreUp(k);
      }
      Glue(data[..], old(data[..ptr]), TopBytes(buf, k), old(data[ptr + k..]));
    }

    method StoreDown(k: nat)
      requires ptr + k <= data.Length && 8 * k <= |buf|
      modifies data
      ensures forall j :: 0 <= j < data.Length && !(ptr <= j < ptr + k) ==> data[j] == old(data[j])
      ensures forall j :: ptr <= j < ptr + k ==> data[j] == TopBytes(buf, k)[j - ptr]
    {
      hide TopBytes;
      var i := k;
      while i > 0
        invariant 0 <= i <= k
        invariant forall j :: 0 <= j < data.Length && !(ptr + i <= j < ptr + k) ==> data[j] == old(data[j])
        invariant forall j :: ptr + i <= j < ptr + k ==> data[j] == TopBytes(buf, k)[j - ptr]
      {
        i := i - 1;
        NthByte(buf, k, i);
        data[ptr + i] := Shl(buf, 8 * i)[..8];
      }
    }

    method StoreUp(k: nat)
      requires ptr + k <= data.Length && 8 * k <= |buf|
      modifies data
      ensures forall j :: 0 <= j < data.Length && !(ptr <= j < ptr + k) ==> data[j] == old(data[j])
      ensures forall j :: ptr <= j < ptr + k ==> data[j] == TopBytes(buf, k)[j - ptr]
    {
      hide TopBytes;
      var i, b := 0, buf;
      ShlShl(buf, 0);
      while i < k
        invariant i <= k && b == Shl(buf, 8 * i)
        invariant forall j :: 0 <= j < data.Length && !(ptr <= j < ptr + i) ==> data[j] == old(data[j])
        invariant forall j :: ptr <= j < ptr + i ==> data[j] == TopBytes(buf, k)[j - ptr]
      {
        NthByte(buf, k, i);
        ShlShl(buf, 8 * i);
        data[ptr + i] := b[..8];
        b := Shl(b, 8);
        i := i + 1;
      }
    }

    // bitval_flush_write
    method Flush()
      requires W % 8 == 0 && |buf| == W && num <= W && ptr + (num + 7) / 8 <= data.Length
      modifies this`buf, this`num, this`ptr, data
      ensures num == 0 && ptr == old(ptr) + (old(num) + 7) / 8
      ensures buf == if old(num) == 0 then old(buf) else Zeros(W)
      ensures BitsOf(data[..ptr]) == BitsOf(old(data[..ptr])) + old(buf)[..8 * (ptr - old(ptr))]
      ensures forall j :: 0 <= j < old(ptr) || ptr <= j < data.Length ==> data[j] == old(data[j])
    {
      if num != 0 {
        var k := (num + 7) / 8;
        Store(k);
        ghost var before, top := old(data[..ptr]), TopBytes(buf, k);
        BitsOfConcat(before, top);
        TopBytesBits(buf, k);
        assert data[..ptr + k] == before + top;
        buf, num := Zeros(W), 0;
        ptr := ptr + k;
      }
    }

    // Bytes in front of from and from the cursor on are as they were.
    twostate predicate Untouched(from: nat)
      reads this, data
    {
      && from <= ptr <= data.Length
      && forall j :: 0 <= j < from || ptr <= j < data.Length ==> data[j] == old(data[j])
    }

    // bitval_write_ubits.  val is any integer: the word takes its low bits.
    method WriteUbits(val: int, n: nat)
      requires Valid() && n <= W && 8 * ptr + num + n <= 8 * len
      modifies this`buf, this`num, this`ptr, data
      ensures Valid() && Untouched(old(ptr))
      ensures View() == PutBits(old(View()), Low(val, n), W)
    {
      var v := Shl(Low(val, W), W - n);
      ShiftedUp(val, n, W);
      ghost var c, r := buf[..num], Low(val, n);
      LoopWrites(BitsOf(data[..ptr]), c, r, W);
      var left, at := n, num;
      while left != 0
        invariant Looping(c, r, left, at, v) && Untouched(old(ptr))
        invariant Loop(BitsOf(data[..ptr]), c, num, r, W) == PutBits(old(View()), Low(val, n), W)
      {
        left, at, v, c, r := Turn(c, r, left, at, v);
      }
      num := at;
    }

    // The state between two turns of the loop: c is in the word, r is to come.
    ghost predicate Looping(c: seq<bool>, r: seq<bool>, left: nat, at: nat, v: seq<bool>)
      reads this
    {
      && W >= 32 && W % 8 == 0 && len <= data.Length && num <= W
      && left == |r| <= W && at == |c| <= W && |buf| == W && buf == Pad(c, W) && v == Pad(r, W)
      && (left > 0 ==> num <= at && at - num + left <= W) && 8 * ptr + at + left <= 8 * len
    }

    method Turn(ghost c0: seq<bool>, ghost r0: seq<bool>, left0: nat, at0: nat, v0: seq<bool>)
      returns (left: nat, at: nat, v: seq<bool>, ghost c: seq<bool>, ghost r: seq<bool>)
      requires Looping(c0, r0, left0, at0, v0) && left0 > 0
      modifies this`buf, this`num, this`ptr, data
      ensures Looping(c, r, left, at, v) && Untouched(old(ptr)) && left < left0
      ensures Loop(BitsOf(data[..ptr]), c, num, r, W) == old(Loop(BitsOf(data[..ptr]), c0, num, r0, W))
    {
      hide BitsOf, Loop, Zeros, Pad;
      at, c := at0, c0;
      ghost var k := (num + 7) / 8 * 8;
      LoopStep(BitsOf(data[..ptr]), c, num, r0, W);
      if at == W {
        assert c0[..|c0|] == c0 && buf[..|buf|] == buf;
        assert buf == c0;
        Flush();
        NothingPadded(W);
        assert BitsOf(data[..ptr]) == old(BitsOf(data[..ptr])) + c0[..k];
        c := [];
        at := 0;
      }
      var wrt := if left0 < W - at then left0 else W - at;
      v := Fill(c, r0, v0, wrt, at);
      c, r := c + r0[..wrt], r0[wrt..];
      left, at := left0 - wrt, at + wrt;
    }

    // As many bits as fit go behind those of the word.
    method Fill(ghost c: seq<bool>, ghost r: seq<bool>, v: seq<bool>, wrt: nat, at: nat) returns (v': seq<bool>)
      requires |c| == at <= W && |r| <= W && |buf| == W && buf == Pad(c, W) && v == Pad(r, W)
      requires wrt == if |r| < W - at then |r| else W - at
      modifies this`buf
      ensures buf == Pad(c + r[..wrt], W) && v' == Pad(r[wrt..], W)
    {
      OrBehind(c, r, W);
      DropTop(r, wrt, W);
      buf := Or(buf, Shr(v, at));
      v' := Shl(v, wrt);
    }

    // bitval_sync, writing
    method Sync()
      requires Valid()
      modifies this`buf, this`num, this`ptr, data
      ensures Valid() && Untouched(old(ptr))
      ensures View() == PutSync(old(View()))
    {
      hide BitsOf, Zeros, Pad;
      NothingPadded(W);
      ghost var b, before, n, k := buf, BitsOf(data[..ptr]), num, (num + 7) / 8 * 8;
      Flush();
      PadEnd(before, b, n, k);
      assert buf[..0] == [];
    }

    // bitval_zero_bits
    method ZeroBits(n: nat)
      requires Valid() && 8 * ptr + num + n <= 8 * len
      modifies this`buf, this`num, this`ptr, data
      ensures Valid() && Untouched(old(ptr))
      ensures View() == PutZeros(old(View()), n, W)
    {
      hide BitsOf, Zeros, Pad;
      var left := n;
      ghost var out := View().out;
      NoZeros(out);
      if num != W {
        var wrt := if n < W - num then n else W - num;
        ZeroWord(wrt);
        left := left - wrt;
      }
      if left > 0 {
        ZeroRest(left);
        MoreZeros(out, n - left, left);
      }
    }

    // Zeros that fit the word are in it already.
    method ZeroWord(n: nat)
      requires Valid() && num + n <= W && 8 * ptr + num + n <= 8 * len
      modifies this`num
      ensures Valid() && Untouched(old(ptr)) && ptr == old(ptr)
      ensures View() == Pen(old(View()).out + Zeros(n), old(num) + n)
    {
      assert buf[..num + n] == buf[..num] + Zeros(n);
      num := num + n;
    }

    // The word is full: whole bytes go straight to the array.
    method ZeroRest(n: nat)
      requires Valid() && num == W && 8 * ptr + num + n <= 8 * len
      modifies this`buf, this`num, this`ptr, data
      ensures Valid() && Untouched(old(ptr))
      ensures View() == Pen(old(View()).out + Zeros(n), n % 8)
    {
      hide BitsOf;
      ghost var out := View().out;
      var k := n / 8;
      assert buf[..W] == buf;
      Flush();
      assert BitsOf(data[..ptr]) == out;
      ZeroBytes(k);
      num := n % 8;
      assert buf[..num] == Zeros(num);
      MoreZeros(out, 8 * k, num);
    }

    method ZeroBytes(k: nat)
      requires ptr + k <= data.Length
      modifies this`ptr, data
      ensures ptr == old(ptr) + k && Untouched(old(ptr))
      ensures BitsOf(data[..ptr]) == BitsOf(old(data[..ptr])) + Zeros(8 * k)
    {
      var i := k;
      while i > 0
        invariant 0 <= i <= k && ptr == old(ptr)
        invariant forall j :: 0 <= j < data.Length && !(ptr + i <= j < ptr + k) ==> data[j] == old(data[j])
        invariant forall j :: ptr + i <= j < ptr + k ==> data[j] == Zeros(8)
      {
        i := i - 1;
        data[ptr + i] := Zeros(8);
      }
      ghost var z := ZeroBytesOf(k);
      GlueTwo(data[..ptr + k], old(data[..ptr]), z);
      BitsOfConcat(old(data[..ptr]), z);
      BitsOfZeros(k);
      ptr := ptr + k;
    }
  }
}
