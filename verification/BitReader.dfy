// The reading half of struct bitval (base/bitval.c, base/bitval.h): a word of
// buffered bits in front of the unread bytes, proved to be a plain sequence of
// bits with a position.
module BitReader {
  import opened Bits

  function Min(a: int, b: int): int {
    if a < b then a else b
  }

  // The first byte boundary at or behind bit p.
  function ByteEdge(p: nat): (r: nat)
    ensures p <= r < p + 8 && r % 8 == 0
  {
    (p + 7) / 8 * 8
  }

  lemma EdgeIsUnique(p: nat, k: nat)
    requires p <= 8 * k < p + 8
    ensures ByteEdge(p) == 8 * k
  {
  }

  // How far a refill reads past the input when num bits are still accounted as
  // buffered and unread bytes are left.
  function Past(num: nat, unread: nat): (r: nat)
    ensures r > 0 <==> num >= 8 && unread < 4
    ensures r <= num / 8 && r <= 4
  {
    Min(unread + num / 8, 4) - Min(unread, 4)
  }

  // The masks of bitval_read_hbits: the top n bits are set.  Which of the others
  // are is left open, since the text shifts an int by more than its width where
  // buffer_t has 64 bits, and by the whole width of the word for n = 0.
  ghost predicate Masks(mask: nat -> seq<bool>, w: nat) {
    forall n :: 0 <= n <= 32 ==> |mask(n)| == w && Topped(mask(n), n)
  }

  ghost predicate Exact(mask: nat -> seq<bool>, w: nat)
    requires w >= 32
  {
    forall n :: 0 <= n <= 32 ==> mask(n) == TopMask(n, w)
  }

  // The fields that place a reader in its input.
  datatype Cursor = Cursor(ptr: int, num: int)

  // A read of n bits.
  function Moved(c: Cursor, n: nat, len: nat): Cursor {
    if n > c.num then
      var k := Min(len - c.ptr + c.num / 8, 4);
      Cursor(c.ptr + k, c.num + 8 * k - n)
    else
      Cursor(c.ptr, c.num - n)
  }

  class Reader {
    const W: nat                // bits of buffer_t: 32 or 64
    const mask: nat -> seq<bool>
    const over: seq<bool> -> seq<bool>    // a word shifted right by its whole width: anything
    const len: nat              // bytes of the input
    const memory: seq<Byte>     // the input, and whatever lies behind it
    var buf: seq<bool>
    var num: nat
    var ptr: nat                // ptr - beg
    ghost var past: nat         // bytes read behind the input, over all refills

    ghost function All(): (r: seq<bool>)
      ensures |r| == 8 * |memory|
    {
      BitsOf(memory)
    }

    // The bits there are to read.
    ghost function Input(): (r: seq<bool>)
      requires len <= |memory|
      ensures |r| == 8 * len
    {
      All()[..8 * len]
    }

    ghost predicate Valid()
      reads this
      ensures Valid() ==> len <= |memory| && W >= 32
    {
      && W >= 32 && Masks(mask, W) && |memory| >= len + 4 && Pow2(W) > 8 * (len + 4)
      && num <= 32 && num <= 8 * ptr && ptr <= len + 4 && 8 * ptr - num <= 8 * len
      && buf == Pad(All()[8 * ptr - num..8 * ptr], W)
    }

    // The position: bits behind it are the ones still to be read.
    ghost function Pos(): (r: nat)
      requires Valid()
      reads this
      ensures r <= 8 * len
    {
      8 * ptr - num
    }

    // bitval_init_read
    constructor (width: nat, masks: nat -> seq<bool>, past_end: seq<bool> -> seq<bool>, src: seq<Byte>, n: nat)
      requires width >= 32 && Masks(masks, width) && |src| >= n + 4 && Pow2(width) > 8 * (n + 4)
      ensures Valid() && Pos() == 0 && past == 0 && len == n && memory == src && W == width && mask == masks
      ensures ptr == 0 && num == 0
    {
      hide BitsOf, Pow2, Masks;
      W, mask, over, memory, len := width, masks, past_end, src, n;
      buf, num, ptr, past := Zeros(width), 0, 0, 0;
    }

    // bitval_number_bytes, in size_t arithmetic: ptr may stand behind the input.
    function NumberBytes(): int
      reads this
    {
      (len - ptr) % Pow2(W)
    }

    // bitval_remain_bits: despite the wrap-around it is the number of bits left.
    function RemainBits(): (r: int)
      requires Valid()
      reads this
      ensures r == 8 * len - Pos()
    {
      var r := (8 * NumberBytes() % Pow2(W) + num) % Pow2(W);
      assert r == 8 * len - (8 * ptr - num) by { Wrapped(len - ptr, num, Pow2(W)); }
      r
    }

    // bitval_remain_bytes
    function RemainBytes(): (r: int)
      reads this
      ensures Valid() ==> r == (8 * len - Pos()) / 8
    {
      WrappedBytes(len - ptr, num, Pow2(W));
      (NumberBytes() + num / 8) % Pow2(W)
    }

    // bitval_fill_hibuf: at most four bytes into the highest bits.  num is still
    // the count from before the refill.
    method FillHibuf()
      requires W >= 32 && |memory| >= len + 4 && Pow2(W) > 8 * (len + 4) && num <= 32 && ptr <= len
      modifies this`buf, this`num, this`ptr, this`past
      ensures ptr == old(ptr) + Min(len - old(ptr) + old(num) / 8, 4)
      ensures num == 8 * (ptr - old(ptr))
      ensures ptr <= |memory| && buf == Pad(All()[8 * old(ptr)..8 * ptr], W)
      ensures past == old(past) + Past(old(num), len - old(ptr))
      ensures past == old(past) + if ptr > len then ptr - len else 0
    {
      hide BitsOf, Pow2;
      SmallMod(len - ptr, Pow2(W));
      SmallMod(len - ptr + num / 8, Pow2(W));
      var remain := RemainBytes();
      var k := if remain < 4 then remain else 4;
      past := past + Past(num, len - ptr);
      var val := Pad(BitsOf(memory[ptr..ptr + k]), 32);
      BitsOfSlice(memory, ptr, ptr + k);
      buf := Pad(val, W);
      assert buf == Pad(BitsOf(memory[ptr..ptr + k]), W);
      num := 8 * k;
      ptr := ptr + k;
    }

    // What a call that needs n bits adds to past, when skip whole bytes are
    // stepped over before its refill.
    ghost function Strays(n: nat, skip: nat): nat
      reads this
    {
      if n > num && ptr + skip <= len then Past(num, len - ptr - skip) else 0
    }

    ghost function At(): Cursor
      reads this
    {
      Cursor(ptr, num)
    }

    // bitval_read_hbits
    method ReadHbits(n: nat) returns (h: seq<bool>)
      requires Valid() && n <= 32 && n <= RemainBits()
      modifies this`buf, this`num, this`ptr, this`past
      ensures Valid() && Pos() == old(Pos()) + n
      ensures |h| == W && h[..n] == Input()[old(Pos())..old(Pos()) + n]
      ensures Exact(mask, W) ==> h == Pad(Input()[old(Pos())..old(Pos()) + n], W)
      ensures past == old(past) + old(Strays(n, 0)) && At() == Moved(old(At()), n, len)
    {
      hide BitsOf, Pow2, Shl, Shr, Or, And, TopMask, Past, Moved, Strays, Exact, Masks, Pad;
      ghost var p, all := Pos(), All();
      var val, got := Front(n);
      var need := n - got;
      Halves(all, p, got, need, ptr);
      h := Extract(val, got, need, all[p..p + got], all[p + got..8 * ptr]);
      assert Input()[p..p + n] == all[p..p + n];
    }

    // What a read of n bits takes from before the refill.
    method Front(n: nat) returns (val: seq<bool>, got: nat)
      requires Valid() && n <= 32 && n <= RemainBits()
      modifies this`buf, this`num, this`ptr, this`past
      ensures Valid() && Pos() == old(Pos()) + got && got <= n <= got + num
      ensures val == Pad(All()[old(Pos())..Pos()], W)
      ensures past == old(past) + old(Strays(n, 0)) && Cursor(ptr, num - (n - got)) == Moved(old(At()), n, len)
    {
      hide BitsOf, Pow2, Past;
      val, got := Zeros(W), 0;
      if n > num {
        val, got := buf, num;
        FillHibuf();
      }
    }

    // The first need bits of buf go behind the got bits of val.
    method Extract(val: seq<bool>, got: nat, need: nat, ghost a: seq<bool>, ghost b: seq<bool>) returns (h: seq<bool>)
      requires |a| == got && |b| <= W && got + need <= W && need <= |b| && need <= num
      requires val == Pad(a, W) && buf == Pad(b, W) && need <= 32 && W >= 32 && Masks(mask, W)
      modifies this`buf, this`num
      ensures |h| == W && h[..got + need] == a + b[..need] && buf == Pad(b[need..], W) && num == old(num) - need
      ensures Exact(mask, W) ==> h == Pad(a + b[..need], W)
    {
      JoinTop(a, b, mask(need), need, W);
      MaskTop(b, need, W);
      JoinWords(a, b[..need], W);
      h := Or(val, Shr(And(buf, mask(need)), got));
      DropTop(b, need, W);
      buf := Shl(buf, need);
      num := num - need;
    }

    // bitval_read_ubits
    method ReadUbits(n: nat) returns (v: nat)
      requires Valid() && n <= 32 && n <= RemainBits()
      modifies this`buf, this`num, this`ptr, this`past
      ensures Valid() && Pos() == old(Pos()) + n
      ensures n > 0 ==> v == Value(Input()[old(Pos())..old(Pos()) + n])
      ensures past == old(past) + old(Strays(n, 0)) && At() == Moved(old(At()), n, len)
    {
      var h := ReadHbits(n);
      if n == 0 {
        v := Value(over(h));
      } else {
        v := Value(Shr(h, W - n));
        UnsignedShift(h, n);
      }
    }

    // bitval_read_bit
    method ReadBit() returns (v: bool)
      requires Valid() && 1 <= RemainBits()
      modifies this`buf, this`num, this`ptr, this`past
      ensures Valid() && Pos() == old(Pos()) + 1
      ensures v == Input()[old(Pos())]
      ensures past == old(past) + old(Strays(1, 0)) && At() == Moved(old(At()), 1, len)
    {
      var h := ReadHbits(1);
      v := Shr(h, W - 1)[W - 1];
      assert h[..1][0] == h[0];
    }

    // bitval_read_sbits
    method ReadSbits(n: nat) returns (v: int)
      requires Valid() && n <= 32 && n <= RemainBits()
      modifies this`buf, this`num, this`ptr, this`past
      ensures Valid() && Pos() == old(Pos()) + n
      ensures n > 0 ==> v == Signed(Input()[old(Pos())..old(Pos()) + n])
      ensures past == old(past) + old(Strays(n, 0)) && At() == Moved(old(At()), n, len)
    {
      var h := ReadHbits(n);
      if n == 0 {
        v := Signed(over(h));
      } else {
        v := Signed(Sar(h, W - n));
        SignedShift(h, n);
      }
    }

    // bitval_peek_ubits and bitval_peek_sbits: reads a copy.
    method PeekUbits(n: nat) returns (v: nat)
      requires Valid() && n <= 32 && n <= RemainBits()
      ensures n > 0 ==> v == Value(Input()[Pos()..Pos() + n])
    {
      var tmp := Copy();
      v := tmp.ReadUbits(n);
    }

    method PeekSbits(n: nat) returns (v: int)
      requires Valid() && n <= 32 && n <= RemainBits()
      ensures n > 0 ==> v == Signed(Input()[Pos()..Pos() + n])
    {
      var tmp := Copy();
      v := tmp.ReadSbits(n);
    }

    // bitval_copy
    method Copy() returns (r: Reader)
      requires Valid()
      ensures fresh(r) && r.Valid() && r.Pos() == Pos() && r.memory == memory && r.len == len && r.W == W
    {
      hide BitsOf, Pow2, Masks;
      r := new Reader(W, mask, over, memory, len);
      r.buf, r.num, r.ptr, r.past := buf, num, ptr, past;
    }

    // bitval_skip_bits
    method SkipBits(n: nat)
      requires Valid() && n <= RemainBits()
      modifies this`buf, this`num, this`ptr, this`past
      ensures Valid() && Pos() == old(Pos()) + n
      ensures past == old(past) + if n > old(num) then old(Strays(n, (n - num) / 8)) else 0
    {
      hide BitsOf, Pow2, Shl, Past, Pad, Masks, Strays;
      ghost var all := All();
      var need := n;
      if need > num {
        need := Leap(n);
      }
      DropFront(all, 8 * ptr - num, 8 * ptr, need, W);
      buf := Shl(buf, need);
      num := num - need;
    }

    // The buffered bits and the whole bytes behind them are stepped over.
    method Leap(n: nat) returns (need: nat)
      requires Valid() && num < n <= RemainBits()
      modifies this`buf, this`num, this`ptr, this`past
      ensures Valid() && need <= num && Pos() + need == old(Pos()) + n
      ensures past == old(past) + old(Strays(n, (n - num) / 8))
    {
      hide BitsOf, Pow2, Past;
      need := n - num;
      ptr := ptr + need / 8;
      need := need % 8;
      FillHibuf();
    }

    // bitval_sync
    method Sync()
      requires Valid()
      modifies this`buf, this`num, this`ptr
      ensures Valid() && Pos() == ByteEdge(old(Pos())) && num == 0
    {
      ghost var p := Pos();
      ptr := ptr - num / 8;
      buf, num := Zeros(W), 0;
      EdgeIsUnique(p, ptr);
    }
  }

  // Twenty bits and then fifteen of a five-byte input: the second refill counts
  // a byte of the twelve buffered bits as unread, and reads one byte too many.
  lemma StaleRefill()
    ensures Moved(Cursor(0, 0), 20, 5) == Cursor(4, 12)
    ensures Moved(Cursor(4, 12), 15, 5) == Cursor(6, 13) && Past(12, 5 - 4) == 1
  {
  }

  // Input with 32 bits to spare behind a read is never overrun by it.
  lemma PaddingIsEnough(c: Cursor, n: nat, len: nat)
    requires c.num >= 0 && n > c.num && 8 * c.ptr - c.num + n + 32 <= 8 * len
    ensures Past(c.num, len - c.ptr) == 0 && Moved(c, n, len).ptr <= len
  {
  }

  lemma DropFront(all: seq<bool>, from: nat, end: nat, need: nat, w: nat)
    requires from + need <= end <= |all| && end - from <= w
    ensures Shl(Pad(all[from..end], w), need) == Pad(all[from + need..end], w)
  {
    DropTop(all[from..end], need, w);
    assert all[from..end][need..] == all[from + need..end];
  }

  lemma Halves(all: seq<bool>, p: nat, got: nat, need: nat, end: nat)
    requires p + got + need <= 8 * end <= |all|
    ensures all[p..p + got] + all[p + got..8 * end][..need] == all[p..p + got + need]
    ensures all[p + got..8 * end][need..] == all[p + got + need..8 * end]
  {
  }

  lemma SmallMod(a: int, m: nat)
    requires 0 <= a < m
    ensures a % m == a
  {
    DivisionIsUnique(a, m, 0, a);
  }

  lemma ModPlus(a: int, b: int, m: nat)
    requires m > 0
    ensures (a % m + b) % m == (a + b) % m
  {
    var q, r := (a + b) / m, (a + b) % m;
    assert a == m * (a / m) + a % m;
    assert a % m + b == m * (q - a / m) + r by {
      assert m * (q - a / m) == m * q - m * (a / m);
    }
    DivisionIsUnique(a % m + b, m, q - a / m, r);
  }

  lemma ModTimes(a: int, k: nat, m: nat)
    requires m > 0
    ensures (k * (a % m)) % m == (k * a) % m
    decreases k
  {
    var q := a / m;
    var r, t := a % m, (k * a) / m;
    assert a == m * q + r;
    assert k * a == k * (m * q) + k * r;
    assert k * (m * q) == m * (k * q);
    assert k * r == m * (t - k * q) + (k * a) % m by {
      assert k * a == m * t + (k * a) % m;
      assert m * (t - k * q) == m * t - m * (k * q);
    }
    DivisionIsUnique(k * r, m, t - k * q, (k * a) % m);
  }

  // 8 * bytes wraps, and adding num wraps back.
  lemma Wrapped(bytes: int, num: nat, m: nat)
    requires m > 0 && 0 <= 8 * bytes + num < m
    ensures (8 * (bytes % m) % m + num) % m == 8 * bytes + num
  {
    ModTimes(bytes, 8, m);
    ModPlus(8 * bytes, num, m);
    SmallMod(8 * bytes + num, m);
  }

  lemma WrappedBytes(bytes: int, num: nat, m: nat)
    requires m > 0
    ensures 0 <= 8 * bytes + num < m ==> (bytes % m + num / 8) % m == (8 * bytes + num) / 8
  {
    if 0 <= 8 * bytes + num < m {
      ModPlus(bytes, num / 8, m);
      SmallMod(bytes + num / 8, m);
    }
  }
}
