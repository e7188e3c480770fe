// The colour transform record of a stream (base/cxform.c): two flags, a width,
// the multipliers and then the addends.
module CxformRecord {
  import opened Bits
  import opened BitReader
  import opened Colour
  import Cxform

  // The four numbers of n bits at p; without alpha the last one is fixed.
  datatype Four = Four(r: int, g: int, b: int, a: int)

  function FourSize(n: nat, alpha: bool): nat {
    if alpha then 4 * n else 3 * n
  }

  function FourAt(b: seq<bool>, p: nat, n: nat, alpha: bool, fixed: int): Four
    requires p + FourSize(n, alpha) <= |b|
  {
    Four(Signed(b[p..p + n]), Signed(b[p + n..p + 2 * n]), Signed(b[p + 2 * n..p + 3 * n]),
         if alpha then Signed(b[p + 3 * n..p + 4 * n]) else fixed)
  }

  // f are the four numbers at p; numbers of no bits may read as any 16-bit ones.
  predicate IsFour(b: seq<bool>, p: nat, n: nat, alpha: bool, fixed: int, f: Four)
    requires p + FourSize(n, alpha) <= |b|
  {
    && Int16(f.r) && Int16(f.g) && Int16(f.b) && Int16(f.a)
    && (n > 0 ==> f == FourAt(b, p, n, alpha, fixed))
  }

  function Width(b: seq<bool>, p: nat): (r: nat)
    requires p + 6 <= |b|
    ensures r < 16
  {
    FourBits();
    Value(b[p + 2..p + 6])
  }

  lemma FourBits()
    ensures Pow2(4) == 16
  {
  }

  // Where the addends start, and where the record ends.
  function AddsAt(b: seq<bool>, p: nat, alpha: bool): nat
    requires p + 6 <= |b|
  {
    p + 6 + if b[p + 1] then FourSize(Width(b, p), alpha) else 0
  }

  function End(b: seq<bool>, p: nat, alpha: bool): nat
    requires p + 6 <= |b|
  {
    AddsAt(b, p, alpha) + if b[p] then FourSize(Width(b, p), alpha) else 0
  }

  predicate HasRecord(b: seq<bool>, p: nat, alpha: bool) {
    p + 6 <= |b| && End(b, p, alpha) <= |b|
  }

  function RecordAt(b: seq<bool>, p: nat, alpha: bool, lp64: bool): Trans
    requires HasRecord(b, p, alpha)
  {
    var n := Width(b, p);
    var mul := if b[p + 1] then FourAt(b, p + 6, n, alpha, 256) else Four(256, 256, 256, 256);
    var add := if b[p] then FourAt(b, AddsAt(b, p, alpha), n, alpha, 0) else Four(0, 0, 0, 0);
    if !b[p] && !b[p + 1] then Identified(lp64)
    else Trans((if b[p] then ADDITION else 0) + (if b[p + 1] then MULTIPLE else 0),
               Channel(mul.r, add.r), Channel(mul.g, add.g), Channel(mul.b, add.b), Channel(mul.a, add.a))
  }

  // Every record read has neutral fields where its flags say so.
  lemma RecordAgrees(b: seq<bool>, p: nat, alpha: bool, lp64: bool)
    requires HasRecord(b, p, alpha)
    ensures Agrees(RecordAt(b, p, alpha, lp64))
  {
    var n := Width(b, p);
    if b[p + 1] {
      FourIsWide(b, p + 6, n, alpha, 256);
    }
    if b[p] {
      FourIsWide(b, AddsAt(b, p, alpha), n, alpha, 0);
    }
  }

  lemma FourIsWide(b: seq<bool>, p: nat, n: nat, alpha: bool, fixed: int)
    requires p + FourSize(n, alpha) <= |b| && n < 16 && Int16(fixed)
    ensures var f := FourAt(b, p, n, alpha, fixed); Int16(f.r) && Int16(f.g) && Int16(f.b) && Int16(f.a)
  {
    hide Signed;
    ShortIsInt16(b[p..p + n]);
    ShortIsInt16(b[p + n..p + 2 * n]);
    ShortIsInt16(b[p + 2 * n..p + 3 * n]);
    if alpha {
      ShortIsInt16(b[p + 3 * n..p + 4 * n]);
    }
  }

  lemma ShortIsInt16(b: seq<bool>)
    requires |b| < 16
    ensures Int16(Signed(b))
  {
    Monotone(|b|, 15);
    assert Pow2(15) == 0x8000;
  }

  lemma {:induction false} Monotone(m: nat, n: nat)
    requires m <= n
    ensures Pow2(m) <= Pow2(n)
  {
    if m < n {
      Monotone(m, n - 1);
    }
  }

  // The code takes flags and width out of six bits read as one number.
  lemma SixBits(b: seq<bool>)
    requires |b| == 6
    ensures Value(b) / 16 == (if b[0] then 2 else 0) + (if b[1] then 1 else 0)
    ensures Value(b) % 16 == Value(b[2..])
  {
    Cons(b);
    Cons(b[1..]);
    FourBits();
    assert Pow2(5) == 32;
    assert b[1..][1..] == b[2..];
  }

  lemma {:induction false} Cons(b: seq<bool>)
    requires b != []
    ensures Value(b) == Value(b[1..]) + if b[0] then Pow2(|b| - 1) else 0
  {
    if |b| > 1 {
      var c := b[..|b| - 1];
      Cons(c);
      assert c[1..] == b[1..][..|b| - 2];
    } else {
      assert b[..0] == [] && Pow2(0) == 1;
    }
  }

  // bitval_read_cxform and bitval_read_cxform_without_alpha
  method Read(bv: Reader, cx: Cxform.Cxform, alpha: bool, lp64: bool)
    requires bv.Valid() && bv.num == 0 && HasRecord(bv.Input(), bv.Pos(), alpha)
    modifies bv, cx
    ensures bv.Valid() && bv.Pos() == End(bv.Input(), old(bv.Pos()), alpha)
    ensures Agrees(cx.View()) && cx.flag == RecordAt(bv.Input(), old(bv.Pos()), alpha, lp64).flag
    ensures Width(bv.Input(), old(bv.Pos())) > 0 || cx.flag == 0 ==>
              cx.View() == RecordAt(bv.Input(), old(bv.Pos()), alpha, lp64)
  {
    hide Value, Signed, Moved, BitsOf, Past, Reader.Valid, Reader.Pos, Reader.Strays, Reader.Input, Reader.RemainBits;
    ghost var b, p := bv.Input(), bv.Pos();
    var bit6 := bv.ReadUbits(6);
    SixBits(b[p..p + 6]);
    assert b[p..p + 6][2..] == b[p + 2..p + 6];
    var flag, nbit := bit6 / 16, bit6 % 16;
    match flag {
      case 0 =>
        cx.Identify(lp64);
      case 1 =>
        SetMul(bv, cx, nbit, alpha);
        cx.rb, cx.gb, cx.bb, cx.ab := 0, 0, 0, 0;
      case 2 =>
        SetAdd(bv, cx, nbit, alpha);
        cx.ra, cx.ga, cx.ba, cx.aa := 256, 256, 256, 256;
      case _ =>
        SetMul(bv, cx, nbit, alpha);
        SetAdd(bv, cx, nbit, alpha);
    }
    cx.flag := flag;
  }

  method SetMul(bv: Reader, cx: Cxform.Cxform, n: nat, alpha: bool)
    requires bv.Valid() && n < 16 && bv.Pos() + FourSize(n, alpha) <= |bv.Input()|
    modifies bv, cx`ra, cx`ga, cx`ba, cx`aa
    ensures bv.Valid() && bv.Pos() == old(bv.Pos()) + FourSize(n, alpha)
    ensures IsFour(bv.Input(), old(bv.Pos()), n, alpha, 256, Four(cx.ra, cx.ga, cx.ba, cx.aa))
  {
    var f := ReadFour(bv, n, alpha, 256);
    cx.ra, cx.ga, cx.ba, cx.aa := f.r, f.g, f.b, f.a;
  }

  method SetAdd(bv: Reader, cx: Cxform.Cxform, n: nat, alpha: bool)
    requires bv.Valid() && n < 16 && bv.Pos() + FourSize(n, alpha) <= |bv.Input()|
    modifies bv, cx`rb, cx`gb, cx`bb, cx`ab
    ensures bv.Valid() && bv.Pos() == old(bv.Pos()) + FourSize(n, alpha)
    ensures IsFour(bv.Input(), old(bv.Pos()), n, alpha, 0, Four(cx.rb, cx.gb, cx.bb, cx.ab))
  {
    var f := ReadFour(bv, n, alpha, 0);
    cx.rb, cx.gb, cx.bb, cx.ab := f.r, f.g, f.b, f.a;
  }

  method ReadFour(bv: Reader, n: nat, alpha: bool, fixed: int) returns (f: Four)
    requires bv.Valid() && n < 16 && Int16(fixed) && bv.Pos() + FourSize(n, alpha) <= |bv.Input()|
    modifies bv
    ensures bv.Valid() && bv.Pos() == old(bv.Pos()) + FourSize(n, alpha)
    ensures IsFour(bv.Input(), old(bv.Pos()), n, alpha, fixed, f)
  {
    hide Value, Signed, Wrap16, Int16, Moved, BitsOf, Past, Reader.Valid, Reader.Pos, Reader.Strays, Reader.Input,
         Reader.RemainBits;
    ghost var bits, p := bv.Input(), bv.Pos();
    var r := bv.ReadSbits(n);
    var g := bv.ReadSbits(n);
    var b := bv.ReadSbits(n);
    var a := fixed;
    if alpha {
      a := bv.ReadSbits(n);
    }
    assert n > 0 ==> Four(r, g, b, a) == FourAt(bits, p, n, alpha, fixed);
    FourIsWide(bits, p, n, alpha, fixed);
    f := Four(Wrap16(r), Wrap16(g), Wrap16(b), Wrap16(a));
  }
}
