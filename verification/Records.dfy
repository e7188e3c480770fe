// The layout of the matrix and colour transform records, written down from front
// to back, and that a record laid out so is read back field by field.
module Records {
  import opened Options
  import opened Bits
  import opened BitReader
  import opened Colour
  import Matrix
  import CxformRecord
  import Cxform

  // The bits s stand in b at p.
  predicate Laid(b: seq<bool>, p: nat, s: seq<bool>) {
    p + |s| <= |b| && b[p..p + |s|] == s
  }

  lemma LaidParts(b: seq<bool>, p: nat, s: seq<bool>, t: seq<bool>)
    requires Laid(b, p, s + t)
    ensures Laid(b, p, s) && Laid(b, p + |s|, t)
  {
    assert (s + t)[..|s|] == s && (s + t)[|s|..] == t;
    assert b[p..p + |s + t|][..|s|] == b[p..p + |s|];
    assert b[p..p + |s + t|][|s|..] == b[p + |s|..p + |s| + |t|];
  }

  predicate FitsSigned(v: int, n: nat) {
    n > 0 ==> -(Pow2(n - 1) as int) <= v < Pow2(n - 1)
  }

  // ---- the matrix ---------------------------------------------------------------

  datatype Pair = Pair(width: nat, x: int, y: int)

  predicate PairFits(q: Pair) {
    q.width < 32 && FitsSigned(q.x, q.width) && FitsSigned(q.y, q.width)
  }

  // Five bits of width, then the two numbers.
  function PairBits(q: Pair): seq<bool> {
    Low(q.width, 5) + (Low(q.x, q.width) + Low(q.y, q.width))
  }

  function OptionBits(q: Option<Pair>): seq<bool> {
    if q.None? then [false] else [true] + PairBits(q.value)
  }

  // Scale and skew, each behind a flag, then the translation.
  function MatrixBits(scale: Option<Pair>, skew: Option<Pair>, move: Pair): seq<bool> {
    OptionBits(scale) + (OptionBits(skew) + PairBits(move))
  }

  lemma SignedLaid(b: seq<bool>, p: nat, v: int, n: nat)
    requires Laid(b, p, Low(v, n)) && n > 0 && FitsSigned(v, n)
    ensures p + n <= |b| && Signed(b[p..p + n]) == v
  {
    SignedLow(v, n);
  }

  lemma ValueLaid(b: seq<bool>, p: nat, v: nat, n: nat)
    requires Laid(b, p, Low(v, n)) && v < Pow2(n)
    ensures p + n <= |b| && Value(b[p..p + n]) == v
  {
    ValueLow(v, n);
    SmallMod(v, Pow2(n));
  }

  // The record of matrix.c has the pair at p.
  predicate PairAt(b: seq<bool>, p: nat, q: Pair)
    requires Matrix.HasPair(b, p)
  {
    && Matrix.Width(b, p) == q.width
    && (q.width > 0 ==> Matrix.PairFirst(b, p) == q.x && Matrix.PairSecond(b, p) == q.y)
  }

  lemma PairLaid(b: seq<bool>, p: nat, q: Pair)
    requires Laid(b, p, PairBits(q)) && PairFits(q)
    ensures Matrix.HasPair(b, p) && Matrix.PairEnd(b, p) == p + |PairBits(q)|
    ensures PairAt(b, p, q)
  {
    hide Signed, Value, Low;
    LaidParts(b, p, Low(q.width, 5), Low(q.x, q.width) + Low(q.y, q.width));
    LaidParts(b, p + 5, Low(q.x, q.width), Low(q.y, q.width));
    Matrix.FiveBits();
    ValueLaid(b, p, q.width, 5);
    if q.width > 0 {
      SignedLaid(b, p + 5, q.x, q.width);
      SignedLaid(b, p + 5 + q.width, q.y, q.width);
    }
  }

  lemma OptionLaid(b: seq<bool>, p: nat, q: Option<Pair>)
    requires Laid(b, p, OptionBits(q)) && (q.Some? ==> PairFits(q.value))
    ensures Matrix.HasOption(b, p) && Matrix.OptionEnd(b, p) == p + |OptionBits(q)|
    ensures PartAt(b, p, q)
  {
    hide PairBits, PairFits;
    if q.Some? {
      LaidParts(b, p, [true], PairBits(q.value));
      PairLaid(b, p + 1, q.value);
      assert b[p..p + 1][0] == true;
    } else {
      assert b[p..p + 1][0] == false;
    }
  }

  // The fields that a reading of the record leaves.
  predicate PairIs(q: Option<Pair>, x: int, y: int, x0: int, y0: int) {
    match q
    case None => x == x0 && y == y0
    case Some(v) => v.width > 0 ==> x == v.x && y == v.y
  }

  // A matrix record laid out anywhere in the input is read back: each field gets
  // its number, absent parts keep what they held, and the reader stops behind the
  // record.
  method MatrixReadBack(bv: Reader, mx: Matrix.Matrix, ghost scale: Option<Pair>, ghost skew: Option<Pair>,
                        ghost move: Pair)
    requires bv.Valid() && Laid(bv.Input(), bv.Pos(), MatrixBits(scale, skew, move))
    requires (scale.Some? ==> PairFits(scale.value)) && (skew.Some? ==> PairFits(skew.value)) && PairFits(move)
    modifies bv, mx
    ensures bv.Valid() && bv.Pos() == old(bv.Pos()) + |MatrixBits(scale, skew, move)|
    ensures PairIs(scale, mx.sx, mx.sy, old(mx.sx), old(mx.sy))
    ensures PairIs(skew, mx.shx, mx.shy, old(mx.shx), old(mx.shy))
    ensures PairIs(Some(move), mx.tx, mx.ty, old(mx.tx), old(mx.ty))
  {
    hide Value, Signed, BitsOf, Reader.Valid, Reader.Pos, Reader.Input, PairBits, OptionBits, PairFits, PairAt,
         Matrix.IsPair, Laid;
    ghost var b, p := bv.Input(), bv.Pos();
    MatrixLaid(b, p, scale, skew, move);
    Matrix.ReadMatrix(bv, mx);
    ghost var q := Matrix.OptionEnd(b, p);
    if scale.Some? { PairMet(b, p + 1, scale.value, mx.sx, mx.sy); }
    if skew.Some? { PairMet(b, q + 1, skew.value, mx.shx, mx.shy); }
    PairMet(b, Matrix.OptionEnd(b, q), move, mx.tx, mx.ty);
  }

  // The record of matrix.c has these parts.
  predicate MatrixAt(b: seq<bool>, p: nat, scale: Option<Pair>, skew: Option<Pair>, move: Pair)
    requires Matrix.HasMatrix(b, p)
  {
    var q := Matrix.OptionEnd(b, p);
    && PartAt(b, p, scale) && PartAt(b, q, skew) && PairAt(b, Matrix.OptionEnd(b, q), move)
  }

  predicate PartAt(b: seq<bool>, p: nat, part: Option<Pair>)
    requires Matrix.HasOption(b, p)
  {
    (b[p] <==> part.Some?) && (part.Some? ==> PairAt(b, p + 1, part.value))
  }

  lemma MatrixLaid(b: seq<bool>, p: nat, scale: Option<Pair>, skew: Option<Pair>, move: Pair)
    requires Laid(b, p, MatrixBits(scale, skew, move))
    requires (scale.Some? ==> PairFits(scale.value)) && (skew.Some? ==> PairFits(skew.value)) && PairFits(move)
    ensures Matrix.HasMatrix(b, p) && Matrix.MatrixEnd(b, p) == p + |MatrixBits(scale, skew, move)|
    ensures MatrixAt(b, p, scale, skew, move)
  {
    hide OptionBits, PairBits, PairFits, PairAt, Matrix.HasPair, Matrix.PairEnd;
    LaidParts(b, p, OptionBits(scale), OptionBits(skew) + PairBits(move));
    LaidParts(b, p + |OptionBits(scale)|, OptionBits(skew), PairBits(move));
    OptionLaid(b, p, scale);
    var q := p + |OptionBits(scale)|;
    OptionLaid(b, q, skew);
    PairLaid(b, q + |OptionBits(skew)|, move);
  }

  lemma PairMet(b: seq<bool>, p: nat, q: Pair, x: int, y: int)
    requires Matrix.HasPair(b, p) && PairAt(b, p, q) && Matrix.IsPair(b, p, x, y)
    ensures q.width > 0 ==> x == q.x && y == q.y
  {
  }

  // ---- the colour transform -------------------------------------------------------

  type Four = CxformRecord.Four

  // Red, green, blue, and alpha if the record has it.
  function FourBits(f: Four, n: nat, alpha: bool): seq<bool> {
    Low(f.r, n) + (Low(f.g, n) + (Low(f.b, n) + (if alpha then Low(f.a, n) else [])))
  }

  function PartBits(f: Option<Four>, n: nat, alpha: bool): seq<bool> {
    if f.None? then [] else FourBits(f.value, n, alpha)
  }

  // A flag for the addends, one for the multipliers, four bits of width, the
  // multipliers, the addends.
  function CxformBits(add: Option<Four>, mul: Option<Four>, n: nat, alpha: bool): seq<bool> {
    [add.Some?, mul.Some?] + (Low(n, 4) + (PartBits(mul, n, alpha) + PartBits(add, n, alpha)))
  }

  predicate FourFits(f: Option<Four>, n: nat) {
    f.Some? ==>
      FitsSigned(f.value.r, n) && FitsSigned(f.value.g, n) && FitsSigned(f.value.b, n) && FitsSigned(f.value.a, n)
  }

  // The four numbers, with the fixed one for an alpha that the record has not.
  function Whole(f: Option<Four>, alpha: bool, fixed: int): Four {
    match f
    case None => CxformRecord.Four(fixed, fixed, fixed, fixed)
    case Some(v) => v.(a := if alpha then v.a else fixed)
  }

  lemma FourLaid(b: seq<bool>, p: nat, f: Four, n: nat, alpha: bool, fixed: int)
    requires Laid(b, p, FourBits(f, n, alpha)) && n > 0 && FourFits(Some(f), n)
    ensures p + CxformRecord.FourSize(n, alpha) <= |b|
    ensures CxformRecord.FourAt(b, p, n, alpha, fixed) == Whole(Some(f), alpha, fixed)
  {
    hide Signed, Low, FitsSigned;
    var last := if alpha then Low(f.a, n) else [];
    LaidParts(b, p, Low(f.r, n), Low(f.g, n) + (Low(f.b, n) + last));
    LaidParts(b, p + n, Low(f.g, n), Low(f.b, n) + last);
    LaidParts(b, p + 2 * n, Low(f.b, n), last);
    SignedLaid(b, p, f.r, n);
    SignedLaid(b, p + n, f.g, n);
    SignedLaid(b, p + 2 * n, f.b, n);
    if alpha {
      SignedLaid(b, p + 3 * n, f.a, n);
    }
  }

  // What a record with these parts means.
  function Meant(add: Option<Four>, mul: Option<Four>, alpha: bool, lp64: bool): Trans {
    if add.None? && mul.None? then Identified(lp64)
    else
      var m, a := Whole(mul, alpha, 256), Whole(add, alpha, 0);
      Trans((if add.Some? then ADDITION else 0) + (if mul.Some? then MULTIPLE else 0),
            Channel(m.r, a.r), Channel(m.g, a.g), Channel(m.b, a.b), Channel(m.a, a.a))
  }

  lemma HeadLaid(b: seq<bool>, p: nat, x: bool, y: bool, n: nat, rest: seq<bool>)
    requires Laid(b, p, [x, y] + (Low(n, 4) + rest)) && n < 16
    ensures p + 6 <= |b| && b[p] == x && b[p + 1] == y && CxformRecord.Width(b, p) == n && Laid(b, p + 6, rest)
  {
    hide Value, Low;
    LaidParts(b, p, [x, y], Low(n, 4) + rest);
    LaidParts(b, p + 2, Low(n, 4), rest);
    CxformRecord.FourBits();
    ValueLaid(b, p + 2, n, 4);
    assert b[p..p + 2][0] == x && b[p..p + 2][1] == y;
  }

  // A colour transform laid out anywhere is the one read there.
  lemma CxformLaid(b: seq<bool>, p: nat, add: Option<Four>, mul: Option<Four>, n: nat, alpha: bool, lp64: bool)
    requires Laid(b, p, CxformBits(add, mul, n, alpha)) && 0 < n < 16 && FourFits(add, n) && FourFits(mul, n)
    ensures CxformRecord.HasRecord(b, p, alpha)
    ensures CxformRecord.End(b, p, alpha) == p + |CxformBits(add, mul, n, alpha)|
    ensures CxformRecord.Width(b, p) == n && CxformRecord.RecordAt(b, p, alpha, lp64) == Meant(add, mul, alpha, lp64)
  {
    hide Laid, FourBits, FourFits, CxformRecord.Width, CxformRecord.FourAt;
    var m, a := PartBits(mul, n, alpha), PartBits(add, n, alpha);
    HeadLaid(b, p, add.Some?, mul.Some?, n, m + a);
    LaidParts(b, p + 6, m, a);
    PartLength(mul, n, alpha);
    PartLength(add, n, alpha);
    if mul.Some? {
      FourLaid(b, p + 6, mul.value, n, alpha, 256);
    }
    if add.Some? {
      FourLaid(b, p + 6 + |m|, add.value, n, alpha, 0);
    }
  }

  lemma PartLength(f: Option<Four>, n: nat, alpha: bool)
    ensures |PartBits(f, n, alpha)| == if f.Some? then CxformRecord.FourSize(n, alpha) else 0
  {
  }

  method CxformReadBack(bv: Reader, cx: Cxform.Cxform, ghost add: Option<Four>, ghost mul: Option<Four>, ghost n: nat,
                        alpha: bool, lp64: bool)
    requires bv.Valid() && bv.num == 0 && Laid(bv.Input(), bv.Pos(), CxformBits(add, mul, n, alpha))
    requires 0 < n < 16 && FourFits(add, n) && FourFits(mul, n)
    modifies bv, cx
    ensures bv.Valid() && bv.Pos() == old(bv.Pos()) + |CxformBits(add, mul, n, alpha)|
    ensures cx.View() == Meant(add, mul, alpha, lp64)
  {
    hide BitsOf, Reader.Valid, Reader.Pos, Reader.Input, CxformBits, FourFits, CxformRecord.Width,
         CxformRecord.RecordAt, CxformRecord.HasRecord, CxformRecord.End;
    CxformLaid(bv.Input(), bv.Pos(), add, mul, n, alpha, lp64);
    CxformRecord.Read(bv, cx, alpha, lp64);
  }
}
