// The matrix record of a stream (base/matrix.c): reading one and skipping one
// leave the reader at the same bit.
module Matrix {
  import opened Bits
  import opened BitReader

  class Matrix {
    var sx: int
    var sy: int
    var shx: int
    var shy: int
    var tx: int
    var ty: int

    constructor (a: int, b: int, c: int, d: int, e: int, f: int)
      ensures sx == a && sy == b && shx == c && shy == d && tx == e && ty == f
    {
      sx, sy, shx, shy, tx, ty := a, b, c, d, e, f;
    }
  }

  // A width field and two numbers of that width, at p.
  predicate HasPair(b: seq<bool>, p: nat) {
    p + 5 <= |b| && p + 5 + 2 * Width(b, p) <= |b|
  }

  function Width(b: seq<bool>, p: nat): (r: nat)
    requires p + 5 <= |b|
    ensures r < 32
  {
    FiveBits();
    Value(b[p..p + 5])
  }

  lemma FiveBits()
    ensures Pow2(5) == 32
  {
  }

  function PairEnd(b: seq<bool>, p: nat): nat
    requires HasPair(b, p)
  {
    p + 5 + 2 * Width(b, p)
  }

  function PairFirst(b: seq<bool>, p: nat): int
    requires HasPair(b, p)
  {
    Signed(b[p + 5..p + 5 + Width(b, p)])
  }

  function PairSecond(b: seq<bool>, p: nat): int
    requires HasPair(b, p)
  {
    Signed(b[p + 5 + Width(b, p)..PairEnd(b, p)])
  }

  // x and y are the two numbers at p; numbers of no bits may read as anything.
  predicate IsPair(b: seq<bool>, p: nat, x: int, y: int)
    requires HasPair(b, p)
  {
    Width(b, p) > 0 ==> x == PairFirst(b, p) && y == PairSecond(b, p)
  }

  // A pair behind a flag that says whether it is there.
  predicate HasOption(b: seq<bool>, p: nat) {
    p < |b| && (b[p] ==> HasPair(b, p + 1))
  }

  function OptionEnd(b: seq<bool>, p: nat): (r: nat)
    requires HasOption(b, p)
    ensures p < r
  {
    if b[p] then PairEnd(b, p + 1) else p + 1
  }

  // A whole matrix record at p, and where it ends.
  predicate HasMatrix(b: seq<bool>, p: nat) {
    && HasOption(b, p)
    && HasOption(b, OptionEnd(b, p))
    && HasPair(b, OptionEnd(b, OptionEnd(b, p)))
  }

  function MatrixEnd(b: seq<bool>, p: nat): nat
    requires HasMatrix(b, p)
  {
    PairEnd(b, OptionEnd(b, OptionEnd(b, p)))
  }

  // bitval_read_matrix: absent parts leave their fields alone.
  method ReadMatrix(bv: Reader, mx: Matrix)
    requires bv.Valid() && HasMatrix(bv.Input(), bv.Pos())
    modifies bv, mx
    ensures bv.Valid() && bv.Pos() == MatrixEnd(bv.Input(), old(bv.Pos()))
    ensures var b, p := bv.Input(), old(bv.Pos());
      && (if b[p] then IsPair(b, p + 1, mx.sx, mx.sy) else mx.sx == old(mx.sx) && mx.sy == old(mx.sy))
      && var q := OptionEnd(b, p);
      && (if b[q] then IsPair(b, q + 1, mx.shx, mx.shy) else mx.shx == old(mx.shx) && mx.shy == old(mx.shy))
      && IsPair(b, OptionEnd(b, q), mx.tx, mx.ty)
  {
    hide Value, Signed, Moved, BitsOf, Past, Reader.Valid, Reader.Pos, Reader.Strays, Reader.Input, Reader.RemainBits;
    var flag := bv.ReadBit();
    if flag {
      mx.sx, mx.sy := ReadPair(bv);
    }
    flag := bv.ReadBit();
    if flag {
      mx.shx, mx.shy := ReadPair(bv);
    }
    mx.tx, mx.ty := ReadPair(bv);
  }

  method ReadPair(bv: Reader) returns (x: int, y: int)
    requires bv.Valid() && HasPair(bv.Input(), bv.Pos())
    modifies bv
    ensures bv.Valid() && bv.Pos() == PairEnd(bv.Input(), old(bv.Pos()))
    ensures IsPair(bv.Input(), old(bv.Pos()), x, y)
  {
    hide Value, Signed, Moved, BitsOf, Past, Reader.Valid, Reader.Pos, Reader.Strays, Reader.Input, Reader.RemainBits;
    var n := bv.ReadUbits(5);
    x := bv.ReadSbits(n);
    y := bv.ReadSbits(n);
  }

  // bitval_skip_matrix
  method SkipMatrix(bv: Reader)
    requires bv.Valid() && HasMatrix(bv.Input(), bv.Pos())
    modifies bv
    ensures bv.Valid() && bv.Pos() == MatrixEnd(bv.Input(), old(bv.Pos()))
  {
    hide Value, Signed, Moved, BitsOf, Past, Reader.Valid, Reader.Pos, Reader.Strays, Reader.Input, Reader.RemainBits;
    var flag := bv.ReadBit();
    if flag {
      SkipPair(bv);
    }
    flag := bv.ReadBit();
    if flag {
      SkipPair(bv);
    }
    SkipPair(bv);
  }

  method SkipPair(bv: Reader)
    requires bv.Valid() && HasPair(bv.Input(), bv.Pos())
    modifies bv
    ensures bv.Valid() && bv.Pos() == PairEnd(bv.Input(), old(bv.Pos()))
  {
    hide Value, Signed, Moved, BitsOf, Past, Reader.Valid, Reader.Pos, Reader.Strays, Reader.Input, Reader.RemainBits;
    var n := bv.ReadUbits(5);
    bv.SkipBits(2 * n);
  }
}
