// struct cxform in memory (base/cxform.c): fields updated one by one, as the
// cached flag directs.
module Cxform {
  import opened Colour
  import IntBits
  import Bits

  class Rgba {
    var r: int
    var g: int
    var b: int
    var a: int

    constructor (c: Colour.Rgba)
      ensures View() == c
    {
      r, g, b, a := c.r, c.g, c.b, c.a;
    }

    ghost function View(): Colour.Rgba
      reads this
    {
      Colour.Rgba(r, g, b, a)
    }
  }

  // The tests the code makes on an OR and an AND of four fields.
  lemma FieldTests(r: int, g: int, b: int, a: int)
    ensures IntBits.Or4(r, g, b, a) != 256 || IntBits.And4(r, g, b, a) != 256 <==> !(r == g == b == a == 256)
    ensures IntBits.Or4(r, g, b, a) != 0 <==> !(r == g == b == a == 0)
  {
    IntBits.AllAre(r, g, b, a, 256);
    IntBits.AllZero(r, g, b, a);
  }

  lemma ByteTests(r: int, g: int, b: int, a: int)
    ensures var o := IntBits.Or4(r, g, b, a);
      && (IntBits.And(o, -256) == 0 <==> 0 <= r < 256 && 0 <= g < 256 && 0 <= b < 256 && 0 <= a < 256)
      && (o < 0 <==> r < 0 || g < 0 || b < 0 || a < 0)
  {
    hide IntBits.Or, IntBits.And, Bits.Pow2;
    Pow256();
    var rg, rgb := IntBits.Or(r, g), IntBits.Or(IntBits.Or(r, g), b);
    IntBits.OrSign(r, g);
    IntBits.OrSign(rg, b);
    IntBits.OrSign(rgb, a);
    IntBits.OrFits(r, g, 8);
    IntBits.OrFits(rg, b, 8);
    IntBits.OrFits(rgb, a, 8);
    IntBits.AndHigh(IntBits.Or4(r, g, b, a), 8);
  }

  lemma Pow256()
    ensures Bits.Pow2(8) == 256
  {
  }

  // Where the inner transform does not multiply, or does not add, composing leaves
  // the outer one's multipliers, or addends.
  lemma OuterMultiples(t: Trans, e: Trans)
    requires Wide(t) && Neutral(e) && !HasMultiple(e.flag)
    ensures Compose(t.r, e.r).mul == t.r.mul && Compose(t.g, e.g).mul == t.g.mul
    ensures Compose(t.b, e.b).mul == t.b.mul && Compose(t.a, e.a).mul == t.a.mul
  {
  }

  // An outer transform that only adds leaves the inner one's multipliers.
  lemma OuterAdds(t: Trans, e: Trans)
    requires Wide(e) && Neutral(t) && !HasMultiple(t.flag)
    ensures Compose(t.r, e.r) == Channel(e.r.mul, Wrap16(t.r.add + e.r.add))
    ensures Compose(t.g, e.g) == Channel(e.g.mul, Wrap16(t.g.add + e.g.add))
    ensures Compose(t.b, e.b) == Channel(e.b.mul, Wrap16(t.b.add + e.b.add))
    ensures Compose(t.a, e.a) == Channel(e.a.mul, Wrap16(t.a.add + e.a.add))
  {
    UnitScale(e.r.mul, e.r.add);
    UnitScale(e.g.mul, e.g.add);
    UnitScale(e.b.mul, e.b.add);
    UnitScale(e.a.mul, e.a.add);
  }

  lemma UnitScale(m: int, a: int)
    ensures Scale(256, m) == m && Scale(256, a) == a
  {
  }

  lemma OuterAdditions(t: Trans, e: Trans)
    requires Wide(t) && Neutral(e) && !HasAddition(e.flag)
    ensures Compose(t.r, e.r).add == t.r.add && Compose(t.g, e.g).add == t.g.add
    ensures Compose(t.b, e.b).add == t.b.add && Compose(t.a, e.a).add == t.a.add
  {
  }

  class Cxform {
    var flag: nat
    var ra: int
    var ga: int
    var ba: int
    var aa: int
    var rb: int
    var gb: int
    var bb: int
    var ab: int

    ghost function View(): Trans
      reads this
    {
      Trans(flag, Channel(ra, rb), Channel(ga, gb), Channel(ba, bb), Channel(aa, ab))
    }

    constructor (t: Trans)
      ensures View() == t
    {
      flag := t.flag;
      ra, ga, ba, aa := t.r.mul, t.g.mul, t.b.mul, t.a.mul;
      rb, gb, bb, ab := t.r.add, t.g.add, t.b.add, t.a.add;
    }

    // cxform_identify
    method Identify(lp64: bool)
      modifies this
      ensures View() == Identified(lp64)
    {
      flag := 0;
      ra, ga, ba, aa := 256, 256, 256, 256;
      var add := if lp64 then 256 else 0;
      rb, gb, bb, ab := add, add, add, add;
    }

    // cxform_identity
    predicate Identity()
      reads this
    {
      flag == 0
    }

    // cxform_reflag
    method Reflag()
      modifies this`flag
      ensures View() == Reflagged(old(View()))
    {
      hide IntBits.Or4, IntBits.And4, IntBits.Or, IntBits.And;
      FieldTests(rb, gb, bb, ab);
      FieldTests(ra, ga, ba, aa);
      flag := 0;
      if IntBits.Or4(rb, gb, bb, ab) != 0 {
        flag := ADDITION;
      }
      var or, and := IntBits.Or4(ra, ga, ba, aa), IntBits.And4(ra, ga, ba, aa);
      if or != 256 || and != 256 {
        flag := flag + MULTIPLE;
      }
    }

    // cxform_transform_rgba8 and cxform_transform_rgba16
    method TransformRgba(c: Rgba)
      requires flag < 4
      modifies c
      ensures c.View() == Transformed(View(), old(c.View()))
    {
      var r, g, b, a := c.r, c.g, c.b, c.a;
      match flag {
        case 0 => return;
        case 2 =>
          r, g, b, a := r + rb, g + gb, b + bb, a + ab;
        case 1 =>
          r, g, b, a := Scale(ra, r), Scale(ga, g), Scale(ba, b), Scale(aa, a);
        case _ =>
          r, g, b, a := Scale(ra, r) + rb, Scale(ga, g) + gb, Scale(ba, b) + bb, Scale(aa, a) + ab;
      }
      r, g, b, a := Clamped(r, g, b, a);
      c.r, c.g, c.b, c.a := r, g, b, a;
    }

    // The clamp behind the switch: one OR spares most colours the comparisons.
    static method Clamped(r0: int, g0: int, b0: int, a0: int) returns (r: int, g: int, b: int, a: int)
      ensures r == Clamp(r0) && g == Clamp(g0) && b == Clamp(b0) && a == Clamp(a0)
    {
      r, g, b, a := r0, g0, b0, a0;
      ByteTests(r, g, b, a);
      var or := IntBits.Or4(r, g, b, a);
      if IntBits.And(or, -256) == 0 {
        return;
      }
      if or < 0 {
        if r < 0 { r := 0; }
        if g < 0 { g := 0; }
        if b < 0 { b := 0; }
        if a < 0 { a := 0; }
      }
      if r > 255 { r := 255; }
      if g > 255 { g := 255; }
      if b > 255 { b := 255; }
      if a > 255 { a := 255; }
    }

    // cxform_concat
    method Concat(ex: Cxform)
      requires ex != this && Agrees(View()) && Agrees(ex.View())
      modifies this
      ensures View() == Colour.Concat(old(View()), ex.View())
    {
      hide Composed;
      if ex.flag == 0 {
        return;
      }
      match flag {
        case 0 =>
          Assign(ex);
          return;
        case 2 =>
          AddToAddition(ex);
        case _ =>
          ApplyMultiple(ex);
      }
      Reflag();
    }

    // The outer transform only adds.
    method AddToAddition(ex: Cxform)
      requires ex != this && Agrees(View()) && Agrees(ex.View()) && flag == 2
      modifies this
      ensures View() == Composed(old(View()), ex.View())
    {
      hide Compose, Wrap16, Neutral;
      OuterAdds(View(), ex.View());
      rb, gb := Wrap16(rb + ex.rb), Wrap16(gb + ex.gb);
      bb, ab := Wrap16(bb + ex.bb), Wrap16(ab + ex.ab);
      ra, ga, ba, aa := ex.ra, ex.ga, ex.ba, ex.aa;
    }

    // The outer transform multiplies.
    method ApplyMultiple(ex: Cxform)
      requires ex != this && Agrees(View()) && Agrees(ex.View()) && ex.flag != 0
      modifies this
      ensures View() == Composed(old(View()), ex.View())
    {
      hide Scale, Wrap16, Neutral;
      match ex.flag {
        case 2 =>
          ConcatAddition(ex);
          OuterMultiples(old(View()), ex.View());
        case 1 =>
          ConcatMultiple(ex);
          OuterAdditions(old(View()), ex.View());
        case _ =>
          ConcatAddition(ex);
          ConcatMultiple(ex);
      }
    }

    method Assign(ex: Cxform)
      modifies this
      ensures View() == ex.View()
    {
      flag := ex.flag;
      ra, ga, ba, aa := ex.ra, ex.ga, ex.ba, ex.aa;
      rb, gb, bb, ab := ex.rb, ex.gb, ex.bb, ex.ab;
    }

    method ConcatAddition(ex: Cxform)
      requires ex != this
      modifies this`rb, this`gb, this`bb, this`ab
      ensures rb == Wrap16(old(rb) + Scale(ra, ex.rb)) && gb == Wrap16(old(gb) + Scale(ga, ex.gb))
      ensures bb == Wrap16(old(bb) + Scale(ba, ex.bb)) && ab == Wrap16(old(ab) + Scale(aa, ex.ab))
    {
      rb, gb := Wrap16(rb + Scale(ra, ex.rb)), Wrap16(gb + Scale(ga, ex.gb));
      bb, ab := Wrap16(bb + Scale(ba, ex.bb)), Wrap16(ab + Scale(aa, ex.ab));
    }

    method ConcatMultiple(ex: Cxform)
      requires ex != this
      modifies this`ra, this`ga, this`ba, this`aa
      ensures ra == Wrap16(Scale(old(ra), ex.ra)) && ga == Wrap16(Scale(old(ga), ex.ga))
      ensures ba == Wrap16(Scale(old(ba), ex.ba)) && aa == Wrap16(Scale(old(aa), ex.aa))
    {
      ra, ga := Wrap16(Scale(ra, ex.ra)), Wrap16(Scale(ga, ex.ga));
      ba, aa := Wrap16(Scale(ba, ex.ba)), Wrap16(Scale(aa, ex.aa));
    }
  }
}
