// | and & of C on integers in two's complement, as the colour transforms use
// them to test several fields at once.
module IntBits {
  import Bits

  function Size(x: int): nat {
    if x < 0 then -x - 1 else x
  }

  function Or(x: int, y: int): int
    decreases Size(x) + Size(y)
  {
    if Size(x) + Size(y) == 0 then (if x < 0 || y < 0 then -1 else 0)
    else 2 * Or(x / 2, y / 2) + (if x % 2 == 1 || y % 2 == 1 then 1 else 0)
  }

  function And(x: int, y: int): int
    decreases Size(x) + Size(y)
  {
    if Size(x) + Size(y) == 0 then (if x < 0 && y < 0 then -1 else 0)
    else 2 * And(x / 2, y / 2) + (if x % 2 == 1 && y % 2 == 1 then 1 else 0)
  }

  // Every bit of x is one of y.
  predicate Within(x: int, y: int)
    decreases Size(x) + Size(y)
  {
    if Size(x) + Size(y) == 0 then x == 0 || y < 0
    else (x % 2 == 1 ==> y % 2 == 1) && Within(x / 2, y / 2)
  }

  lemma {:induction false} WithinBoth(x: int, y: int)
    requires Within(x, y) && Within(y, x)
    ensures x == y
    decreases Size(x) + Size(y)
  {
    if Size(x) + Size(y) > 0 {
      WithinBoth(x / 2, y / 2);
    }
  }

  lemma {:induction false} WithinSelf(x: int)
    ensures Within(x, x)
    decreases Size(x)
  {
    if Size(x) > 0 {
      WithinSelf(x / 2);
    }
  }

  // Both base cases unfold like the rest, so each function may be unfolded once
  // anywhere.
  lemma Unfold(x: int, y: int)
    ensures Or(x, y) == 2 * Or(x / 2, y / 2) + (if x % 2 == 1 || y % 2 == 1 then 1 else 0)
    ensures And(x, y) == 2 * And(x / 2, y / 2) + (if x % 2 == 1 && y % 2 == 1 then 1 else 0)
    ensures Within(x, y) <==> (x % 2 == 1 ==> y % 2 == 1) && Within(x / 2, y / 2)
  {
  }

  lemma Half(a: int, bit: int)
    requires 0 <= bit < 2
    ensures (2 * a + bit) / 2 == a && (2 * a + bit) % 2 == bit
  {
  }

  lemma {:induction false} OrCovers(x: int, y: int)
    ensures Within(x, Or(x, y)) && Within(y, Or(x, y))
    decreases Size(x) + Size(y)
  {
    if Size(x) + Size(y) > 0 {
      var h := Or(x / 2, y / 2);
      OrCovers(x / 2, y / 2);
      Half(h, if x % 2 == 1 || y % 2 == 1 then 1 else 0);
      Unfold(x, Or(x, y));
      Unfold(y, Or(x, y));
    }
  }

  lemma {:induction false} AndWithin(x: int, y: int)
    ensures Within(And(x, y), x) && Within(And(x, y), y)
    decreases Size(x) + Size(y)
  {
    if Size(x) + Size(y) > 0 {
      var h := And(x / 2, y / 2);
      AndWithin(x / 2, y / 2);
      Half(h, if x % 2 == 1 && y % 2 == 1 then 1 else 0);
      Unfold(And(x, y), x);
      Unfold(And(x, y), y);
    }
  }

  lemma {:induction false} WithinTransitive(x: int, y: int, z: int)
    requires Within(x, y) && Within(y, z)
    ensures Within(x, z)
    decreases Size(x) + Size(y) + Size(z)
  {
    if Size(x) + Size(y) + Size(z) > 0 {
      Unfold(x, y);
      Unfold(y, z);
      Unfold(x, z);
      WithinTransitive(x / 2, y / 2, z / 2);
    }
  }

  lemma {:induction false} OrSelf(x: int)
    ensures Or(x, x) == x && And(x, x) == x
    decreases Size(x)
  {
    if Size(x) > 0 {
      OrSelf(x / 2);
    }
  }

  // Four fields at once.
  function Or4(r: int, g: int, b: int, a: int): int {
    Or(Or(Or(r, g), b), a)
  }

  function And4(r: int, g: int, b: int, a: int): int {
    And(And(And(r, g), b), a)
  }

  lemma Or4Covers(r: int, g: int, b: int, a: int)
    ensures var o := Or4(r, g, b, a); Within(r, o) && Within(g, o) && Within(b, o) && Within(a, o)
  {
    var rg, rgb, o := Or(r, g), Or(Or(r, g), b), Or4(r, g, b, a);
    OrCovers(r, g);
    OrCovers(rg, b);
    OrCovers(rgb, a);
    WithinTransitive(rg, rgb, o);
    WithinTransitive(r, rg, o);
    WithinTransitive(g, rg, o);
    WithinTransitive(b, rgb, o);
  }

  lemma And4Within(r: int, g: int, b: int, a: int)
    ensures var o := And4(r, g, b, a); Within(o, r) && Within(o, g) && Within(o, b) && Within(o, a)
  {
    var rg, rgb, o := And(r, g), And(And(r, g), b), And4(r, g, b, a);
    AndWithin(r, g);
    AndWithin(rg, b);
    AndWithin(rgb, a);
    WithinTransitive(o, rgb, rg);
    WithinTransitive(o, rg, r);
    WithinTransitive(o, rg, g);
    WithinTransitive(o, rgb, b);
  }

  // The OR and the AND of four fields are both v exactly when all four are.
  lemma AllAre(r: int, g: int, b: int, a: int, v: int)
    ensures Or4(r, g, b, a) == v && And4(r, g, b, a) == v <==> r == v && g == v && b == v && a == v
  {
    Or4Covers(r, g, b, a);
    And4Within(r, g, b, a);
    if Or4(r, g, b, a) == v && And4(r, g, b, a) == v {
      WithinBoth(r, v);
      WithinBoth(g, v);
      WithinBoth(b, v);
      WithinBoth(a, v);
    }
    OrSelf(v);
  }

  // The OR alone tells whether all four are zero.
  lemma AllZero(r: int, g: int, b: int, a: int)
    ensures Or4(r, g, b, a) == 0 <==> r == 0 && g == 0 && b == 0 && a == 0
  {
    if Or4(r, g, b, a) == 0 {
      Or4Covers(r, g, b, a);
      WithinZero(r);
      WithinZero(g);
      WithinZero(b);
      WithinZero(a);
    } else {
      OrSelf(0);
    }
  }

  lemma {:induction false} WithinZero(x: int)
    requires Within(x, 0)
    ensures x == 0
    decreases Size(x)
  {
    if Size(x) > 0 {
      WithinZero(x / 2);
    }
  }

  lemma {:induction false} OrSign(x: int, y: int)
    ensures Or(x, y) < 0 <==> x < 0 || y < 0
    decreases Size(x) + Size(y)
  {
    if Size(x) + Size(y) > 0 {
      OrSign(x / 2, y / 2);
    }
  }

  // Whether all fit n bits can be seen from the OR.
  lemma {:induction false} OrFits(x: int, y: int, n: nat)
    ensures 0 <= Or(x, y) < Bits.Pow2(n) <==> 0 <= x < Bits.Pow2(n) && 0 <= y < Bits.Pow2(n)
    decreases n
  {
    Unfold(x, y);
    if n > 0 {
      OrFits(x / 2, y / 2, n - 1);
    } else {
      if Or(x, y) == 0 {
        OrCovers(x, y);
        WithinZero(x);
        WithinZero(y);
      }
      OrSelf(0);
    }
  }

  // x & ~(2^n - 1)
  lemma {:induction false} AndHigh(x: int, n: nat)
    ensures And(x, -(Bits.Pow2(n) as int)) == Bits.Pow2(n) * (x / Bits.Pow2(n))
    decreases n
  {
    hide And;
    if n == 0 {
      AndAll(x);
    } else {
      AndHigh(x / 2, n - 1);
      Unfold(x, -(Bits.Pow2(n) as int));
      HighBits(x, Bits.Pow2(n - 1));
    }
  }

  lemma {:induction false} AndAll(x: int)
    ensures And(x, -1) == x
    decreases Size(x)
  {
    if Size(x) > 0 {
      AndAll(x / 2);
    }
  }

  lemma HighBits(x: int, m: int)
    requires m > 0
    ensures -2 * m / 2 == -m && (-2 * m) % 2 == 0
    ensures 2 * m * (x / (2 * m)) == 2 * (m * (x / 2 / m))
  {
    HalfFirst(x, m);
  }

  lemma HalfFirst(x: int, m: nat)
    requires m > 0
    ensures x / (2 * m) == x / 2 / m
  {
    var q, r := x / 2 / m, x / 2 % m;
    assert x == 2 * (m * q + r) + x % 2;
    assert x == (2 * m) * q + (2 * r + x % 2) by {
      assert 2 * (m * q + r) == (2 * m) * q + 2 * r;
    }
    Bits.DivisionIsUnique(x, 2 * m, q, 2 * r + x % 2);
  }
}
