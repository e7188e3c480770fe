// Colour transforms as values (base/cxform.c): what a flag and four channels of
// 8.8 multipliers and addends mean, and how close a composition comes to
// applying two of them in turn.
module Colour {
  datatype Channel = Channel(mul: int, add: int)
  datatype Trans = Trans(flag: nat, r: Channel, g: Channel, b: Channel, a: Channel)
  datatype Rgba = Rgba(r: int, g: int, b: int, a: int)

  const MULTIPLE: nat := 1
  const ADDITION: nat := 2

  predicate Int16(x: int) {
    -0x8000 <= x < 0x8000
  }

  function Wrap16(x: int): (r: int)
    ensures Int16(r)
    ensures Int16(x) ==> r == x
  {
    (x + 0x8000) % 0x1_0000 - 0x8000
  }

  // cconv
  function Scale(mul: int, ext: int): int {
    mul * ext / 256
  }

  function Clamp(x: int): int {
    if x < 0 then 0 else if x > 255 then 255 else x
  }

  predicate HasMultiple(flag: nat) {
    flag == MULTIPLE || flag == ADDITION + MULTIPLE
  }

  predicate HasAddition(flag: nat) {
    flag == ADDITION || flag == ADDITION + MULTIPLE
  }

  // What the flag lets through of a channel.
  function Effect(flag: nat, c: Channel): Channel {
    Channel(if HasMultiple(flag) then c.mul else 256, if HasAddition(flag) then c.add else 0)
  }

  function Raw(c: Channel, v: int): int {
    Scale(c.mul, v) + c.add
  }

  // A colour through a transform, as the flag has it.
  function Plain(t: Trans, c: Rgba): Rgba {
    Rgba(Clamp(Raw(Effect(t.flag, t.r), c.r)), Clamp(Raw(Effect(t.flag, t.g), c.g)),
         Clamp(Raw(Effect(t.flag, t.b), c.b)), Clamp(Raw(Effect(t.flag, t.a), c.a)))
  }

  // The same with the fast path of flag 0, which does not clamp.
  function Transformed(t: Trans, c: Rgba): Rgba {
    if t.flag == 0 then c else Plain(t, c)
  }

  predicate Components(c: Rgba, top: nat) {
    0 <= c.r <= top && 0 <= c.g <= top && 0 <= c.b <= top && 0 <= c.a <= top
  }

  // On 8-bit colours the fast path is the formula; on 16-bit ones it differs
  // exactly when a component is over 255.
  lemma FastPath(t: Trans, c: Rgba)
    requires Components(c, 0xFFFF)
    ensures Transformed(t, c) == Plain(t, c) <==> t.flag != 0 || Components(c, 255)
  {
  }

  // A 16-bit component over 255 passes an identity as it is.
  lemma IdentityDoesNotClamp(lp64: bool)
    ensures var c := Rgba(256, 0, 0, 0); Transformed(Identified(lp64), c) == c && Plain(Identified(lp64), c).r == 255
  {
    assert Scale(256, 256) == 256;
  }

  ghost predicate Wide(t: Trans) {
    && t.flag < 4 && WideChannel(t.r) && WideChannel(t.g) && WideChannel(t.b) && WideChannel(t.a)
  }

  ghost predicate WideChannel(c: Channel) {
    Int16(c.mul) && Int16(c.add)
  }

  // Fields the flag leaves out are neutral, unless it leaves out all.
  ghost predicate Agrees(t: Trans) {
    Wide(t) && (t.flag != 0 ==> Neutral(t))
  }

  ghost predicate Neutral(t: Trans) {
    && (!HasMultiple(t.flag) ==> t.r.mul == t.g.mul == t.b.mul == t.a.mul == 256)
    && (!HasAddition(t.flag) ==> t.r.add == t.g.add == t.b.add == t.a.add == 0)
  }

  // On such transforms the flag may be ignored: the fields say it all.
  lemma FieldsSayAll(t: Trans, c: Rgba)
    requires Agrees(t) && t.flag != 0
    ensures Plain(t, c) == Rgba(Clamp(Raw(t.r, c.r)), Clamp(Raw(t.g, c.g)), Clamp(Raw(t.b, c.b)), Clamp(Raw(t.a, c.a)))
  {
  }

  // cxform_reflag
  function Reflagged(t: Trans): Trans {
    var add := t.r.add != 0 || t.g.add != 0 || t.b.add != 0 || t.a.add != 0;
    var mul := t.r.mul != 256 || t.g.mul != 256 || t.b.mul != 256 || t.a.mul != 256;
    t.(flag := (if add then ADDITION else 0) + (if mul then MULTIPLE else 0))
  }

  lemma ReflagMeaning(t: Trans)
    requires Wide(t)
    ensures Agrees(Reflagged(t)) && Neutral(Reflagged(t))
    ensures forall c :: c in [t.r, t.g, t.b, t.a] ==> Effect(Reflagged(t).flag, c) == c
  {
  }

  // cxform_identify; where a long has 64 bits it sets the addends to 256 too.
  function Identified(lp64: bool): Trans {
    var c := Channel(256, if lp64 then 256 else 0);
    Trans(0, c, c, c, c)
  }

  // An identity changes no colour, but it survives a reflag only where a long has
  // 32 bits.
  lemma IdentityIsNeutral(lp64: bool, c: Rgba)
    ensures Agrees(Identified(lp64)) && Transformed(Identified(lp64), c) == c
    ensures Neutral(Identified(lp64)) <==> !lp64
    ensures Reflagged(Identified(lp64)) == Identified(lp64) <==> !lp64
  {
  }

  // ---- composition ------------------------------------------------------------

  // cxform_concat on one channel; c is the outer transform.
  function Compose(c: Channel, e: Channel): Channel {
    Channel(Wrap16(Scale(c.mul, e.mul)), Wrap16(c.add + Scale(c.mul, e.add)))
  }

  // cxform_concat.  The cases are those of the code.
  function Concat(t: Trans, e: Trans): Trans {
    if e.flag == 0 then t
    else if t.flag == 0 then e
    else Reflagged(Composed(t, e))
  }

  function Composed(t: Trans, e: Trans): Trans {
    Trans(t.flag, Compose(t.r, e.r), Compose(t.g, e.g), Compose(t.b, e.b), Compose(t.a, e.a))
  }

  // Whatever the flags, the effect of the result is the composed effect, and the
  // flag agrees with its fields again.
  lemma ConcatIsUniform(t: Trans, e: Trans)
    requires Agrees(t) && Agrees(e)
    ensures var r := Concat(t, e);
      && Agrees(r)
      && Effect(r.flag, r.r) == Compose(Effect(t.flag, t.r), Effect(e.flag, e.r))
      && Effect(r.flag, r.g) == Compose(Effect(t.flag, t.g), Effect(e.flag, e.g))
      && Effect(r.flag, r.b) == Compose(Effect(t.flag, t.b), Effect(e.flag, e.b))
      && Effect(r.flag, r.a) == Compose(Effect(t.flag, t.a), Effect(e.flag, e.a))
  {
    hide Compose;
    if e.flag == 0 {
      ComposeOuter(Effect(t.flag, t.r));
      ComposeOuter(Effect(t.flag, t.g));
      ComposeOuter(Effect(t.flag, t.b));
      ComposeOuter(Effect(t.flag, t.a));
    } else if t.flag == 0 {
      ComposeInner(Effect(e.flag, e.r));
      ComposeInner(Effect(e.flag, e.g));
      ComposeInner(Effect(e.flag, e.b));
      ComposeInner(Effect(e.flag, e.a));
    } else {
      ConcatFields(t, e);
    }
  }

  lemma ConcatFields(t: Trans, e: Trans)
    requires Agrees(t) && Agrees(e) && t.flag != 0 && e.flag != 0
    ensures var r := Concat(t, e);
      && Agrees(r)
      && Effect(r.flag, r.r) == Compose(Effect(t.flag, t.r), Effect(e.flag, e.r))
      && Effect(r.flag, r.g) == Compose(Effect(t.flag, t.g), Effect(e.flag, e.g))
      && Effect(r.flag, r.b) == Compose(Effect(t.flag, t.b), Effect(e.flag, e.b))
      && Effect(r.flag, r.a) == Compose(Effect(t.flag, t.a), Effect(e.flag, e.a))
  {
    hide Compose, Effect, Neutral;
    ComposeWide(t.r, e.r);
    ComposeWide(t.g, e.g);
    ComposeWide(t.b, e.b);
    ComposeWide(t.a, e.a);
    ReflagMeaning(Composed(t, e));
    EffectIsField(t);
    EffectIsField(e);
    EffectIsField(Concat(t, e));
  }

  lemma ComposeWide(c: Channel, e: Channel)
    ensures WideChannel(Compose(c, e))
  {
  }

  lemma EffectIsField(t: Trans)
    requires Neutral(t)
    ensures Effect(t.flag, t.r) == t.r && Effect(t.flag, t.g) == t.g
    ensures Effect(t.flag, t.b) == t.b && Effect(t.flag, t.a) == t.a
  {
  }

  lemma ComposeOuter(c: Channel)
    requires WideChannel(c)
    ensures Compose(c, Channel(256, 0)) == c
  {
  }

  lemma ComposeInner(e: Channel)
    requires WideChannel(e)
    ensures Compose(Channel(256, 0), e) == e
  {
  }

  // No 16-bit overflow in the composition.
  predicate Fits(c: Channel, e: Channel) {
    Int16(Scale(c.mul, e.mul)) && Int16(c.add + Scale(c.mul, e.add))
  }

  function Abs(x: int): int {
    if x < 0 then -x else x
  }

  // Applying e and then c, minus applying the composition.
  function Drift(c: Channel, e: Channel, v: int): int {
    Raw(c, Raw(e, v)) - Raw(Compose(c, e), v)
  }

  lemma ScaleRest(m: int, x: int) returns (rest: int)
    ensures m * x == 256 * Scale(m, x) + rest && 0 <= rest < 256
  {
    rest := m * x % 256;
  }

  // The drift in 65536ths, from the rests of the five divisions.
  lemma DriftFromRests(c: Channel, e: Channel, v: int) returns (inner: int, outer: int, mul: int, used: int, add: int)
    requires Fits(c, e)
    ensures 0 <= inner < 256 && 0 <= outer < 256 && 0 <= mul < 256 && 0 <= used < 256 && 0 <= add < 256
    ensures 65536 * Drift(c, e, v) == 256 * used + 256 * add - 256 * outer + mul * v - c.mul * inner
    ensures c.mul == 256 ==> outer == 0 && mul == 0 && add == 0 && used == inner
  {
    var m, n := c.mul, e.mul;
    var y := Raw(e, v);
    var k := Scale(m, n);
    inner := ScaleRest(n, v);
    outer := ScaleRest(m, y);
    mul := ScaleRest(m, n);
    used := ScaleRest(k, v);
    add := ScaleRest(m, e.add);
    assert Drift(c, e, v) == Scale(m, y) - Scale(k, v) - Scale(m, e.add);
    SumOfRests(m, n, v, e.add, Scale(n, v), k, Scale(m, y), Scale(k, v), Scale(m, e.add), inner, outer, mul, used, add);
    if m == 256 {
      assert k == n;
    }
  }

  // The five divisions of DriftFromRests put together.
  lemma SumOfRests(m: int, n: int, v: int, o: int, a: int, k: int, b: int, c: int, d: int,
                   inner: int, outer: int, mul: int, used: int, add: int)
    requires n * v == 256 * a + inner && m * n == 256 * k + mul
    requires m * (a + o) == 256 * b + outer && k * v == 256 * c + used && m * o == 256 * d + add
    ensures 65536 * (b - c - d) == 256 * used + 256 * add - 256 * outer + mul * v - m * inner
  {
    assert m * (a + o) == m * a + m * o;
    Exchange(m, n, v, a, k, inner, mul);
  }

  lemma Exchange(m: int, n: int, v: int, a: int, k: int, inner: int, mul: int)
    requires n * v == 256 * a + inner && m * n == 256 * k + mul
    ensures 256 * (m * a) - 256 * (k * v) == mul * v - m * inner
  {
    assert m * (n * v) == m * (256 * a + inner) == 256 * (m * a) + m * inner;
    assert (m * n) * v == (256 * k + mul) * v == 256 * (k * v) + mul * v;
    assert m * (n * v) == (m * n) * v;
  }

  // With nothing clamped between and no overflow, the two are |m|/256 + 3 apart
  // at most; -1 to 2 for multipliers from 0 to 1; and not at all when the outer
  // one does not multiply.
  lemma CompositionDrifts(c: Channel, e: Channel, v: int)
    requires 0 <= v <= 255 && Fits(c, e)
    ensures Abs(Drift(c, e, v)) <= Abs(c.mul) / 256 + 3
    ensures 0 <= c.mul <= 256 ==> -1 <= Drift(c, e, v) <= 2
    ensures c.mul == 256 ==> Drift(c, e, v) == 0
  {
    hide *;
    var inner, outer, mul, used, add := DriftFromRests(c, e, v);
    Product(mul, v);
    if c.mul >= 0 {
      Product2(c.mul, inner);
    } else {
      Product2(-c.mul, inner);
      assert (-c.mul) * inner == -(c.mul * inner);
    }
    DriftBounds(Drift(c, e, v), c.mul, inner, outer, mul, used, add, mul * v, c.mul * inner);
  }

  lemma Product(a: int, v: int)
    requires 0 <= a < 256 && 0 <= v <= 255
    ensures 0 <= a * v <= 255 * 255
  {
    assert a * v <= 255 * v;
  }

  lemma Product2(m: int, i: int)
    requires 0 <= m && 0 <= i < 256
    ensures 0 <= m * i <= 255 * m
  {
    assert m * i <= m * 255;
  }

  lemma DriftBounds(d: int, m: int, inner: int, outer: int, mul: int, used: int, add: int, mv: int, mi: int)
    requires 0 <= inner < 256 && 0 <= outer < 256 && 0 <= used < 256 && 0 <= add < 256
    requires 65536 * d == 256 * used + 256 * add - 256 * outer + mv - mi
    requires 0 <= mv <= 65025 && (if m >= 0 then 0 <= mi <= 255 * m else 255 * m <= mi <= 0)
    requires m == 256 ==> outer == 0 && mv == 0 && add == 0 && used == inner && mi == 256 * inner
    ensures Abs(d) <= Abs(m) / 256 + 3
    ensures 0 <= m <= 256 ==> -1 <= d <= 2
    ensures m == 256 ==> d == 0
  {
  }

  // Both ends of the narrow range are met.
  lemma DriftOfTwo()
    ensures var c, e := Channel(67, 0), Channel(-116, 179);
      Fits(c, e) && Raw(e, 157) == 107 && Drift(c, e, 157) == 2
  {
    assert Scale(67, -116) == -31 && Scale(67, 179) == 46;
  }

  lemma DriftOfMinusOne()
    ensures var c, e := Channel(221, 0), Channel(322, 190);
      Fits(c, e) && Raw(e, 1) == 191 && Drift(c, e, 1) == -1
  {
    assert Scale(221, 322) == 277 && Scale(221, 190) == 164;
  }

  // With a clamp between, nothing bounds the difference.
  lemma ClampBetweenMatters()
    ensures var c, e := Channel(256, -255), Channel(256, 255);
      Fits(c, e) && Clamp(Raw(c, Clamp(Raw(e, 255)))) == 0 && Clamp(Raw(Compose(c, e), 255)) == 255
  {
    assert Scale(256, 256) == 256 && Scale(256, 255) == 255;
  }

  // A last clamp brings the two no further apart.
  lemma ClampedDrift(c: Channel, e: Channel, v: int)
    requires 0 <= v <= 255 && 0 <= Raw(e, v) <= 255 && Fits(c, e)
    ensures Clamp(Raw(e, v)) == Raw(e, v)
    ensures var d := Clamp(Raw(c, Clamp(Raw(e, v)))) - Clamp(Raw(Compose(c, e), v));
      0 <= d <= Drift(c, e, v) || Drift(c, e, v) <= d <= 0
  {
  }

  // How far two components may be apart when the outer channel is c.
  predicate Near(c: Channel, x: int, y: int) {
    && Abs(x - y) <= Abs(c.mul) / 256 + 3
    && (0 <= c.mul <= 256 ==> -1 <= x - y <= 2)
    && (c.mul == 256 ==> x == y)
  }

  // One component: nothing clamped between the two, and nothing overflowing.
  predicate Smooth(c: Channel, e: Channel, v: int) {
    0 <= Raw(e, v) <= 255 && Fits(c, e)
  }

  lemma NearComponent(c: Channel, e: Channel, v: int)
    requires 0 <= v <= 255 && Smooth(c, e, v)
    ensures Near(c, Clamp(Raw(c, Clamp(Raw(e, v)))), Clamp(Raw(Compose(c, e), v)))
  {
    hide Raw, Compose, Fits;
    CompositionDrifts(c, e, v);
    ClampedDrift(c, e, v);
  }

  // The effects of a transform's four channels.
  function Effects(t: Trans): (Channel, Channel, Channel, Channel) {
    (Effect(t.flag, t.r), Effect(t.flag, t.g), Effect(t.flag, t.b), Effect(t.flag, t.a))
  }

  // The operations: transforming a byte colour by e and then by t, against
  // transforming it once by their concatenation.
  lemma ConcatApproximates(t: Trans, e: Trans, c: Rgba)
    requires Agrees(t) && Agrees(e) && Components(c, 255)
    requires Smooth(Effects(t).0, Effects(e).0, c.r) && Smooth(Effects(t).1, Effects(e).1, c.g)
    requires Smooth(Effects(t).2, Effects(e).2, c.b) && Smooth(Effects(t).3, Effects(e).3, c.a)
    ensures var x, y := Transformed(t, Transformed(e, c)), Transformed(Concat(t, e), c);
      && Near(Effects(t).0, x.r, y.r) && Near(Effects(t).1, x.g, y.g)
      && Near(Effects(t).2, x.b, y.b) && Near(Effects(t).3, x.a, y.a)
  {
    hide Raw, Compose, Fits, Near, Clamp, Concat, Agrees, Effect;
    ConcatIsUniform(t, e);
    FastPath(e, c);
    BytesOut(e, c);
    FastPath(t, Plain(e, c));
    FastPath(Concat(t, e), c);
    NearComponent(Effects(t).0, Effects(e).0, c.r);
    NearComponent(Effects(t).1, Effects(e).1, c.g);
    NearComponent(Effects(t).2, Effects(e).2, c.b);
    NearComponent(Effects(t).3, Effects(e).3, c.a);
  }

  lemma BytesOut(t: Trans, c: Rgba)
    ensures Components(Plain(t, c), 255)
  {
  }
}
