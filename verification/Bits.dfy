// Machine words as bit sequences, the highest bit first (base/bitval.h,
// base/bitval.c), and the numbers they stand for.
module Bits {
  type Byte = b: seq<bool> | |b| == 8 witness Zeros(8)

  function Zeros(n: nat): (r: seq<bool>)
    ensures |r| == n && forall i :: 0 <= i < n ==> !r[i]
  {
    seq(n, _ => false)
  }

  function Ones(n: nat): (r: seq<bool>)
    ensures |r| == n && forall i :: 0 <= i < n ==> r[i]
  {
    seq(n, _ => true)
  }

  // The bits of b on top of a word of w bits.
  function Pad(b: seq<bool>, w: nat): (r: seq<bool>)
    requires |b| <= w
    ensures |r| == w && r[..|b|] == b && forall i :: |b| <= i < w ==> !r[i]
  {
    b + Zeros(w - |b|)
  }

  // The operators of C on a word; bits shifted out are gone.
  function Shl(a: seq<bool>, k: nat): (r: seq<bool>)
    ensures |r| == |a|
  {
    seq(|a|, i requires 0 <= i < |a| => i + k < |a| && a[i + k])
  }

  function Shr(a: seq<bool>, k: nat): (r: seq<bool>)
    ensures |r| == |a|
  {
    seq(|a|, i requires 0 <= i < |a| => k <= i && a[i - k])
  }

  // The arithmetic shift, which repeats the sign.
  function Sar(a: seq<bool>, k: nat): (r: seq<bool>)
    ensures |r| == |a|
  {
    seq(|a|, i requires 0 <= i < |a| => if k <= i then a[i - k] else a[0])
  }

  function Or(a: seq<bool>, b: seq<bool>): (r: seq<bool>)
    requires |a| == |b|
    ensures |r| == |a|
  {
    seq(|a|, i requires 0 <= i < |a| => a[i] || b[i])
  }

  function And(a: seq<bool>, b: seq<bool>): (r: seq<bool>)
    requires |a| == |b|
    ensures |r| == |a|
  {
    seq(|a|, i requires 0 <= i < |a| => a[i] && b[i])
  }

  function TopMask(n: nat, w: nat): (r: seq<bool>)
    requires n <= w
    ensures |r| == w
  {
    Shl(Ones(w), w - n)
  }

  // The top n bits of m are set.
  predicate Topped(m: seq<bool>, n: nat) {
    n <= |m| && forall i :: 0 <= i < n ==> m[i]
  }

  // The top bits of b behind a, whatever else the mask lets through.
  lemma JoinTop(a: seq<bool>, b: seq<bool>, m: seq<bool>, n: nat, w: nat)
    requires n <= |b| <= w && |a| + n <= w && |m| == w && Topped(m, n)
    ensures Or(Pad(a, w), Shr(And(Pad(b, w), m), |a|))[..|a| + n] == a + b[..n]
  {
  }

  lemma MaskTop(b: seq<bool>, n: nat, w: nat)
    requires n <= |b| <= w
    ensures And(Pad(b, w), TopMask(n, w)) == Pad(b[..n], w)
  {
  }

  lemma JoinWords(a: seq<bool>, b: seq<bool>, w: nat)
    requires |a| + |b| <= w
    ensures Or(Pad(a, w), Shr(Pad(b, w), |a|)) == Pad(a + b, w)
  {
  }

  lemma DropTop(b: seq<bool>, n: nat, w: nat)
    requires n <= |b| <= w
    ensures Shl(Pad(b, w), n) == Pad(b[n..], w)
  {
  }

  // ---- numbers --------------------------------------------------------------

  function Pow2(n: nat): (r: nat)
    ensures r > 0
  {
    if n == 0 then 1 else 2 * Pow2(n - 1)
  }

  function Value(b: seq<bool>): (r: nat)
    ensures r < Pow2(|b|)
  {
    if b == [] then 0 else 2 * Value(b[..|b| - 1]) + if b[|b| - 1] then 1 else 0
  }

  // The two's complement reading.
  function Signed(b: seq<bool>): int {
    if b != [] && b[0] then Value(b) - Pow2(|b|) else Value(b)
  }

  // The low n bits of a number, in two's complement.
  function Low(v: int, n: nat): (r: seq<bool>)
    ensures |r| == n
    decreases n
  {
    if n == 0 then [] else Low(v / 2, n - 1) + [v % 2 == 1]
  }

  lemma {:induction false} ValueLow(v: int, n: nat)
    ensures Value(Low(v, n)) == v % Pow2(n)
    decreases n
  {
    if n > 0 {
      var b := Low(v, n);
      assert b[..n - 1] == Low(v / 2, n - 1);
      ValueLow(v / 2, n - 1);
      HalfMod(v, Pow2(n - 1));
    }
  }

  lemma HalfMod(v: int, m: nat)
    requires m > 0
    ensures v % (2 * m) == 2 * ((v / 2) % m) + v % 2
  {
    var q, r := (v / 2) / m, (v / 2) % m;
    assert v == 2 * (m * q + r) + v % 2;
    assert v == (2 * m) * q + (2 * r + v % 2) by {
      assert 2 * (m * q + r) == (2 * m) * q + 2 * r;
    }
    DivisionIsUnique(v, 2 * m, q, 2 * r + v % 2);
  }

  lemma DivisionIsUnique(v: int, m: nat, q: int, r: nat)
    requires m > 0 && r < m && v == m * q + r
    ensures v % m == r && v / m == q
  {
    var d := v / m - q;
    assert m * d == r - v % m by {
      assert v == m * (v / m) + v % m;
      assert m * d == m * (v / m) - m * q;
    }
    AtLeastOnce(m, d);
    AtLeastOnce(m, -d);
    assert m * -d == -(m * d);
  }

  lemma AtLeastOnce(m: nat, d: int)
    ensures d > 0 ==> m * d >= m
    ensures d == 0 ==> m * d == 0
  {
    if d > 0 {
      assert m * d == m + m * (d - 1);
    }
  }

  lemma {:induction false} LowHead(v: int, n: nat)
    requires n > 0
    ensures Low(v, n)[0] <==> v % Pow2(n) >= Pow2(n - 1)
  {
    ValueLow(v, n);
    HeadOf(Low(v, n));
  }

  lemma {:induction false} HeadOf(b: seq<bool>)
    requires b != []
    ensures b[0] <==> Value(b) >= Pow2(|b| - 1)
  {
    if |b| > 1 {
      HeadOf(b[..|b| - 1]);
    } else {
      assert b[..0] == [];
      assert Pow2(0) == 1;
    }
  }

  // A number that fits n bits signed comes back from them.
  lemma SignedLow(v: int, n: nat)
    requires n > 0 && -(Pow2(n - 1) as int) <= v < Pow2(n - 1)
    ensures Signed(Low(v, n)) == v
  {
    ValueLow(v, n);
    LowHead(v, n);
    if v < 0 {
      DivisionIsUnique(v, Pow2(n), -1, v + Pow2(n));
    }
  }

  // The n low bits of a word are its last n.
  lemma {:induction false} LowSuffix(v: int, n: nat, w: nat)
    requires n <= w
    ensures Low(v, w)[w - n..] == Low(v, n)
    decreases n
  {
    if n > 0 {
      LowSuffix(v / 2, n - 1, w - 1);
      assert Low(v, w)[w - n..] == Low(v / 2, w - 1)[w - n..] + [v % 2 == 1];
    }
  }

  lemma ShiftedUp(v: int, n: nat, w: nat)
    requires n <= w
    ensures Shl(Low(v, w), w - n) == Pad(Low(v, n), w)
  {
    LowSuffix(v, n, w);
    forall i | 0 <= i < n ensures Low(v, w)[i + (w - n)] == Low(v, n)[i] {
      assert Low(v, w)[w - n..][i] == Low(v, n)[i];
    }
  }

  lemma {:induction false} ValueBelowZeros(k: nat, b: seq<bool>)
    ensures Value(Zeros(k) + b) == Value(b)
  {
    var s := Zeros(k) + b;
    if b != [] {
      ValueBelowZeros(k, b[..|b| - 1]);
      assert s[..|s| - 1] == Zeros(k) + b[..|b| - 1];
    } else if k > 0 {
      ValueBelowZeros(k - 1, b);
      assert s[..|s| - 1] == Zeros(k - 1) + b;
    }
  }

  lemma {:induction false} ValueBelowOnes(k: nat, b: seq<bool>)
    ensures Value(Ones(k) + b) == Value(b) + Pow2(k + |b|) - Pow2(|b|)
  {
    var s := Ones(k) + b;
    if b != [] {
      ValueBelowOnes(k, b[..|b| - 1]);
      assert s[..|s| - 1] == Ones(k) + b[..|b| - 1];
    } else if k > 0 {
      ValueBelowOnes(k - 1, b);
      assert s[..|s| - 1] == Ones(k - 1) + b;
    } else {
      assert s == [];
    }
  }

  // bitval_read_ubits's and bitval_read_sbits's last shift, of any word with the
  // field on top.
  lemma UnsignedShift(h: seq<bool>, n: nat)
    requires n <= |h|
    ensures Value(Shr(h, |h| - n)) == Value(h[..n])
  {
    assert Shr(h, |h| - n) == Zeros(|h| - n) + h[..n];
    ValueBelowZeros(|h| - n, h[..n]);
  }

  lemma SignedShift(h: seq<bool>, n: nat)
    requires 0 < n <= |h|
    ensures Signed(Sar(h, |h| - n)) == Signed(h[..n])
  {
    var k, b := |h| - n, h[..n];
    if h[0] {
      assert Sar(h, k) == Ones(k) + b;
      ValueBelowOnes(k, b);
    } else {
      assert Sar(h, k) == Zeros(k) + b;
      ValueBelowZeros(k, b);
    }
  }

  // ---- bytes ----------------------------------------------------------------

  // The bits of the bytes in order.
  function BitsOf(s: seq<Byte>): (r: seq<bool>)
    ensures |r| == 8 * |s|
  {
    if s == [] then [] else s[0] + BitsOf(s[1..])
  }

  lemma {:induction false} BitsOfConcat(a: seq<Byte>, b: seq<Byte>)
    ensures BitsOf(a + b) == BitsOf(a) + BitsOf(b)
  {
    if a == [] {
      assert a + b == b;
    } else {
      assert (a + b)[1..] == a[1..] + b;
      BitsOfConcat(a[1..], b);
    }
  }

  lemma BitsOfSlice(s: seq<Byte>, i: nat, j: nat)
    requires i <= j <= |s|
    ensures BitsOf(s[i..j]) == BitsOf(s)[8 * i..8 * j]
  {
    hide BitsOf;
    SplitTwice(s, i, j);
    BitsOfConcat(s[..j], s[j..]);
    BitsOfConcat(s[..i], s[i..j]);
    Middle(BitsOf(s[..i]), BitsOf(s[i..j]), BitsOf(s[j..]), BitsOf(s));
  }

  lemma SplitTwice<T>(s: seq<T>, i: nat, j: nat)
    requires i <= j <= |s|
    ensures s[..j] + s[j..] == s && s[..i] + s[i..j] == s[..j]
  {
  }

  lemma Middle(a: seq<bool>, b: seq<bool>, c: seq<bool>, all: seq<bool>)
    requires all == a + b + c
    ensures all[|a|..|a| + |b|] == b
  {
  }

  // The bytes of a word's first k bytes.
  function TopBytes(b: seq<bool>, k: nat): (r: seq<Byte>)
    requires 8 * k <= |b|
    ensures |r| == k
  {
    seq(k, i requires 0 <= i < k => b[8 * i..8 * i + 8])
  }

  lemma {:induction false} TopBytesBits(b: seq<bool>, k: nat)
    requires 8 * k <= |b|
    ensures BitsOf(TopBytes(b, k)) == b[..8 * k]
  {
    if k > 0 {
      TopBytesBits(b, k - 1);
      var last := b[8 * (k - 1)..8 * k];
      assert TopBytes(b, k) == TopBytes(b, k - 1) + [last];
      BitsOfConcat(TopBytes(b, k - 1), [last]);
      assert BitsOf([last]) == last + BitsOf([]);
    }
  }
}
