/** Unsigned machine words of any width.
  * A word is its sequence of bits, bit i having weight 2^i; the width is the length.
  * Bitwise operators act on the bits. Subtraction, shifting and conversion act on the
  * value, the way C defines them for unsigned types: reduced modulo 2^width, and as
  * the quotient by a power of two.
  */
module Words {

  type Word = seq<bool>

  function Pow2(n: nat): (p: nat)
    ensures p >= 1
  {
    if n == 0 then 1 else 2 * Pow2(n - 1)
  }

  function Val(a: Word): (v: nat)
    ensures v < Pow2(|a|)
  {
    if |a| == 0 then 0
    else
      var n := |a| - 1;
      Val(a[..n]) + if a[n] then Pow2(n) else 0
  }

  function OfNat(v: nat, w: nat): (a: Word)
    requires v < Pow2(w)
    ensures |a| == w && Val(a) == v
  {
    if w == 0 then []
    else if v >= Pow2(w - 1) then
      var low := OfNat(v - Pow2(w - 1), w - 1);
      assert (low + [true])[..w - 1] == low;
      low + [true]
    else
      var low := OfNat(v, w - 1);
      assert (low + [false])[..w - 1] == low;
      low + [false]
  }

  lemma {:induction false} ValInjective(a: Word, b: Word)
    requires |a| == |b| && Val(a) == Val(b)
    ensures a == b
  {
    if |a| == 0 {
    } else {
      var n := |a| - 1;
      ValInjective(a[..n], b[..n]);
      assert a == a[..n] + [a[n]] && b == b[..n] + [b[n]];
    }
  }

  /** The mask of a truth value: every bit set, or none. */
  function Mask(w: nat, c: bool): (m: Word)
    ensures |m| == w && forall i | 0 <= i < w :: m[i] == c
  {
    seq(w, i => c)
  }

  lemma {:induction false} MaskValue(w: nat, c: bool)
    ensures Val(Mask(w, c)) == if c then Pow2(w) - 1 else 0
  {
    if w == 0 {
    } else {
      MaskValue(w - 1, c);
      assert Mask(w, c)[..w - 1] == Mask(w - 1, c);
    }
  }

  function And(a: Word, b: Word): (r: Word)
    requires |a| == |b|
    ensures |r| == |a| && forall i | 0 <= i < |a| :: r[i] == (a[i] && b[i])
  {
    seq(|a|, i requires 0 <= i < |a| => a[i] && b[i])
  }

  function Or(a: Word, b: Word): (r: Word)
    requires |a| == |b|
    ensures |r| == |a| && forall i | 0 <= i < |a| :: r[i] == (a[i] || b[i])
  {
    seq(|a|, i requires 0 <= i < |a| => a[i] || b[i])
  }

  function Xor(a: Word, b: Word): (r: Word)
    requires |a| == |b|
    ensures |r| == |a| && forall i | 0 <= i < |a| :: r[i] == (a[i] != b[i])
  {
    seq(|a|, i requires 0 <= i < |a| => a[i] != b[i])
  }

  function Not(a: Word): (r: Word)
    ensures |r| == |a| && forall i | 0 <= i < |a| :: r[i] == !a[i]
  {
    seq(|a|, i requires 0 <= i < |a| => !a[i])
  }

  /** Unsigned subtraction: the difference reduced modulo 2^w, so one below zero wraps. */
  function Sub(a: Word, b: Word): (r: Word)
    requires |a| == |b|
    ensures |r| == |a|
    ensures Val(r) == if Val(a) >= Val(b) then Val(a) - Val(b) else Val(a) - Val(b) + Pow2(|a|)
  {
    WrapBelowZero(Val(a), Val(b), Pow2(|a|));
    OfNat((Val(a) - Val(b)) % Pow2(|a|), |a|)
  }

  lemma WrapBelowZero(a: nat, b: nat, p: nat)
    requires a < p && b < p
    ensures (a - b) % p == if a >= b then a - b else a - b + p
  {
    ModUnique(a - b, if a >= b then 0 else -1, if a >= b then a - b else a - b + p, p);
  }

  function Shr(a: Word, n: nat): (r: Word)
    ensures |r| == |a| && Val(r) == Val(a) / Pow2(n)
  {
    QuotientBound(Val(a), Pow2(n));
    OfNat(Val(a) / Pow2(n), |a|)
  }

  lemma QuotientBound(v: nat, p: nat)
    requires p >= 1
    ensures 0 <= v / p <= v
  {
    assert v == p * (v / p) + v % p;
  }

  /** Conversion to an unsigned type of width w. */
  function Cast(a: Word, w: nat): (r: Word)
    ensures |r| == w && Val(r) == Val(a) % Pow2(w)
  {
    OfNat(Val(a) % Pow2(w), w)
  }

  /** The top bit tells on which side of 2^(w-1) the value lies. */
  lemma TopBit(a: Word)
    requires |a| > 0
    ensures a[|a| - 1] <==> Val(a) >= Pow2(|a| - 1)
    ensures Pow2(|a|) == 2 * Pow2(|a| - 1)
  {
  }

  /** Narrowing keeps the low bits. */
  lemma {:induction false} CastNarrow(a: Word, w: nat)
    requires w <= |a|
    ensures Cast(a, w) == a[..w]
  {
    LowBits(a, w);
    ValInjective(Cast(a, w), a[..w]);
  }

  lemma {:induction false} LowBits(a: Word, w: nat)
    requires w <= |a|
    ensures Val(a[..w]) == Val(a) % Pow2(w)
  {
    if w == |a| {
      assert a[..w] == a;
      SmallMod(Val(a), Pow2(w));
    } else {
      var n := |a| - 1;
      LowBits(a[..n], w);
      assert a[..n][..w] == a[..w];
      if a[n] {
        Pow2Multiple(n, w);
        var q := Pow2(n - w);
        ModPlusMultiple(Val(a[..n]), q, Pow2(w));
      }
    }
  }

  lemma {:induction false} Pow2Multiple(n: nat, w: nat)
    requires w <= n
    ensures Pow2(n) == Pow2(n - w) * Pow2(w)
  {
    if w == n {
    } else {
      Pow2Multiple(n - 1, w);
      assert Pow2(n) == 2 * (Pow2(n - 1 - w) * Pow2(w));
      assert Pow2(n - w) == 2 * Pow2(n - w - 1);
    }
  }

  lemma SmallMod(v: nat, p: nat)
    requires v < p
    ensures v % p == v
  {
  }

  lemma ModPlusMultiple(v: nat, q: nat, p: nat)
    requires p >= 1
    ensures (v + q * p) % p == v % p
  {
    var r, d := v % p, v / p;
    assert v == d * p + r;
    assert v + q * p == (d + q) * p + r by { assert (d + q) * p == d * p + q * p; }
    ModUnique(v + q * p, d + q, r, p);
  }

  /** A quotient and an in-range remainder are the ones `/` and `%` give. */
  lemma ModUnique(v: int, d: int, r: int, p: nat)
    requires p >= 1 && 0 <= r < p && v == d * p + r
    ensures v % p == r && v / p == d
  {
    MulBound(d - v / p, p);
    assert v == (v / p) * p + v % p;
    assert (d - v / p) * p == d * p - (v / p) * p;
  }

  lemma MulBound(k: int, p: nat)
    ensures k >= 1 ==> k * p >= p
    ensures k <= -1 ==> k * p <= 0 - p
  {
    assert k >= 1 ==> k * p == (k - 1) * p + p;
    assert k <= -1 ==> k * p == (k + 1) * p - p;
  }

  /** Widening adds clear bits. */
  lemma {:induction false} CastWiden(a: Word, w: nat)
    requires |a| <= w
    ensures Cast(a, w) == a + Mask(w - |a|, false)
  {
    PaddedValue(a, w - |a|);
    Pow2Monotone(|a|, w);
    SmallMod(Val(a), Pow2(w));
    ValInjective(Cast(a, w), a + Mask(w - |a|, false));
  }

  lemma {:induction false} PaddedValue(a: Word, k: nat)
    ensures Val(a + Mask(k, false)) == Val(a)
  {
    var p := a + Mask(k, false);
    if k == 0 {
      assert p == a;
    } else {
      PaddedValue(a, k - 1);
      assert p[..|p| - 1] == a + Mask(k - 1, false);
    }
  }

  lemma {:induction false} Pow2Monotone(m: nat, n: nat)
    requires m <= n
    ensures Pow2(m) <= Pow2(n)
  {
    if m == n {
    } else {
      Pow2Monotone(m, n - 1);
    }
  }
}
