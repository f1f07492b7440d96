/** Branch-free comparison masks and multiplexers.
  * A function with the suffix-free name stands for its `unsigned int`, `size_t`, 32-bit
  * and 64-bit variants at once: those differ only in the width of their operands.
  */
module ConstantTime {
  import opened Words

  function Msb(a: Word): (m: Word)
    requires |a| > 0
    ensures m == Mask(|a|, Val(a) >= Pow2(|a| - 1))
  {
    MsbIsMask(a);
    Sub(OfNat(0, |a|), Shr(a, |a| - 1))
  }

  lemma MsbIsMask(a: Word)
    requires |a| > 0
    ensures Sub(OfNat(0, |a|), Shr(a, |a| - 1)) == Mask(|a|, Val(a) >= Pow2(|a| - 1))
  {
    var w := |a|;
    var top := Val(a) >= Pow2(w - 1);
    TopBitAlone(a);
    MaskValue(w, top);
    ValInjective(Sub(OfNat(0, w), Shr(a, w - 1)), Mask(w, top));
  }

  lemma TopBitAlone(a: Word)
    requires |a| > 0
    ensures Val(Shr(a, |a| - 1)) == if Val(a) >= Pow2(|a| - 1) then 1 else 0
  {
    var half := Pow2(|a| - 1);
    TopBit(a);
    if Val(a) >= half {
      ModUnique(Val(a), 1, Val(a) - half, half);
    } else {
      ModUnique(Val(a), 0, Val(a), half);
    }
  }

  function Lt(a: Word, b: Word): (m: Word)
    requires |a| == |b| > 0
    ensures m == Mask(|a|, Val(a) < Val(b))
  {
    LtTopBit(a, b);
    Msb(LtArgument(a, b))
  }

  function LtArgument(a: Word, b: Word): (r: Word)
    requires |a| == |b|
    ensures |r| == |a|
  {
    Xor(a, Or(Xor(a, b), Xor(Sub(a, b), b)))
  }

  /** The case split behind the comparison: operands with different top bits compare by
    * those; otherwise the wrapped difference is large exactly when it borrowed. */
  lemma LtTopBit(a: Word, b: Word)
    requires |a| == |b| > 0
    ensures Val(LtArgument(a, b)) >= Pow2(|a| - 1) <==> Val(a) < Val(b)
  {
    var n := |a| - 1;
    var d := Sub(a, b);
    TopBit(a);
    TopBit(b);
    TopBit(d);
    TopBit(LtArgument(a, b));
  }

  lemma MaskNot(w: nat, c: bool)
    ensures Not(Mask(w, c)) == Mask(w, !c)
  {
  }

  function Ge(a: Word, b: Word): (m: Word)
    requires |a| == |b| > 0
    ensures m == Mask(|a|, Val(a) >= Val(b))
  {
    MaskNot(|a|, Val(a) < Val(b));
    Not(Lt(a, b))
  }

  function IsZero(a: Word): (m: Word)
    requires |a| > 0
    ensures m == Mask(|a|, Val(a) == 0)
  {
    IsZeroTopBit(a);
    Msb(IsZeroArgument(a))
  }

  /** The word 1, of any width that has a bit. */
  function One(w: nat): (a: Word)
    requires w > 0
    ensures |a| == w && Val(a) == 1
  {
    assert Pow2(w) == 2 * Pow2(w - 1);
    OfNat(1, w)
  }

  function IsZeroArgument(a: Word): (r: Word)
    requires |a| > 0
    ensures |r| == |a|
  {
    And(Not(a), Sub(a, One(|a|)))
  }

  /** Only at zero does the wrap of a - 1 set a top bit that a itself leaves clear. */
  lemma IsZeroTopBit(a: Word)
    requires |a| > 0
    ensures Val(IsZeroArgument(a)) >= Pow2(|a| - 1) <==> Val(a) == 0
  {
    DecrementTopBit(a);
    TopBit(IsZeroArgument(a));
  }

  lemma DecrementTopBit(a: Word)
    requires |a| > 0
    ensures !a[|a| - 1] && Sub(a, One(|a|))[|a| - 1] <==> Val(a) == 0
  {
    TopBit(a);
    TopBit(Sub(a, One(|a|)));
  }

  function Eq(a: Word, b: Word): (m: Word)
    requires |a| == |b| > 0
    ensures m == Mask(|a|, Val(a) == Val(b))
  {
    XorIsZero(a, b);
    IsZero(Xor(a, b))
  }

  lemma XorIsZero(a: Word, b: Word)
    requires |a| == |b|
    ensures Val(Xor(a, b)) == 0 <==> Val(a) == Val(b)
  {
    MaskValue(|a|, false);
    if Val(Xor(a, b)) == 0 {
      ValInjective(Xor(a, b), Mask(|a|, false));
      assert forall i | 0 <= i < |a| :: !Xor(a, b)[i];
      assert a == b;
    }
    if Val(a) == Val(b) {
      ValInjective(a, b);
      assert Xor(a, b) == Mask(|a|, false);
    }
  }

  // ---- 8-bit masks ----

  function Byte8(m: Word): (r: Word)
    requires |m| >= 8
    ensures r == m[..8]
  {
    CastNarrow(m, 8);
    Cast(m, 8)
  }

  function Lt8(a: Word, b: Word): (m: Word)
    requires |a| == |b| >= 8
    ensures m == Mask(8, Val(a) < Val(b))
  {
    Byte8(Lt(a, b))
  }

  function Ge8(a: Word, b: Word): (m: Word)
    requires |a| == |b| >= 8
    ensures m == Mask(8, Val(a) >= Val(b))
  {
    Byte8(Ge(a, b))
  }

  function IsZero8(a: Word): (m: Word)
    requires |a| >= 8
    ensures m == Mask(8, Val(a) == 0)
  {
    Byte8(IsZero(a))
  }

  function Eq8(a: Word, b: Word): (m: Word)
    requires |a| == |b| >= 8
    ensures m == Mask(8, Val(a) == Val(b))
  {
    Byte8(Eq(a, b))
  }

  // ---- signed operands ----

  ghost predicate FitsSigned(s: int, w: nat) {
    w > 0 && 0 - Pow2(w - 1) <= s < Pow2(w - 1)
  }

  /** Conversion of a signed operand to the unsigned type of the same width. */
  function ToUnsigned(s: int, w: nat): (a: Word)
    ensures |a| == w && Val(a) == s % Pow2(w)
  {
    OfNat(s % Pow2(w), w)
  }

  /** Conversion back, in two's complement. */
  function ToSigned(a: Word): (s: int)
    requires |a| > 0
    ensures FitsSigned(s, |a|)
  {
    TopBit(a);
    if Val(a) >= Pow2(|a| - 1) then Val(a) - Pow2(|a|) else Val(a)
  }

  lemma SignedRoundTrip(s: int, w: nat)
    requires FitsSigned(s, w)
    ensures ToSigned(ToUnsigned(s, w)) == s
  {
    TopBit(ToUnsigned(s, w));
    var wrap := if s < 0 then 1 else 0;
    ModUnique(s, -wrap, s + wrap * Pow2(w), Pow2(w));
  }

  lemma UnsignedRoundTrip(a: Word)
    requires |a| > 0
    ensures ToUnsigned(ToSigned(a), |a|) == a
  {
    TopBit(a);
    var wrap := if ToSigned(a) < 0 then 1 else 0;
    ModUnique(ToSigned(a), -wrap, Val(a), Pow2(|a|));
    ValInjective(ToUnsigned(ToSigned(a), |a|), a);
  }

  function EqInt(a: int, b: int, w: nat): (m: Word)
    requires FitsSigned(a, w) && FitsSigned(b, w)
    ensures m == Mask(w, a == b)
  {
    UnsignedInjective(a, b, w);
    Eq(ToUnsigned(a, w), ToUnsigned(b, w))
  }

  function EqInt8(a: int, b: int, w: nat): (m: Word)
    requires w >= 8 && FitsSigned(a, w) && FitsSigned(b, w)
    ensures m == Mask(8, a == b)
  {
    UnsignedInjective(a, b, w);
    Eq8(ToUnsigned(a, w), ToUnsigned(b, w))
  }

  lemma UnsignedInjective(a: int, b: int, w: nat)
    requires FitsSigned(a, w) && FitsSigned(b, w)
    ensures Val(ToUnsigned(a, w)) == Val(ToUnsigned(b, w)) <==> a == b
  {
    SignedRoundTrip(a, w);
    SignedRoundTrip(b, w);
    if Val(ToUnsigned(a, w)) == Val(ToUnsigned(b, w)) {
      ValInjective(ToUnsigned(a, w), ToUnsigned(b, w));
    }
  }

  // ---- selection ----

  /** The per-bit multiplexer. */
  ghost function Mux(m: Word, a: Word, b: Word): (r: Word)
    requires |m| == |a| == |b|
    ensures |r| == |m|
  {
    seq(|m|, i requires 0 <= i < |m| => if m[i] then a[i] else b[i])
  }

  lemma MuxOfMask(c: bool, a: Word, b: Word)
    requires |a| == |b|
    ensures Mux(Mask(|a|, c), a, b) == if c then a else b
  {
  }

  function Select(mask: Word, a: Word, b: Word): (r: Word)
    requires |mask| == |a| == |b|
    ensures r == Mux(mask, a, b)
    ensures mask == Mask(|a|, true) ==> r == a
    ensures mask == Mask(|a|, false) ==> r == b
  {
    var r := Or(And(mask, a), And(Not(mask), b));
    assert r == Mux(mask, a, b);
    MuxOfMask(true, a, b);
    MuxOfMask(false, a, b);
    r
  }

  /** The 8-bit variant widens its operands to `unsigned int`, of width wu, and narrows back. */
  function Select8(mask: Word, a: Word, b: Word, wu: nat): (r: Word)
    requires |mask| == |a| == |b| == 8 <= wu
    ensures r == Mux(mask, a, b)
    ensures mask == Mask(8, true) ==> r == a
    ensures mask == Mask(8, false) ==> r == b
  {
    Select8Bits(mask, a, b, wu);
    MuxOfMask(true, a, b);
    MuxOfMask(false, a, b);
    Cast(Select(Cast(mask, wu), Cast(a, wu), Cast(b, wu)), 8)
  }

  lemma Select8Bits(mask: Word, a: Word, b: Word, wu: nat)
    requires |mask| == |a| == |b| == 8 <= wu
    ensures Cast(Select(Cast(mask, wu), Cast(a, wu), Cast(b, wu)), 8) == Mux(mask, a, b)
  {
    CastWiden(mask, wu);
    CastWiden(a, wu);
    CastWiden(b, wu);
    var pad := Mask(wu - 8, false);
    CastNarrow(Mux(mask + pad, a + pad, b + pad), 8);
    assert Mux(mask + pad, a + pad, b + pad)[..8] == Mux(mask, a, b);
  }

  function SelectInt(mask: Word, a: int, b: int): (r: int)
    requires FitsSigned(a, |mask|) && FitsSigned(b, |mask|)
    ensures FitsSigned(r, |mask|)
    ensures ToUnsigned(r, |mask|) == Mux(mask, ToUnsigned(a, |mask|), ToUnsigned(b, |mask|))
    ensures mask == Mask(|mask|, true) ==> r == a
    ensures mask == Mask(|mask|, false) ==> r == b
  {
    var s := Select(mask, ToUnsigned(a, |mask|), ToUnsigned(b, |mask|));
    UnsignedRoundTrip(s);
    SignedRoundTrip(a, |mask|);
    SignedRoundTrip(b, |mask|);
    ToSigned(s)
  }

  /** The variant with a `size_t` mask converts the mask to `unsigned int`, of width wu. */
  function SelectIntS(mask: Word, a: int, b: int, wu: nat): (r: int)
    requires FitsSigned(a, wu) && FitsSigned(b, wu)
    ensures FitsSigned(r, wu)
    ensures ToUnsigned(r, wu) == Mux(Cast(mask, wu), ToUnsigned(a, wu), ToUnsigned(b, wu))
  {
    SelectInt(Cast(mask, wu), a, b)
  }

  /** A `size_t` mask of width ws standing for c selects one of a and b correctly. */
  ghost predicate SelectsAt(ws: nat, wu: nat, c: bool, a: int, b: int)
    requires FitsSigned(a, wu) && FitsSigned(b, wu)
  {
    SelectIntS(Mask(ws, c), a, b, wu) == if c then a else b
  }

  ghost predicate SelectIntSWorks(ws: nat, wu: nat) {
    forall c: bool, a: int, b: int | FitsSigned(a, wu) && FitsSigned(b, wu) :: SelectsAt(ws, wu, c, a, b)
  }

  /** A `size_t` mask selects correctly exactly when `size_t` is at least as wide as
    * `unsigned int`: a narrower all-ones mask is widened with clear bits. */
  lemma SelectIntSWorksIff(ws: nat, wu: nat)
    requires wu > 0
    ensures SelectIntSWorks(ws, wu) <==> ws >= wu
  {
    if ws >= wu {
      WideMaskWorks(ws, wu);
    } else {
      var a := 0 - Pow2(wu - 1);
      NarrowMaskFails(ws, wu, a);
      assert FitsSigned(0, wu);
      assert !SelectsAt(ws, wu, true, a, 0);
    }
  }

  lemma WideMaskWorks(ws: nat, wu: nat)
    requires wu <= ws
    ensures SelectIntSWorks(ws, wu)
  {
    forall c: bool, a: int, b: int | FitsSigned(a, wu) && FitsSigned(b, wu)
      ensures SelectsAt(ws, wu, c, a, b)
    {
      WideMaskSelects(ws, wu, c, a, b);
    }
  }

  lemma WideMaskSelects(ws: nat, wu: nat, c: bool, a: int, b: int)
    requires wu <= ws && FitsSigned(a, wu) && FitsSigned(b, wu)
    ensures SelectsAt(ws, wu, c, a, b)
  {
    CastNarrow(Mask(ws, c), wu);
    assert Mask(ws, c)[..wu] == Mask(wu, c);
  }

  /** No negative operand can come out: the sign bit of the mask is clear. */
  lemma NarrowMaskFails(ws: nat, wu: nat, a: int)
    requires ws < wu && a < 0 && FitsSigned(a, wu)
    ensures SelectIntS(Mask(ws, true), a, 0, wu) >= 0
  {
    CastWiden(Mask(ws, true), wu);
    SignBit(0, wu);
    SignBit(SelectIntS(Mask(ws, true), a, 0, wu), wu);
  }

  lemma SignBit(s: int, w: nat)
    requires FitsSigned(s, w)
    ensures ToUnsigned(s, w)[w - 1] <==> s < 0
  {
    SignedRoundTrip(s, w);
    TopBit(ToUnsigned(s, w));
  }

  /** The use the header documents: selecting by a comparison computes the minimum. */
  lemma MinBySelect(a: Word, b: Word)
    requires |a| == |b| > 0
    ensures Val(Select(Lt(a, b), a, b)) == if Val(a) < Val(b) then Val(a) else Val(b)
    ensures Select(Lt(a, b), a, b) in {a, b}
  {
  }

  // ---- conditional swap ----

  /** A variable the swap reaches through a pointer. */
  class Cell {
    var v: Word

    constructor (v: Word)
      ensures this.v == v
    {
      this.v := v;
    }
  }

  method CondSwap(mask: Word, a: Cell, b: Cell)
    requires |mask| == |a.v| == |b.v|
    modifies a, b
    ensures a != b ==> a.v == Mux(mask, old(b.v), old(a.v))
    ensures a != b ==> b.v == Mux(mask, old(a.v), old(b.v))
    ensures a == b ==> a.v == old(a.v)
    ensures mask == Mask(|mask|, true) ==> a.v == old(b.v) && b.v == old(a.v)
    ensures mask == Mask(|mask|, false) ==> a.v == old(a.v) && b.v == old(b.v)
  {
    MuxOfMask(true, a.v, b.v);
    MuxOfMask(true, b.v, a.v);
    MuxOfMask(false, a.v, b.v);
    MuxOfMask(false, b.v, a.v);
    var xor := Xor(a.v, b.v);
    xor := And(xor, mask);
    a.v := Xor(a.v, xor);
    b.v := Xor(b.v, xor);
    assert a != b ==> a.v == Mux(mask, old(b.v), old(a.v));
    assert a != b ==> b.v == Mux(mask, old(a.v), old(b.v));
    assert a == b ==> a.v == old(a.v);
  }

  /** Swapping twice under one mask restores both cells, whether or not they are the same. */
  method CondSwapTwice(mask: Word, a: Cell, b: Cell)
    requires |mask| == |a.v| == |b.v|
    modifies a, b
    ensures a.v == old(a.v) && b.v == old(b.v)
  {
    CondSwap(mask, a, b);
    CondSwap(mask, a, b);
    MuxInvolution(mask, old(a.v), old(b.v));
    MuxInvolution(mask, old(b.v), old(a.v));
  }

  lemma MuxInvolution(m: Word, x: Word, y: Word)
    requires |m| == |x| == |y|
    ensures Mux(m, Mux(m, x, y), Mux(m, y, x)) == x
  {
  }

  /** What the swap keeps: the exclusive or, and at each position the pair of bits. */
  lemma MuxKeepsXor(m: Word, x: Word, y: Word)
    requires |m| == |x| == |y|
    ensures Xor(Mux(m, y, x), Mux(m, x, y)) == Xor(x, y)
    ensures forall i | 0 <= i < |m| ::
              multiset{Mux(m, y, x)[i], Mux(m, x, y)[i]} == multiset{x[i], y[i]}
  {
    assert Xor(Mux(m, y, x), Mux(m, x, y)) == Xor(x, y);
  }
}
