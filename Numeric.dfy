/**
 * The numeric conversions the pixel engine relies on: the store into a
 * Uint8ClampedArray (ToUint8Clamp, section 7.1.12 of ECMA-262), Math.round
 * (section 21.3.2.28 of ECMA-262), Math.max/Math.min clamping, and the luma
 * weights 0.299, 0.587, 0.114 taken exactly as thousandths.
 */
module Numeric {

  /** A value a Uint8ClampedArray element can hold. */
  predicate IsByte(v: int) {
    0 <= v <= 255
  }

  /** `Math.max(lo, Math.min(hi, x))` on numbers. */
  function ClampReal(x: real, lo: real, hi: real): (r: real)
    requires lo <= hi
    ensures lo <= r <= hi
    ensures lo <= x <= hi ==> r == x
    ensures r == x || r == lo || r == hi
  {
    var m := if hi < x then hi else x;
    if m < lo then lo else m
  }

  /** `Math.max(0, Math.min(255, x))` on an integer-valued number. */
  function ClampByte(x: int): (r: int)
    ensures IsByte(r)
    ensures IsByte(x) ==> r == x
    ensures x < 0 ==> r == 0
    ensures x > 255 ==> r == 255
  {
    var m := if 255 < x then 255 else x;
    if m < 0 then 0 else m
  }

  /**
   * The conversion applied by every store into a Uint8ClampedArray:
   * clamp to [0, 255], then round to the nearest integer, ties to even.
   */
  function ToUint8Clamp(x: real): (r: int)
    ensures IsByte(r)
  {
    if x <= 0.0 then 0
    else if x >= 255.0 then 255
    else
      var f := x.Floor;
      if (f as real) + 0.5 < x then f + 1
      else if x < (f as real) + 0.5 then f
      else if f % 2 == 1 then f + 1
      else f
  }

  /**
   * ToUint8Clamp saturates outside [0, 255] and inside it picks an integer at
   * distance at most one half, the even one on a tie.
   */
  lemma ToUint8ClampRounds(x: real)
    ensures x <= 0.0 ==> ToUint8Clamp(x) == 0
    ensures x >= 255.0 ==> ToUint8Clamp(x) == 255
    ensures 0.0 <= x <= 255.0 ==>
      (ToUint8Clamp(x) as real) - 0.5 <= x <= (ToUint8Clamp(x) as real) + 0.5
    ensures 0.0 <= x <= 255.0 && (x - (ToUint8Clamp(x) as real) == 0.5 || (ToUint8Clamp(x) as real) - x == 0.5) ==>
      ToUint8Clamp(x) % 2 == 0
  {
  }

  /** Storing an integer that is already a byte stores it unchanged. */
  lemma ToUint8ClampOfByte(v: int)
    requires IsByte(v)
    ensures ToUint8Clamp(v as real) == v
  {
    ToUint8ClampRounds(v as real);
  }

  /** A stored number is never below an integer lower bound of it, nor above an integer upper bound. */
  lemma ToUint8ClampBetween(x: real, lo: int, hi: int)
    requires IsByte(lo) && IsByte(hi) && lo as real <= x <= hi as real
    ensures lo <= ToUint8Clamp(x) <= hi
  {
    ToUint8ClampRounds(x);
  }

  /** `Math.round`: the nearest integer, ties toward positive infinity. */
  function JsRound(x: real): (r: int)
    ensures (r as real) - 0.5 <= x < (r as real) + 0.5
  {
    (x + 0.5).Floor
  }

  /** Math.round of an integer is that integer. */
  lemma JsRoundOfInt(v: int)
    ensures JsRound(v as real) == v
  {
    var r := JsRound(v as real);
    assert (r as real) - 0.5 <= v as real < (r as real) + 0.5;
  }

  /** Math.round keeps a number of [lo, hi] inside [lo, hi] when lo and hi are integers. */
  lemma JsRoundBetween(x: real, lo: int, hi: int)
    requires lo as real <= x <= hi as real
    ensures lo <= JsRound(x) <= hi
  {
  }

  /** A thousand times the luma: `299 * r + 587 * g + 114 * b`. */
  function LumaNum(r: int, g: int, b: int): int {
    299 * r + 587 * g + 114 * b
  }

  /** `0.299 * r + 0.587 * g + 0.114 * b`, exactly. */
  function Luma(r: int, g: int, b: int): real {
    (299 * r + 587 * g + 114 * b) as real / 1000.0
  }

  /** The luma of three bytes lies in [0, 255]. */
  lemma LumaRange(r: int, g: int, b: int)
    requires IsByte(r) && IsByte(g) && IsByte(b)
    ensures 0.0 <= Luma(r, g, b) <= 255.0
  {
  }

  /** The weights sum to one: a gray pixel has its own value as luma. */
  lemma LumaOfGray(v: int)
    ensures Luma(v, v, v) == v as real
  {
  }

  lemma MulDistributes(a: int, e: int, c: int)
    ensures (a + e) * c == a * c + e * c
  {
  }

  lemma MulDistributesLeft(c: int, a: int, e: int)
    ensures c * (a + e) == c * a + c * e
  {
  }

  /** b * lo <= a <= b * hi with b > 0 puts a / b in [lo, hi]. */
  lemma QuotientBetween(a: real, b: real, lo: real, hi: real)
    requires b > 0.0 && lo * b <= a <= hi * b
    ensures lo <= a / b <= hi
  {
    var q := a / b;
    assert q * b == a;
    assert (q - lo) * b == a - lo * b >= 0.0;
    assert (hi - q) * b == hi * b - a >= 0.0;
  }

  lemma ProductAsReal(a: int, b: int)
    ensures (a * b) as real == a as real * b as real == b as real * a as real
  {
  }
}
