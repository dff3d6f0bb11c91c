/** Bits of natural numbers: the C operators the decoders use, and bit strings. */
module Bits {

  function Pow2(k: nat): (p: nat)
    ensures p > 0
  {
    if k == 0 then 1 else 2 * Pow2(k - 1)
  }

  /** C's bitwise or. */
  function BitOr(a: nat, b: nat): nat
    decreases a + b
  {
    if a == 0 && b == 0 then 0
    else 2 * BitOr(a / 2, b / 2) + if a % 2 == 1 || b % 2 == 1 then 1 else 0
  }

  lemma {:induction false} OrZero(a: nat)
    ensures BitOr(a, 0) == a
  {
    if a > 0 { OrZero(a / 2); }
  }

  /** Or of two fields that share no bit is their sum. */
  lemma {:induction false} OrDisjoint(hi: nat, lo: nat, k: nat)
    requires lo < Pow2(k)
    ensures BitOr(hi * Pow2(k), lo) == hi * Pow2(k) + lo
  {
    if k == 0 {
      OrZero(hi);
    } else {
      var p := Pow2(k - 1);
      assert hi * Pow2(k) == 2 * (hi * p);
      OrDisjoint(hi, lo / 2, k - 1);
    }
  }

  /** The `w` low bits of a number, most significant first. */
  function BitString(v: nat, w: nat): (bits: seq<bool>)
    ensures |bits| == w
  {
    if w == 0 then [] else BitString(v / 2, w - 1) + [v % 2 == 1]
  }

  /** Halving a packed number halves its low field. */
  lemma HalfPacked(hi: nat, lo: nat, k: nat)
    requires k > 0 && lo < Pow2(k)
    ensures lo / 2 < Pow2(k - 1)
    ensures (hi * Pow2(k) + lo) / 2 == hi * Pow2(k - 1) + lo / 2 && (hi * Pow2(k) + lo) % 2 == lo % 2
  {
    var h := hi * Pow2(k - 1);
    assert hi * Pow2(k) == 2 * h;
  }

  /** Fields packed into one number give the fields' bit strings one after the other. */
  lemma {:induction false} BitStringSplit(hi: nat, lo: nat, w: nat, k: nat)
    requires lo < Pow2(k)
    ensures BitString(hi * Pow2(k) + lo, w + k) == BitString(hi, w) + BitString(lo, k)
  {
    if k > 0 {
      HalfPacked(hi, lo, k);
      hide Pow2;
      BitStringSplit(hi, lo / 2, w, k - 1);
      UnfoldBits(hi * Pow2(k) + lo, w + k);
      UnfoldBits(lo, k);
      hide BitString;
    }
  }

  lemma UnfoldBits(v: nat, w: nat)
    requires w > 0
    ensures BitString(v, w) == BitString(v / 2, w - 1) + [v % 2 == 1]
  {
  }
}
