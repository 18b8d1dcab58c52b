/** The bitwise operators on unsigned words, bit by bit, and the mask tricks built on them. */
module Bits {
  import opened Arith
  import opened Limbs

  function Xor(x: nat, y: nat): nat {
    if x == 0 && y == 0 then 0 else (x % 2 + y % 2) % 2 + 2 * Xor(x / 2, y / 2)
  }

  function And(x: nat, y: nat): nat {
    if x == 0 || y == 0 then 0 else (x % 2) * (y % 2) + 2 * And(x / 2, y / 2)
  }

  function Or(x: nat, y: nat): nat {
    if x == 0 && y == 0 then 0 else (if x % 2 + y % 2 > 0 then 1 else 0) + 2 * Or(x / 2, y / 2)
  }

  /** The complement of a 64-bit word. */
  function Not(x: Limb): Limb {
    WORD - 1 - x
  }

  lemma XorStep(x: nat, y: nat)
    ensures Xor(x, y) % 2 == (x % 2 + y % 2) % 2 && Xor(x, y) / 2 == Xor(x / 2, y / 2)
  {
  }

  lemma {:induction false} XorZero(x: nat)
    ensures Xor(x, 0) == x
  {
    if x > 0 {
      XorZero(x / 2);
    }
  }

  lemma {:induction false} XorCommutes(x: nat, y: nat)
    ensures Xor(x, y) == Xor(y, x)
    decreases x + y
  {
    if x != 0 || y != 0 {
      XorCommutes(x / 2, y / 2);
    }
  }

  lemma {:induction false} XorCancels(x: nat, y: nat)
    ensures Xor(x, Xor(x, y)) == y
    decreases x + y
  {
    XorZero(0);
    hide Xor;
    if x != 0 || y != 0 {
      XorCancels(x / 2, y / 2);
      XorStep(x, y);
      XorStep(x, Xor(x, y));
      Parity(x % 2, y % 2);
      HalfAndParity(Xor(x, Xor(x, y)), y);
    }
  }

  lemma Parity(a: nat, b: nat)
    requires a < 2 && b < 2
    ensures (a + (a + b) % 2) % 2 == b
  {
  }

  lemma HalfAndParity(x: nat, y: nat)
    requires x / 2 == y / 2 && x % 2 == y % 2
    ensures x == y
  {
  }

  lemma {:induction false} XorBound(x: nat, y: nat, k: nat)
    requires x < Pow(2, k) && y < Pow(2, k)
    ensures Xor(x, y) < Pow(2, k)
  {
    if k > 0 {
      XorBound(x / 2, y / 2, k - 1);
    }
  }

  lemma {:induction false} AndMask(x: nat, k: nat)
    requires x < Pow(2, k)
    ensures And(x, Pow(2, k) - 1) == x
  {
    if k > 0 {
      AndMask(x / 2, k - 1);
      PowPos(2, k - 1);
      assert (Pow(2, k) - 1) / 2 == Pow(2, k - 1) - 1 && (Pow(2, k) - 1) % 2 == 1;
    }
  }

  lemma {:induction false} OrZero(x: nat)
    ensures Or(x, 0) == x && Or(0, x) == x
  {
    if x > 0 {
      OrZero(x / 2);
    }
  }

  /** All ones for cond = 1, all zeros for cond = 0: ~(cond - 1) on 64-bit words. */
  function Mask(cond: Limb): Limb {
    Not((cond - 1) % WORD)
  }

  lemma MaskValue(cond: Limb)
    requires cond <= 1
    ensures Mask(cond) == if cond == 1 then WORD - 1 else 0
  {
  }

  /** The masked exclusive-or exchanges two words or leaves both alone. */
  lemma SwapWords(x: Limb, y: Limb, cond: Limb)
    requires cond <= 1
    ensures Xor(x, And(Xor(x, y), Mask(cond))) == if cond == 1 then y else x
    ensures Xor(y, And(Xor(x, y), Mask(cond))) == if cond == 1 then x else y
  {
    MaskValue(cond);
    PowTwo64();
    XorBound(x, y, 64);
    AndMask(Xor(x, y), 64);
    XorCancels(x, y);
    XorCancels(y, x);
    XorCommutes(x, y);
    XorZero(x);
    XorZero(y);
  }

  lemma SelectWord(x: Limb, y: Limb, cond: Limb)
    requires cond <= 1
    ensures Or(And(x, Not(Mask(cond))), And(y, Mask(cond))) == if cond == 1 then y else x
  {
    MaskValue(cond);
    PowTwo64();
    AndMask(x, 64);
    AndMask(y, 64);
    OrZero(x);
    OrZero(y);
  }

  /** Copy src over dst when cond is 1, by masks instead of a branch. */
  method ConstTimeSelect(dst: array<Limb>, src: seq<Limb>, cond: Limb)
    requires dst.Length == |src| && cond <= 1
    modifies dst
    ensures dst[..] == if cond == 1 then src else old(dst[..])
  {
    for i := 0 to |src|
      invariant forall k :: 0 <= k < i ==> dst[k] == if cond == 1 then src[k] else old(dst[k])
      invariant forall k :: i <= k < |src| ==> dst[k] == old(dst[k])
    {
      SelectWord(dst[i], src[i], cond);
      dst[i] := Or(And(dst[i], Not(Mask(cond))), And(src[i], Mask(cond)));
    }
  }

  /** Exchange a and b when cond is 1, by masks instead of a branch. */
  method ConstTimeSwap(a: array<Limb>, b: array<Limb>, cond: Limb)
    requires a.Length == b.Length && cond <= 1
    modifies a, b
    ensures a[..] == if cond == 1 then old(b[..]) else old(a[..])
    ensures b[..] == if cond == 1 then old(a[..]) else old(b[..])
  {
    for i := 0 to a.Length
      invariant forall k :: 0 <= k < i ==> a[k] == (if cond == 1 then old(b[k]) else old(a[k]))
      invariant forall k :: 0 <= k < i ==> b[k] == (if cond == 1 then old(a[k]) else old(b[k]))
      invariant forall k :: i <= k < a.Length ==> a[k] == old(a[k]) && b[k] == old(b[k])
    {
      SwapWords(a[i], b[i], cond);
      var diff := And(Xor(a[i], b[i]), Mask(cond));
      a[i] := Xor(a[i], diff);
      b[i] := Xor(b[i], diff);
    }
  }
}
