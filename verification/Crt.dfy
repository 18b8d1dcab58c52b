/** RSA private-key operation by the Chinese Remainder Theorem, with half-width primes. */
module Crt {
  import opened Arith
  import opened Limbs
  import opened BigInt
  import opened ModExp

  // ---- reduction of a full-width number modulo a half-width one -----------------

  /** A limb after a one-bit left shift, with the top bit of the limb below it brought in. */
  function ShiftedLimb(x: Limb, below: Limb): Limb {
    (2 * x) % WORD + below / 0x8000_0000_0000_0000
  }

  /** Shift left by one in place, from the top limb down, and bring in the low bit b. */
  method ShiftInBit(r: array<Limb>, b: Limb) returns (carryOut: Limb)
    requires r.Length > 0 && b <= 1
    modifies r
    ensures carryOut <= 1
    ensures Val(r[..]) + carryOut * Radix(r.Length) == 2 * old(Val(r[..])) + b
  {
    hide Val, Radix, ShiftedLimb;
    var m := r.Length;
    ghost var x := r[..];
    carryOut := r[m - 1] / 0x8000_0000_0000_0000;
    for i := m - 1 downto 0
      invariant forall k :: 0 <= k <= i ==> r[k] == x[k]
      invariant forall k :: i < k < m ==> r[k] == ShiftedLimb(x[k], x[k - 1])
    {
      r[i + 1] := ShiftedLimb(r[i + 1], r[i]);
    }
    r[0] := (2 * r[0]) % WORD;
    r[0] := r[0] + b;
    ShiftedVal(x, r[..], b, m);
    assert r[..][..m] == r[..] && x[..m] == x;
  }

  lemma {:induction false} ShiftedVal(x: seq<Limb>, y: seq<Limb>, b: Limb, k: nat)
    requires 0 < k <= |x| == |y| && b <= 1
    requires y[0] == (2 * x[0]) % WORD + b
    requires forall i :: 0 < i < |x| ==> y[i] == ShiftedLimb(x[i], x[i - 1])
    ensures Val(y[..k]) + (x[k - 1] / 0x8000_0000_0000_0000) * Radix(k) == 2 * Val(x[..k]) + b
  {
    ValEmpty();
    hide Val;
    var c: Limb := if k == 1 then b else x[k - 2] / 0x8000_0000_0000_0000;
    if k > 1 {
      ShiftedVal(x, y, b, k - 1);
    } else {
      assert y[..0] == [] && x[..0] == [];
      assert c * Radix(0) == c;
    }
    var d: int, hi: Limb := x[k - 1], x[k - 1] / 0x8000_0000_0000_0000;
    assert 2 * d + c == y[k - 1] + WORD * hi;
    ValSnoc(y, k - 1);
    ValSnoc(x, k - 1);
    hide Radix;
    RadixNext(k - 1);
    var low := Val(x[..k - 1]);
    AddDigits(Val(y[..k - 1]), y[k - 1], hi, c, low, d, low + b, d, Radix(k - 1));
  }

  /** One step of the long division: double, bring in b, subtract m once if needed. */
  method AbsorbBit(rLow: array<Limb>, rHigh: Limb, b: Limb, m: seq<Limb>, ghost top: nat) returns (rHigh': Limb)
    requires rLow.Length == |m| > 0 && b <= 1 && rHigh == 0
    modifies rLow
    ensures rHigh' == 0
    ensures Val(m) > 0 && old(Val(rLow[..])) == top % Val(m) ==> Val(rLow[..]) == (2 * top + b) % Val(m)
  {
    hide Val;
    ghost var r := Val(rLow[..]);
    var carryOut := ShiftInBit(rLow, b);
    var newHigh := (2 * rHigh) % WORD + carryOut;
    var reduced := SubtractIf(rLow[..], m, newHigh);
    CopyInto(rLow, reduced);
    if Val(m) > 0 && r == top % Val(m) {
      BringInBit(r, top, b, Val(m), Val(reduced));
    }
    rHigh' := 0;
  }

  /** src modulo m, one bit of src at a time from the top. */
  method ReduceToM(src: seq<Limb>, m: seq<Limb>) returns (dst: seq<Limb>)
    requires m != []
    ensures |dst| == |m|
    ensures Val(m) > 0 ==> Val(dst) == Val(src) % Val(m)
  {
    var rLow := new Limb[|m|](_ => 0);
    var rHigh: Limb := 0;
    ValZeros(rLow[..]);
    ghost var v := Val(src);
    RadixIsPowTwo(|src|);
    ValBound(src);
    ShrAll(v, 64 * |src|);
    ShrZero(v);
    if Val(m) > 0 { ModBelow(0, Val(m)); }
    hide *;
    for bit := |src| * 64 downto 0
      invariant rHigh == 0
      invariant Val(m) > 0 ==> Val(rLow[..]) == Shr(v, bit) % Val(m)
    {
      LimbBit(src, bit);
      ShiftStep(v, bit);
      rHigh := AbsorbBit(rLow, rHigh, BitOf(src[bit / 64], bit % 64), m, Shr(v, bit + 1));
    }
    dst := rLow[..];
  }

  lemma BringInBit(r: nat, top: nat, b: nat, m: nat, r': nat)
    requires m > 0 && b <= 1 && r == top % m
    requires 2 * r + b <= 2 * m ==> r' == if 2 * r + b >= m then 2 * r + b - m else 2 * r + b
    ensures 2 * r + b <= 2 * m && r' == (2 * top + b) % m
  {
    CongMod(top, m);
    CongScale(r, top, 2, m);
    CongAdd(2 * r, 2 * top, b, b, m);
    DivModUnique(2 * r + b, if 2 * r + b >= m then 1 else 0, r', m);
  }

  // ---- Garner recombination -------------------------------------------------------

  /** m1 - m2, with p added once when it is negative, and wrapped at r when that is not enough. */
  function WrappedDifference(m1: int, m2: int, p: int, r: int): int {
    if m2 <= m1 then m1 - m2 else if m2 - m1 <= p then p + m1 - m2 else r + p + m1 - m2
  }

  /** m1 - m2 modulo p, with p added once when the difference is negative. */
  method Difference(m1: seq<Limb>, m2: seq<Limb>, p: seq<Limb>) returns (diff: seq<Limb>)
    requires |m1| == |m2| == |p|
    ensures |diff| == |p|
    ensures Val(m1) < Val(p) ==>
            Val(diff) == WrappedDifference(Val(m1), Val(m2), Val(p), Radix(|p|))
  {
    hide Val;
    var c := Cmp(m1, m2);
    var borrow;
    if c >= 0 {
      diff, borrow := Sub(m1, m2);
    } else {
      var t;
      t, borrow := Sub(m2, m1);
      diff, borrow := Sub(p, t);
    }
  }

  /** h = x * y mod p through Montgomery form. */
  method MulMod(x: seq<Limb>, y: seq<Limb>, p: seq<Limb>) returns (h: seq<Limb>)
    requires |x| == |y| == |p| > 0
    ensures |h| == |p|
    ensures IsOdd(p) ==> Val(p) > 0 && Val(h) == (Val(x) * Val(y)) % Val(p)
  {
    hide Val;
    if IsOdd(p) { OddVal(p); }
    var pInv := ComputeNInv(p);
    var r2 := ComputeR2ModN(p);
    var xMont := MontMul(x, r2, p, pInv);
    var yMont := MontMul(y, r2, p, pInv);
    var hMont := MontMul(xMont, yMont, p, pInv);
    h := MontMul(hMont, One(|p|), p, pInv);
    if IsOdd(p) {
      MontEnter(xMont, Val(x), r2, p);
      MontEnter(yMont, Val(y), r2, p);
      MontTimes(hMont, xMont, Val(x), yMont, Val(y), p);
      MontLeave(h, hMont, Val(x) * Val(y), p);
    }
  }

  /** One row of the truncated product; its carry is added to a limb that is still zero. */
  method TruncatedRow(o: array<Limb>, i: nat, h: seq<Limb>, q: seq<Limb>)
    requires i < |h| == |q| && o.Length == 2 * |h|
    requires forall k :: i + |h| <= k < o.Length ==> o[k] == 0
    requires Val(o[..i + |h|]) == Val(h[..i]) * Val(q)
    modifies o
    ensures forall k :: i + |h| < k < o.Length ==> o[k] == 0
    ensures Val(o[..i + |h| + 1]) == Val(h[..i + 1]) * Val(q)
  {
    hide Val, Radix;
    var m := |h|;
    ghost var lo, hi := o[..i], o[i..i + m];
    assert o[..i + m] == lo + hi;
    var carry := MulAddRow(o, i, h[i], q);
    ghost var row := o[i..i + m];
    o[i + m] := (o[i + m] + carry) % WORD;
    ghost var digits: seq<Limb> := row + [carry];
    assert o[..i + m + 1] == lo + digits;
    MulStep(h, q, lo, hi, row, carry);
  }

  /** h * q in 2M limbs, row by row. */
  method MulTruncated(h: seq<Limb>, q: seq<Limb>) returns (hq: seq<Limb>)
    requires |h| == |q|
    ensures |hq| == 2 * |h|
    ensures Val(hq) == Val(h) * Val(q)
  {
    var m := |h|;
    var o := new Limb[2 * m](_ => 0);
    ValZeros(o[..m]);
    ValEmpty();
    hide Val;
    for i := 0 to m
      invariant forall k :: i + m <= k < 2 * m ==> o[k] == 0
      invariant Val(o[..i + m]) == Val(h[..i]) * Val(q)
    {
      TruncatedRow(o, i, h, q);
    }
    hq := o[..];
    assert o[..m + m] == o[..] && h[..m] == h;
  }

  /** The CRT key makes sense: odd moduli and q inverted modulo p. Either modulus may be the larger. */
  ghost predicate CrtKey(p: seq<Limb>, q: seq<Limb>, qInv: seq<Limb>) {
    IsOdd(p) && IsOdd(q) && Val(p) > 1 && Cong(Val(qInv) * Val(q), 1, Val(p))
  }

  /**
   * out is below p * q and congruent to y modulo q; it is congruent to x modulo
   * p exactly when adding p once makes the difference of the residues non-negative.
   */
  ghost predicate Recombined(out: nat, x: nat, y: nat, p: int, q: int) {
    && p > 0 && q > 0
    && out < p * q
    && Cong(out, y, q)
    && (Cong(out, x, p) <==> y % q <= x % p + p)
  }

  ghost predicate CrtResult(out: seq<Limb>, c: seq<Limb>, p: seq<Limb>, q: seq<Limb>, dp: seq<Limb>, dq: seq<Limb>) {
    var x, y := Pow(Val(c), Val(dp)), Pow(Val(c), Val(dq));
    Recombined(Val(out), x, y, Val(p), Val(q))
  }

  /** The value of the recombination of the two half-results. */
  function CrtValue(m1: int, m2: int, p: int, q: int, qInv: int, r: int): int
    requires p > 0
  {
    m2 + WrappedDifference(m1, m2, p, r) * qInv % p * q
  }

  /** What decryption of c returns. */
  ghost function CrtOutput(c: seq<Limb>, p: seq<Limb>, q: seq<Limb>, dp: seq<Limb>, dq: seq<Limb>, qInv: seq<Limb>): int
    requires CrtKey(p, q, qInv)
  {
    OddVal(q);
    CrtValue(Pow(Val(c), Val(dp)) % Val(p), Pow(Val(c), Val(dq)) % Val(q), Val(p), Val(q), Val(qInv), Radix(|p|))
  }

  /**
   * The recombination. The result is always below p * q and right modulo q. It
   * is right modulo p exactly when adding p once makes m1 - m2 non-negative,
   * which q <= p guarantees.
   */
  method RsaCrtDecrypt(c: seq<Limb>, p: seq<Limb>, q: seq<Limb>, dp: seq<Limb>, dq: seq<Limb>, qInv: seq<Limb>)
    returns (out: seq<Limb>)
    requires |p| == |q| == |dp| == |dq| == |qInv| > 0 && |c| == 2 * |p|
    ensures |out| == |c|
    ensures CrtKey(p, q, qInv) ==> Val(out) == CrtOutput(c, p, q, dp, dq, qInv) && CrtResult(out, c, p, q, dp, dq)
  {
    hide Val, Radix, Pow;
    if CrtKey(p, q, qInv) { OddVal(p); OddVal(q); }
    var cp := ReduceToM(c, p);
    var cq := ReduceToM(c, q);
    var m1 := ModExpConstTime(cp, dp, p);
    var m2 := ModExpConstTime(cq, dq, q);
    var diff := Difference(m1, m2, p);
    var h := MulMod(diff, qInv, p);
    var hq := MulTruncated(h, q);
    var m2Ext := m2 + seq(|p|, _ => 0);
    var carry;
    out, carry := Add(m2Ext, hq);
    if CrtKey(p, q, qInv) {
      ZeroExtend(m2, |p|);
      ValBound(p);
      ValBound(q);
      RadixDouble(|p|);
      RadixUnit(|p|, Val(p));
      PowResidue(Val(c), Val(dp), Val(p));
      PowResidue(Val(c), Val(dq), Val(q));
      CombineParts(Pow(Val(c), Val(dp)), Pow(Val(c), Val(dq)), Val(p), Val(q), Val(qInv),
                   Val(m1), Val(m2), Val(diff), Val(h), Val(out), carry, Radix(|p|));
    }
  }

  lemma CombineParts(x: nat, y: nat, p: int, q: int, qInv: nat, m1: nat, m2: nat, diff: nat, h: nat,
                     out: nat, carry: Limb, r: int)
    requires 0 < p < r && 0 < q < r && !Cong(r, 0, p) && Cong(qInv * q, 1, p)
    requires m1 == x % p && m2 == y % q
    requires diff == WrappedDifference(m1, m2, p, r)
    requires h == (diff * qInv) % p && out + carry * (r * r) == m2 + h * q
    ensures out == CrtValue(m1, m2, p, q, qInv, r) && Recombined(out, x, y, p, q)
  {
    NoCarry(m2, h, p, q, r, out, carry);
    Garner(m1, m2, p, q, diff, qInv, h, r);
    CongIntro(out, m2, h, q);
    CongMod(x, p);
    CongMod(y, q);
  }

  lemma RadixDouble(k: nat)
    ensures Radix(2 * k) == Radix(k) * Radix(k)
  {
    RadixIsPowTwo(k);
    RadixIsPowTwo(2 * k);
    PowAdd(2, 64 * k, 64 * k);
  }

  /** R is not divisible by an odd number above 1. */
  lemma RadixUnit(k: nat, p: int)
    requires p > 1 && p % 2 == 1
    ensures !Cong(Radix(k), 0, p)
  {
    RadixIsPowTwo(k);
    PowTwoInvertible(64 * k, p);
    if Cong(Radix(k), 0, p) {
      CongScale(Radix(k), 0, Pow(HalfMod(p), 64 * k), p);
      ModBelow(0, p);
      ModBelow(1, p);
    }
  }

  /** Reducing the base first does not change the residue of the power. */
  lemma PowResidue(c: nat, e: nat, p: int)
    requires p > 0
    ensures Pow(c % p, e) % p == Pow(c, e) % p
  {
    CongMod(c, p);
    CongPow(c % p, c, e, p);
  }

  /** m2 + h * q stays below p * q, so the last addition has no carry. */
  lemma NoCarry(m2: nat, h: nat, p: nat, q: nat, r: int, out: nat, carry: nat)
    requires m2 < q < r && h < p < r && out + carry * (r * r) == m2 + h * q
    ensures out == m2 + h * q && out < p * q
  {
    DigitLess(h, p, q);
    MulMono(p, r, q, r);
    if carry > 0 {
      MulMono(1, carry, r * r, r * r);
    }
  }

  /** Garner's formula, and what the wrapped difference does to it. */
  lemma Garner(m1: nat, m2: nat, p: nat, q: nat, diff: nat, qInv: nat, h: nat, r: int)
    requires p > 0 && m1 < p && Cong(qInv * q, 1, p) && h == (diff * qInv) % p
    requires diff == WrappedDifference(m1, m2, p, r)
    requires !Cong(r, 0, p)
    ensures Cong(m2 + h * q, m1, p) <==> m2 <= m1 + p
  {
    CongMod(diff * qInv, p);
    CongScale(h, diff * qInv, q, p);
    MulAssoc(diff, qInv, q);
    CongScale(qInv * q, 1, diff, p);
    CongAdd(m2, m2, h * q, diff, p);
    var total := m2 + h * q;
    if m2 <= m1 {
    } else if m2 - m1 <= p {
      CongIntro(m2 + diff, m1, 1, p);
    } else {
      CongIntro(m2 + diff, m1 + r, 1, p);
      if Cong(total, m1, p) {
        CongSub(m1 + r, m1, m1, m1, p);
      }
    }
  }

  lemma ZeroExtend(s: seq<Limb>, k: nat)
    ensures Val(s + seq(k, _ => 0)) == Val(s)
  {
    var z: seq<Limb> := seq(k, _ => 0);
    ValZeros(z);
    hide Val;
    ValConcat(s, z);
  }
}
