/** Montgomery constants, bit scans and the two modular exponentiations. */
module ModExp {
  import opened Arith
  import opened Limbs
  import opened Bits
  import opened BigInt

  predicate IsOdd(n: seq<Limb>) {
    n != [] && n[0] % 2 == 1
  }

  lemma OddVal(n: seq<Limb>)
    requires IsOdd(n)
    ensures Val(n) > 0 && Val(n) % 2 == 1
  {
    ValLow(n);
  }

  lemma ParityOfVal(n: seq<Limb>)
    requires n != []
    ensures IsOdd(n) <==> Val(n) % 2 == 1
  {
    ValLow(n);
    hide Val;
    LowParity(Val(n), n[0], Val(n[1..]));
  }

  // ---- -n^(-1) mod 2^64 by Hensel lifting --------------------------------

  lemma CongDivisor(a: int, b: int, n: int, k: int)
    requires n > 0 && k * n > 0 && Cong(a, b, k * n)
    ensures Cong(a, b, n)
  {
    var j := CongElim(a, b, k * n);
    MulAssoc(j, k, n);
    CongIntro(a, b, j * k, n);
  }

  /** One lifting step squares the modulus for which x inverts n0. */
  lemma HenselStep(n0: int, x: int, x': int, p: int)
    requires p > 0 && p * p > 0 && Cong(n0 * x, 1, p) && Cong(x', x * (2 - n0 * x), p * p)
    ensures Cong(n0 * x', 1, p * p)
  {
    var k := CongElim(n0 * x, 1, p);
    CongScale(x', x * (2 - n0 * x), n0, p * p);
    MulAssoc(n0, x, 2 - n0 * x);
    SquareGap(k, p);
    CongIntro((1 + k * p) * (1 - k * p), 1, -(k * k), p * p);
  }

  lemma SquareGap(k: int, p: int)
    ensures (1 + k * p) * (1 - k * p) == 1 + -(k * k) * (p * p)
  {
    MulSwap(k, p, k, p);
  }

  /** The modulus reached after i lifting steps: 2, 4, 16, 256, 2^16, 2^32, 2^64. */
  function LiftModulus(i: nat): int {
    if i == 0 then 2 else LiftModulus(i - 1) * LiftModulus(i - 1)
  }

  lemma LiftModuli()
    ensures LiftModulus(1) == 4 && LiftModulus(2) == 16 && LiftModulus(3) == 256
    ensures LiftModulus(4) == 0x1_0000 && LiftModulus(5) == 0x1_0000_0000 && LiftModulus(6) == WORD
  {
    assert LiftModulus(1) == 4;
    assert LiftModulus(2) == 16;
    assert LiftModulus(3) == 256;
    assert LiftModulus(4) == 0x1_0000;
    assert LiftModulus(5) == 0x1_0000_0000;
  }

  lemma LiftDivides(i: nat) returns (k: int)
    requires i <= 6
    ensures LiftModulus(i) > 0 && k > 0 && k * LiftModulus(i) == WORD
  {
    LiftModuli();
    k := if i == 0 then 0x8000_0000_0000_0000 else
         if i == 1 then 0x4000_0000_0000_0000 else
         if i == 2 then 0x1000_0000_0000_0000 else
         if i == 3 then 0x100_0000_0000_0000 else
         if i == 4 then 0x1_0000_0000_0000 else
         if i == 5 then 0x1_0000_0000 else 1;
  }

  /** -n^(-1) modulo 2^64 for every odd n. */
  method ComputeNInv(n: seq<Limb>) returns (nInv: Limb)
    requires n != []
    ensures IsOdd(n) ==> IsNegInv(nInv, n)
  {
    var n0 := n[0];
    var x: Limb := 1;
    for i := 0 to 6
      invariant LiftModulus(i) > 0
      invariant IsOdd(n) ==> Cong(n0 * x, 1, LiftModulus(i))
    {
      var x' := (x * ((2 - (n0 * x) % WORD) % WORD)) % WORD;
      ghost var k := LiftDivides(i + 1);
      if IsOdd(n) {
        WrappedStep(n0, x, x');
        CongDivisor(x', x * (2 - n0 * x), LiftModulus(i + 1), k);
        HenselStep(n0, x, x', LiftModulus(i));
      }
      x := x';
    }
    nInv := (0 - x) % WORD;
    LiftModuli();
    if IsOdd(n) {
      NegInverse(n0, x, nInv);
    }
  }

  lemma NegInverse(n0: Limb, x: Limb, nInv: Limb)
    requires Cong(n0 * x, 1, WORD) && nInv == (0 - x) % WORD
    ensures (n0 * nInv + 1) % WORD == 0
  {
    CongMod(0 - x, WORD);
    CongScale(nInv, 0 - x, n0, WORD);
    CongAdd(n0 * nInv, n0 * (0 - x), 1, n0 * x, WORD);
    assert n0 * (0 - x) + n0 * x == 0;
  }

  lemma WrappedStep(n0: Limb, x: Limb, x': Limb)
    requires x' == (x * ((2 - (n0 * x) % WORD) % WORD)) % WORD
    ensures Cong(x', x * (2 - n0 * x), WORD)
  {
    var y := (2 - (n0 * x) % WORD) % WORD;
    CongMod(n0 * x, WORD);
    CongSub(2, 2, (n0 * x) % WORD, n0 * x, WORD);
    CongMod(2 - (n0 * x) % WORD, WORD);
    CongScale(y, 2 - n0 * x, x, WORD);
    CongMod(x * y, WORD);
  }

  // ---- bit-serial doubling modulo n ----------------------------------------

  /** One-bit left shift of an N-limb number; the carry is the bit pushed out of the top. */
  method ShiftLeftOne(x: seq<Limb>) returns (out: seq<Limb>, carry: Limb)
    ensures |out| == |x| && carry <= 1
    ensures Val(out) + carry * Radix(|x|) == 2 * Val(x)
  {
    var o := new Limb[|x|](_ => 0);
    carry := 0;
    ValEmpty();
    hide Val;
    for i := 0 to |x|
      invariant carry <= 1
      invariant Val(o[..i]) + carry * Radix(i) == 2 * Val(x[..i])
    {
      ghost var below, c := o[..i], carry;
      var hi := x[i] / 0x8000_0000_0000_0000;
      o[i] := (2 * x[i]) % WORD + carry;
      carry := hi;
      assert o[..i + 1] == below + [o[i]];
      ShiftStepUp(x, below, c, o[i], carry);
    }
    out := o[..];
    assert o[..|x|] == o[..] && x[..|x|] == x;
  }

  lemma ShiftStepUp(x: seq<Limb>, below: seq<Limb>, c: Limb, lo: Limb, y: Limb)
    requires |below| < |x| && Val(below) + c * Radix(|below|) == 2 * Val(x[..|below|])
    requires 2 * x[|below|] + c == lo + WORD * y
    ensures Val(below + [lo]) + y * Radix(|below| + 1) == 2 * Val(x[..|below| + 1])
  {
    hide Val;
    var i := |below|;
    var d: int := x[i];
    ValAppend(below, lo);
    ValSnoc(x, i);
    AddDigits(Val(below), lo, y, c, Val(x[..i]), d, Val(x[..i]), d, Radix(i));
  }

  /** Subtract n when the carry or the comparison says the value is not below n. */
  method SubtractIf(x: seq<Limb>, n: seq<Limb>, carry: Limb) returns (out: seq<Limb>)
    requires |x| == |n| && carry <= 1
    ensures |out| == |n|
    ensures var v := Val(x) + carry * Radix(|n|);
            v <= 2 * Val(n) ==> Val(out) == if v >= Val(n) then v - Val(n) else v
  {
    hide Val;
    out := x;
    var c := Cmp(out, n);
    ValBound(n);
    if carry != 0 || c >= 0 {
      var t, borrow := Sub(out, n);
      out := t;
      ValBound(out);
      ValBound(x);
    }
  }

  /** One step of the bit-serial reduction: x becomes 2x mod n. */
  method DoubleMod(x: seq<Limb>, n: seq<Limb>) returns (out: seq<Limb>)
    requires |x| == |n|
    ensures |out| == |n|
    ensures 0 < Val(n) && Val(x) <= Val(n) ==> Val(out) == (2 * Val(x)) % Val(n)
  {
    hide Val;
    var doubled, carry := ShiftLeftOne(x);
    out := SubtractIf(doubled, n, carry);
    out := SubtractIf(out, n, 0);
    if 0 < Val(n) && Val(x) <= Val(n) {
      var v, m := 2 * Val(x), Val(n);
      DivModUnique(v, if v < m then 0 else if v - m < m then 1 else 2, Val(out), m);
    }
  }

  /** The number 1 in n limbs. */
  function One(n: nat): (s: seq<Limb>)
    requires n > 0
    ensures |s| == n && Val(s) == 1
  {
    var zeros: seq<Limb> := seq(n - 1, _ => 0);
    ValZeros(zeros);
    assert ([1] + zeros)[1..] == zeros;
    [1] + zeros
  }

  /** 2^steps mod n, by doubling 1 modulo n. */
  method PowTwoMod(steps: nat, n: seq<Limb>) returns (out: seq<Limb>)
    requires n != [] && steps > 0
    ensures |out| == |n|
    ensures Val(n) > 0 ==> Val(out) == Pow(2, steps) % Val(n)
  {
    hide Val;
    out := One(|n|);
    for step := 0 to steps
      invariant |out| == |n|
      invariant Val(n) > 0 ==> Val(out) <= Val(n) && Cong(Val(out), Pow(2, step), Val(n))
      invariant Val(n) > 0 && step > 0 ==> Val(out) < Val(n)
    {
      ghost var x := Val(out);
      out := DoubleMod(out, n);
      if Val(n) > 0 {
        CongMod(2 * x, Val(n));
        CongScale(x, Pow(2, step), 2, Val(n));
      }
    }
    if Val(n) > 0 {
      ModBelow(Val(out), Val(n));
    }
  }

  /** R mod n, where R = 2^(64 N). */
  method ComputeRModN(n: seq<Limb>) returns (out: seq<Limb>)
    requires n != []
    ensures |out| == |n|
    ensures Val(n) > 0 ==> Val(out) == Radix(|n|) % Val(n)
  {
    out := PowTwoMod(|n| * 64, n);
    RadixIsPowTwo(|n|);
  }

  /** R^2 mod n, the factor that carries a number into Montgomery form. */
  method ComputeR2ModN(n: seq<Limb>) returns (out: seq<Limb>)
    requires n != []
    ensures |out| == |n|
    ensures Val(n) > 0 ==> Val(out) == (Radix(|n|) * Radix(|n|)) % Val(n)
  {
    out := PowTwoMod(2 * |n| * 64, n);
    RadixIsPowTwo(|n|);
    PowAdd(2, 64 * |n|, 64 * |n|);
  }

  // ---- scanning the exponent -------------------------------------------------

  /** The number of significant bits. */
  function BitLength(v: nat): nat {
    if v == 0 then 0 else 1 + BitLength(v / 2)
  }

  lemma {:induction false} BitLengthIs(v: nat, k: nat)
    requires Pow(2, k) <= v < Pow(2, k + 1)
    ensures BitLength(v) == k + 1
  {
    if k > 0 {
      BitLengthIs(v / 2, k - 1);
    } else {
      assert Pow(2, 1) == 2;
    }
  }

  lemma {:induction false} BitLengthBound(v: nat)
    ensures v < Pow(2, BitLength(v))
  {
    if v > 0 {
      BitLengthBound(v / 2);
    }
  }

  lemma {:induction false} BitLengthMax(v: nat, k: nat)
    requires v < Pow(2, k)
    ensures BitLength(v) <= k
  {
    if v > 0 {
      BitLengthMax(v / 2, k - 1);
    }
  }

  /** The position above the most significant set bit; 0 for zero. */
  method BitLen(e: seq<Limb>) returns (r: nat)
    ensures r == BitLength(Val(e))
    ensures r <= 64 * |e|
  {
    var i := |e| - 1;
    hide Val;
    while i >= 0
      invariant -1 <= i < |e|
      invariant forall k :: i < k < |e| ==> e[k] == 0
    {
      if e[i] != 0 {
        var b := 63;
        PowTwo64();
        while b >= 0
          invariant -1 <= b < 64
          invariant e[i] < Pow(2, b + 1)
        {
          if BitOf(e[i], b) == 1 {
            TopBit(e, i, b);
            return i * 64 + b + 1;
          }
          ShiftStep(e[i], b);
          BelowBit(e[i], b);
          b := b - 1;
        }
      }
      i := i - 1;
    }
    ValZeros(e);
    return 0;
  }

  lemma BelowBit(x: nat, b: nat)
    requires x < Pow(2, b + 1)
    ensures BitOf(x, b) == 0 ==> x < Pow(2, b)
    ensures BitOf(x, b) == 1 ==> x >= Pow(2, b)
  {
    PowPos(2, b);
    var p := Pow(2, b);
    if x < p {
      DivModUnique(x, 0, x, p);
    } else {
      DivModUnique(x, 1, x - p, p);
    }
  }

  lemma TopBit(e: seq<Limb>, i: nat, b: nat)
    requires i < |e| && b < 64 && (forall k :: i < k < |e| ==> e[k] == 0)
    requires e[i] < Pow(2, b + 1) && BitOf(e[i], b) == 1
    ensures BitLength(Val(e)) == i * 64 + b + 1
  {
    hide Val;
    hide Radix;
    TopLimb(e, i);
    BelowBit(e[i], b);
    RadixIsPowTwo(i);
    PowAdd(2, b, 64 * i);
    PowAdd(2, b + 1, 64 * i);
    hide Pow;
    LimbScale(Val(e[..i]), e[i], Pow(2, b), Pow(2, b + 1), Radix(i));
    assert b + 64 * i == i * 64 + b;
    BitLengthIs(Val(e), i * 64 + b);
  }

  lemma TopLimb(e: seq<Limb>, i: nat)
    requires i < |e| && (forall k :: i < k < |e| ==> e[k] == 0)
    ensures Val(e) == Val(e[..i]) + e[i] * Radix(i) && Val(e[..i]) < Radix(i)
  {
    hide Val;
    ValSplit(e, i + 1);
    ValZeros(e[i + 1..]);
    ValSnoc(e, i);
    ValBound(e[..i]);
  }

  lemma LimbScale(lo: nat, x: nat, p: int, p': int, r: int)
    requires lo < r && 0 <= p <= x < p'
    ensures p * r <= lo + x * r < p' * r
  {
    MulMono(p, x, r, r);
    DigitLess(x, p', r);
  }

  // ---- Montgomery form ---------------------------------------------------------

  /** x is the reduced Montgomery form v * R mod n of v. */
  ghost predicate Mont(x: seq<Limb>, v: int, n: seq<Limb>) {
    |x| == |n| && Val(x) < Val(n) && Cong(Val(x), v * Radix(|n|), Val(n))
  }

  /** What MontMul promises about its result for an odd modulus and b <= n. */
  ghost predicate IsMontProduct(z: seq<Limb>, x: int, y: int, n: seq<Limb>) {
    |z| == |n| && Val(z) < Val(n) && Cong(Val(z) * Radix(|n|), x * y, Val(n))
  }

  /** R can be cancelled modulo an odd number. */
  lemma RadixCancel(a: int, b: int, k: nat, n: int)
    requires n > 0 && n % 2 == 1 && Cong(a * Radix(k), b * Radix(k), n)
    ensures Cong(a, b, n)
  {
    RadixIsPowTwo(k);
    PowTwoInvertible(64 * k, n);
    CongCancel(a, b, Radix(k), Pow(HalfMod(n), 64 * k), n);
  }

  lemma MontTimes(z: seq<Limb>, x: seq<Limb>, v: int, y: seq<Limb>, w: int, n: seq<Limb>)
    requires IsOdd(n) && Mont(x, v, n) && Mont(y, w, n) && IsMontProduct(z, Val(x), Val(y), n)
    ensures Mont(z, v * w, n)
  {
    OddVal(n);
    hide Val;
    var r := Radix(|n|);
    CongMul(Val(x), v * r, Val(y), w * r, Val(n));
    MulSwap(v, r, w, r);
    MulAssoc(v * w, r, r);
    RadixCancel(Val(z), (v * w) * r, |n|, Val(n));
  }

  lemma MontEnter(z: seq<Limb>, v: nat, r2: seq<Limb>, n: seq<Limb>)
    requires IsOdd(n) && Val(n) > 0 && IsMontProduct(z, v, Val(r2), n)
    requires Val(r2) == (Radix(|n|) * Radix(|n|)) % Val(n)
    ensures Mont(z, v, n)
  {
    OddVal(n);
    hide Val;
    var r := Radix(|n|);
    CongMod(r * r, Val(n));
    CongScale(Val(r2), r * r, v, Val(n));
    MulAssoc(v, r, r);
    RadixCancel(Val(z), v * r, |n|, Val(n));
  }

  lemma MontLeave(z: seq<Limb>, x: seq<Limb>, v: int, n: seq<Limb>)
    requires IsOdd(n) && Val(n) > 0 && Mont(x, v, n) && IsMontProduct(z, Val(x), 1, n)
    ensures Val(z) == v % Val(n)
  {
    OddVal(n);
    hide Val;
    RadixCancel(Val(z), v, |n|, Val(n));
    ModBelow(Val(z), Val(n));
  }

  /** R mod n is the Montgomery form of 1. */
  lemma MontUnit(r: seq<Limb>, n: seq<Limb>)
    requires |r| == |n| && Val(n) > 0 && Val(r) == Radix(|n|) % Val(n)
    ensures Mont(r, 1, n)
  {
    hide Val;
    CongMod(Radix(|n|), Val(n));
  }

  // ---- exponentiation --------------------------------------------------------------

  /** m to the power of the bits of e from position k up. */
  function PowTop(m: int, e: nat, k: nat): int {
    Pow(m, Shr(e, k))
  }

  lemma PowTopStep(m: int, e: nat, k: nat)
    ensures PowTop(m, e, k) == PowTop(m, e, k + 1) * PowTop(m, e, k + 1) * Pow(m, BitOf(e, k))
  {
    ShiftStep(e, k);
    var h := Shr(e, k + 1);
    PowAdd(m, h, h);
    PowAdd(m, 2 * h, BitOf(e, k));
  }

  lemma PowTopStart(m: int, e: nat, k: nat)
    requires e < Pow(2, k)
    ensures PowTop(m, e, k) == 1
  {
    ShrAll(e, k);
  }

  lemma PowTopEnd(m: int, e: nat)
    ensures PowTop(m, e, 0) == Pow(m, e)
  {
    ShrZero(e);
  }

  lemma PowBit(m: int, b: nat)
    requires b <= 1
    ensures Pow(m, b) == if b == 1 then m else 1
  {
    assert Pow(m, 0) == 1;
  }

  /** The bit test of a U<N>. */
  function Bit(e: seq<Limb>, i: nat): (b: bool)
  {
    i < 64 * |e| && BitOf(e[i / 64], i % 64) == 1
  }

  /** out = m^e mod n for odd n, by square and multiply from the top bit of e down. */
  method ModExp(m: seq<Limb>, e: seq<Limb>, n: seq<Limb>) returns (out: seq<Limb>)
    requires |m| == |e| == |n| > 0
    ensures |out| == |n|
    ensures IsOdd(n) ==> Val(n) > 0 && Val(out) == Pow(Val(m), Val(e)) % Val(n)
  {
    hide Val;
    if IsOdd(n) { OddVal(n); }
    var nInv := ComputeNInv(n);
    var r2 := ComputeR2ModN(n);
    var mMont := MontMul(m, r2, n, nInv);
    var rMont := ComputeRModN(n);
    var blen := BitLen(e);
    ghost var vm, ve := Val(m), Val(e);
    if IsOdd(n) {
      MontEnter(mMont, vm, r2, n);
      MontUnit(rMont, n);
      BitLengthBound(ve);
      PowTopStart(vm, ve, blen);
    }
    for i := blen downto 0
      invariant |rMont| == |n|
      invariant IsOdd(n) ==> Mont(rMont, PowTop(vm, ve, i), n)
    {
      var sq := MontMul(rMont, rMont, n, nInv);
      if IsOdd(n) {
        MontTimes(sq, rMont, PowTop(vm, ve, i + 1), rMont, PowTop(vm, ve, i + 1), n);
        PowTopStep(vm, ve, i);
        LimbBit(e, i);
        PowBit(vm, BitOf(ve, i));
      }
      ghost var half := rMont;
      rMont := sq;
      if Bit(e, i) {
        var mu := MontMul(rMont, mMont, n, nInv);
        if IsOdd(n) {
          MontTimes(mu, rMont, PowTop(vm, ve, i + 1) * PowTop(vm, ve, i + 1), mMont, vm, n);
        }
        rMont := mu;
      }
    }
    out := MontMul(rMont, One(|n|), n, nInv);
    if IsOdd(n) {
      PowTopEnd(vm, ve);
      MontLeave(out, rMont, Pow(vm, ve), n);
    }
  }

  method CopyInto(dst: array<Limb>, src: seq<Limb>)
    requires dst.Length == |src|
    modifies dst
    ensures dst[..] == src
  {
    for i := 0 to |src|
      invariant dst[..i] == src[..i]
    {
      dst[i] := src[i];
    }
  }

  /**
   * out = m^e mod n for odd n by the Joye-Yen ladder: every bit of e costs one
   * product and one square between two masked swaps. After the bits from i up,
   * r0 and r1 are the Montgomery forms of m^k and m^(k+1), k being those bits.
   */
  method ModExpConstTime(m: seq<Limb>, e: seq<Limb>, n: seq<Limb>) returns (out: seq<Limb>)
    requires |m| == |e| == |n| > 0
    ensures |out| == |n|
    ensures IsOdd(n) ==> Val(n) > 0 && Val(out) == Pow(Val(m), Val(e)) % Val(n)
  {
    hide Val;
    if IsOdd(n) { OddVal(n); }
    var nInv := ComputeNInv(n);
    var r2 := ComputeR2ModN(n);
    var mMont := MontMul(m, r2, n, nInv);
    var unit := ComputeRModN(n);
    var r0, r1 := new Limb[|n|], new Limb[|n|];
    CopyInto(r0, unit);
    CopyInto(r1, mMont);
    ghost var vm, ve := Val(m), Val(e);
    if IsOdd(n) {
      MontEnter(mMont, vm, r2, n);
      MontUnit(unit, n);
      ValBound(e);
      RadixIsPowTwo(|e|);
      PowTopStart(vm, ve, 64 * |n|);
    }
    for i := |n| * 64 downto 0
      invariant IsOdd(n) ==> Mont(r0[..], PowTop(vm, ve, i), n)
      invariant IsOdd(n) ==> Mont(r1[..], PowTop(vm, ve, i) * vm, n)
    {
      ghost var x := PowTop(vm, ve, i + 1);
      var bit := BitOf(e[i / 64], i % 64);
      ConstTimeSwap(r0, r1, bit);
      var prod := MontMul(r0[..], r1[..], n, nInv);
      var sq := MontMul(r0[..], r0[..], n, nInv);
      if IsOdd(n) {
        LadderStep(prod, sq, r0[..], r1[..], x, vm, bit, n);
        PowTopStep(vm, ve, i);
        LimbBit(e, i);
        PowBit(vm, bit);
      }
      CopyInto(r1, prod);
      CopyInto(r0, sq);
      ConstTimeSwap(r0, r1, bit);
    }
    out := MontMul(r0[..], One(|n|), n, nInv);
    if IsOdd(n) {
      PowTopEnd(vm, ve);
      MontLeave(out, r0[..], Pow(vm, ve), n);
    }
  }

  /** Both products of a ladder step, between the swaps. */
  lemma LadderStep(prod: seq<Limb>, sq: seq<Limb>, r0: seq<Limb>, r1: seq<Limb>, x: int, m: int, bit: Limb, n: seq<Limb>)
    requires IsOdd(n) && bit <= 1
    requires Mont(r0, if bit == 1 then x * m else x, n) && Mont(r1, if bit == 1 then x else x * m, n)
    requires IsMontProduct(prod, Val(r0), Val(r1), n) && IsMontProduct(sq, Val(r0), Val(r0), n)
    ensures Mont(prod, x * x * m, n)
    ensures Mont(sq, if bit == 1 then x * x * m * m else x * x, n)
  {
    MulAssoc(x, x, m);
    MulSwap(x, x, m, m);
    MulAssoc(x * x, m, m);
    MulSwap2(x, m, x);
    hide Val;
    hide Mont;
    if bit == 1 {
      MontTimes(prod, r0, x * m, r1, x, n);
      MontTimes(sq, r0, x * m, r0, x * m, n);
    } else {
      MontTimes(prod, r0, x, r1, x * m, n);
      MontTimes(sq, r0, x, r0, x, n);
    }
  }
}
