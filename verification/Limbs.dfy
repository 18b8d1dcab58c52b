/** Little-endian numbers of 64-bit limbs and the natural numbers they stand for. */
module Limbs {
  import opened Arith

  const WORD: int := 0x1_0000_0000_0000_0000

  /** One unsigned 64-bit machine word. */
  type Limb = x: int | 0 <= x < 0x1_0000_0000_0000_0000

  /** The number held by limbs, least significant limb first. */
  function Val(s: seq<Limb>): nat {
    if s == [] then 0 else s[0] + 0x1_0000_0000_0000_0000 * Val(s[1..])
  }

  /** 2^(64 k): one more than the largest number of k limbs. */
  function Radix(k: nat): (r: int) {
    if k == 0 then 1 else 0x1_0000_0000_0000_0000 * Radix(k - 1)
  }

  lemma {:induction false} RadixPos(k: nat)
    ensures Radix(k) > 0
  {
    if k > 0 {
      RadixPos(k - 1);
    }
  }

  lemma RadixNext(k: nat)
    ensures Radix(k + 1) == WORD * Radix(k)
  {
  }

  lemma {:induction false} ValSplit(s: seq<Limb>, k: nat)
    requires k <= |s|
    ensures Val(s) == Val(s[..k]) + Radix(k) * Val(s[k..])
  {
    if k == 0 {
      assert s[..0] == [] && s[0..] == s;
    } else {
      ValSplit(s[1..], k - 1);
      assert s[1..][..k - 1] == s[..k][1..];
      assert s[1..][k - 1..] == s[k..];
      MulAssoc(WORD, Radix(k - 1), Val(s[k..]));
    }
  }

  lemma ValConcat(s: seq<Limb>, t: seq<Limb>)
    ensures Val(s + t) == Val(s) + Radix(|s|) * Val(t)
  {
    ValSplit(s + t, |s|);
    assert (s + t)[..|s|] == s && (s + t)[|s|..] == t;
  }

  lemma ValEmpty()
    ensures Val([]) == 0
  {
  }

  lemma ValOne(x: Limb)
    ensures Val([x]) == x
  {
  }

  lemma ValAppend(s: seq<Limb>, x: Limb)
    ensures Val(s + [x]) == Val(s) + x * Radix(|s|)
  {
    ValConcat(s, [x]);
    ValOne(x);
  }

  lemma ValSnoc(s: seq<Limb>, k: nat)
    requires k < |s|
    ensures Val(s[..k + 1]) == Val(s[..k]) + s[k] * Radix(k)
  {
    ValAppend(s[..k], s[k]);
    assert s[..k + 1] == s[..k] + [s[k]];
  }

  lemma {:induction false} ValBound(s: seq<Limb>)
    ensures Val(s) < Radix(|s|)
  {
    if s != [] {
      ValBound(s[1..]);
    }
  }

  /** Limbs of one length are determined by the number they hold. */
  lemma {:induction false} ValInjective(s: seq<Limb>, t: seq<Limb>)
    requires |s| == |t| && Val(s) == Val(t)
    ensures s == t
  {
    if s != [] {
      ValInjective(s[1..], t[1..]);
      assert s == [s[0]] + s[1..] && t == [t[0]] + t[1..];
    }
  }

  lemma {:induction false} ValZeros(s: seq<Limb>)
    requires forall i :: 0 <= i < |s| ==> s[i] == 0
    ensures Val(s) == 0
  {
    if s != [] {
      ValZeros(s[1..]);
    }
  }

  /** The N limbs of v, the only ones with that value. */
  function ToLimbs(v: nat, n: nat): (s: seq<Limb>)
    ensures |s| == n
  {
    if n == 0 then [] else [v % WORD] + ToLimbs(v / WORD, n - 1)
  }

  lemma {:induction false} ToLimbsVal(v: nat, n: nat)
    requires v < Radix(n)
    ensures Val(ToLimbs(v, n)) == v
  {
    if n > 0 {
      ToLimbsVal(v / WORD, n - 1);
    }
  }

  /** Comparison is decided by the highest limb that differs. */
  lemma ValLess(a: seq<Limb>, b: seq<Limb>, i: nat)
    requires i < |a| == |b| && a[i] < b[i]
    requires forall k :: i < k < |a| ==> a[k] == b[k]
    ensures Val(a) < Val(b)
  {
    assert a[i + 1..] == b[i + 1..];
    ValSplit(a, i + 1);
    ValSplit(b, i + 1);
    ValSnoc(a, i);
    ValSnoc(b, i);
    ValBound(a[..i]);
    DigitLess(a[i], b[i], Radix(i));
  }

  lemma DigitLess(x: int, y: int, r: int)
    requires x < y && r > 0
    ensures x * r + r <= y * r
  {
    assert y * r - x * r == (y - x) * r;
    MulMono(1, y - x, r, r);
  }

  /** The lowest limb is the residue modulo 2^64, the rest the quotient. */
  lemma ValLow(s: seq<Limb>)
    requires s != []
    ensures Val(s) == s[0] + WORD * Val(s[1..]) && Val(s) % WORD == s[0]
  {
    DivModUnique(Val(s), Val(s[1..]), s[0], WORD);
  }

  // ---- bits -----------------------------------------------------------

  /** v shifted right by k bits. */
  function Shr(v: nat, k: nat): nat {
    PowPos(2, k);
    v / Pow(2, k)
  }

  /** Bit i of v, counted from the least significant. */
  function BitOf(v: nat, i: nat): (b: nat)
    ensures b <= 1
  {
    Shr(v, i) % 2
  }

  lemma ShrZero(v: nat)
    ensures Shr(v, 0) == v
  {
  }

  lemma ShrAll(v: nat, k: nat)
    requires v < Pow(2, k)
    ensures Shr(v, k) == 0
  {
    DivModUnique(v, 0, v, Pow(2, k));
  }

  lemma {:induction false} RadixIsPowTwo(k: nat)
    ensures Radix(k) == Pow(2, 64 * k)
  {
    if k > 0 {
      RadixIsPowTwo(k - 1);
      PowAdd(2, 64, 64 * (k - 1));
      PowTwo64();
    }
  }

  lemma PowTwo64()
    ensures Pow(2, 64) == WORD
  {
    PowAdd(2, 32, 32);
    PowAdd(2, 16, 16);
    PowAdd(2, 8, 8);
    PowAdd(2, 4, 4);
    assert Pow(2, 4) == 16;
  }

  /** Shifting right by k + 1 drops one more bit. */
  lemma ShiftStep(v: nat, k: nat)
    ensures Shr(v, k) == 2 * Shr(v, k + 1) + BitOf(v, k)
  {
    PowPos(2, k);
    PowPos(2, k + 1);
    var p := Pow(2, k);
    var q := v / p;
    assert v == q * p + v % p;
    assert Pow(2, k + 1) == 2 * p;
    var h, b := q / 2, q % 2;
    assert v == (2 * h + b) * p + v % p;
    assert (2 * h + b) * p == h * (2 * p) + b * p;
    MulMono(b, 1, p, p);
    DivModUnique(v, h, b * p + v % p, 2 * p);
  }

  /** A bit of the number is a bit of one of its limbs. */
  lemma LimbBit(s: seq<Limb>, i: nat)
    requires i < 64 * |s|
    ensures BitOf(Val(s), i) == BitOf(s[i / 64], i % 64)
  {
    var k, b := i / 64, i % 64;
    ValSplit(s, k);
    ValBound(s[..k]);
    RadixIsPowTwo(k);
    PowAdd(2, 64 * k, b);
    PowPos(2, b);
    BitBelow(Val(s[..k]), Val(s[k..]), Radix(k), Pow(2, b));
    assert s[k..][1..] == s[k + 1..];
    BitOfLow(s[k], Val(s[k + 1..]), b);
  }

  lemma BitOfLow(x: Limb, hi: nat, b: nat)
    requires b < 64
    ensures BitOf(x + WORD * hi, b) == BitOf(x, b)
  {
    PowPos(2, b);
    PowAdd(2, b, 64 - b);
    PowTwo64();
    HighPart(x, WORD, hi, Pow(2, b), Pow(2, 63 - b));
  }

  lemma HighPart(x: nat, w: int, hi: nat, p: nat, h: nat)
    requires p > 0 && p * (2 * h) == w
    ensures ((x + w * hi) / p) % 2 == (x / p) % 2
  {
    var g := h * hi;
    assert w * hi == (2 * g) * p by {
      MulAssoc(p, 2 * h, hi);
      MulAssoc(2, h, hi);
    }
    QuotientAdd(x, 2 * g, p);
  }

  lemma BitBelow(lo: nat, x: nat, r: nat, p: nat)
    requires r > 0 && p > 0 && lo < r
    ensures r * p > 0 && (lo + r * x) / (r * p) == x / p
  {
    var q, m := x / p, x % p;
    assert x == q * p + m;
    assert r * x == q * (r * p) + r * m;
    MulMono(m + 1, p, r, r);
    assert r * (m + 1) == r * m + r;
    MulMono(1, r, 1, p);
    DivModUnique(lo + r * x, q, lo + r * m, r * p);
  }

  lemma QuotientAdd(x: nat, k: nat, p: nat)
    requires p > 0
    ensures (x + k * p) / p == x / p + k
  {
    var q, m := x / p, x % p;
    assert x + k * p == (q + k) * p + m;
    DivModUnique(x + k * p, q + k, m, p);
  }
}
