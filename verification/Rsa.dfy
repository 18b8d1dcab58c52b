/** What the exponentiations and the CRT recombination mean for RSA keys. */
module Rsa {
  import opened Arith
  import opened Limbs
  import opened ModExp
  import opened Fermat
  import opened Crt

  lemma DistinctPrimesInvert(p: int, q: int) returns (v: int)
    requires IsPrime(p) && IsPrime(q) && p != q
    ensures Cong(v * q, 1, p)
  {
    var k := q % p;
    if q < p {
      ModBelow(q, p);
    }
    v := Inverse(k, p);
    CongMod(q, p);
    CongScale(k, q, v, p);
  }

  /** Congruence modulo two distinct primes is congruence modulo their product. */
  lemma CombinePrimes(a: int, b: int, p: int, q: int)
    requires IsPrime(p) && IsPrime(q) && p != q && p * q > 0
    ensures Cong(a, b, p * q) <==> Cong(a, b, p) && Cong(a, b, q)
  {
    if Cong(a, b, p) && Cong(a, b, q) {
      var v := DistinctPrimesInvert(p, q);
      var k := CongElim(a, b, q);
      CongSub(a, b, b, b, p);
      CongCancel(k, 0, q, v, p);
      assert q * v == v * q;
      var l := CongElim(k, 0, p);
      MulAssoc(l, p, q);
      CongIntro(a, b, l, p * q);
    }
    if Cong(a, b, p * q) {
      CongDivisor(a, b, q, p);
      assert q * p == p * q;
      CongDivisor(a, b, p, q);
    }
  }

  /** dp and dq stand for d: they agree with it modulo p - 1 and q - 1 and vanish with it where that matters. */
  ghost predicate ReducedExponents(c: nat, d: nat, dp: nat, dq: nat, p: int, q: int) {
    && IsPrime(p) && IsPrime(q)
    && Cong(d, dp, p - 1) && Cong(d, dq, q - 1)
    && SameVanishing(c, d, dp, p) && SameVanishing(c, d, dq, q)
  }

  /**
   * The recombined value is c^d mod p*q exactly when the residue modulo q does
   * not exceed the one modulo p by more than p.
   */
  lemma RecombinedIsPower(out: nat, c: nat, d: nat, dp: nat, dq: nat, p: int, q: int)
    requires ReducedExponents(c, d, dp, dq, p, q) && p != q
    requires Recombined(out, Pow(c, dp), Pow(c, dq), p, q)
    ensures p * q > 0
    ensures out == Pow(c, d) % (p * q) <==> Pow(c, dq) % q <= Pow(c, dp) % p + p
  {
    MulMono(1, p, 1, q);
    var n, v := p * q, Pow(c, d);
    ExponentReduction(c, d, dp, p);
    ExponentReduction(c, d, dq, q);
    CombinePrimes(out, v, p, q);
    ModBelow(out, n);
  }

  /** out is c^d mod n. */
  ghost predicate IsModPower(out: nat, c: nat, d: nat, n: int) {
    n > 0 && out == Pow(c, d) % n
  }

  lemma SmallerSecondPrime(out: nat, c: nat, d: nat, dp: nat, dq: nat, p: int, q: int)
    requires ReducedExponents(c, d, dp, dq, p, q) && q < p
    requires Recombined(out, Pow(c, dp), Pow(c, dq), p, q)
    ensures IsModPower(out, c, d, p * q)
  {
    RecombinedIsPower(out, c, d, dp, dq, p, q);
    CongMod(Pow(c, dp), p);
    CongMod(Pow(c, dq), q);
  }

  /** Decryption through the CRT is exponentiation modulo p * q, for every key with q < p. */
  lemma CrtDecrypts(out: seq<Limb>, c: seq<Limb>, d: nat, p: seq<Limb>, q: seq<Limb>, dp: seq<Limb>, dq: seq<Limb>)
    requires CrtResult(out, c, p, q, dp, dq)
    requires ReducedExponents(Val(c), d, Val(dp), Val(dq), Val(p), Val(q)) && Val(q) < Val(p)
    ensures IsModPower(Val(out), Val(c), d, Val(p) * Val(q))
  {
    hide Val, Radix, Pow, Recombined, ReducedExponents, IsModPower;
    SmallerSecondPrime(Val(out), Val(c), d, Val(dp), Val(dq), Val(p), Val(q));
  }

  // ---- keys that decrypt everything ---------------------------------------------------------

  /** A private key: two distinct odd primes, q's inverse modulo p, and the halves of an exponent d that undoes e. */
  ghost predicate PrivateKey(p: seq<Limb>, q: seq<Limb>, dp: seq<Limb>, dq: seq<Limb>, qInv: seq<Limb>, e: nat, d: nat) {
    && |p| == |q| == |dp| == |dq| == |qInv| > 0
    && CrtKey(p, q, qInv) && IsPrime(Val(p)) && IsPrime(Val(q)) && Val(p) != Val(q)
    && Exponents(Val(dp), e, d, Val(p)) && Exponents(Val(dq), e, d, Val(q))
  }

  /** dp is d modulo p - 1, and d undoes e there. */
  ghost predicate Exponents(dp: nat, e: nat, d: nat, p: int) {
    p > 1 && Cong(d, dp, p - 1) && Cong(e * d, 1, p - 1)
  }

  lemma EvenTimes(k: int, x: int)
    requires x % 2 == 0
    ensures k * x % 2 == 0
  {
    assert x == 2 * (x / 2);
    MulAssoc(k, 2, x / 2);
    assert k * x == 2 * (k * (x / 2));
  }

  /** Modulo an even number, parity is kept. */
  lemma SameParity(a: int, b: int, n: int)
    requires n > 0 && n % 2 == 0 && Cong(a, b, n)
    ensures a % 2 == b % 2
  {
    var k := CongElim(a, b, n);
    EvenTimes(k, n);
  }

  /** The exponents of an odd prime are odd, so they vanish for no base. */
  lemma ExponentsOdd(c: nat, dp: nat, e: nat, d: nat, p: int)
    requires Exponents(dp, e, d, p) && p % 2 == 1
    ensures d % 2 == 1 && dp % 2 == 1 && SameVanishing(c, d, dp, p)
  {
    SameParity(e * d, 1, p - 1);
    SameParity(d, dp, p - 1);
    hide Cong;
    if d % 2 == 0 {
      EvenTimes(e, d);
    }
  }

  lemma OddPrimes(p: seq<Limb>, q: seq<Limb>, qInv: seq<Limb>)
    requires CrtKey(p, q, qInv)
    ensures Val(p) % 2 == 1 && Val(q) % 2 == 1 && Val(p) > 0 && Val(q) > 0
  {
    OddVal(p);
    OddVal(q);
  }

  lemma KeyExponents(c: nat, p: seq<Limb>, q: seq<Limb>, dp: seq<Limb>, dq: seq<Limb>, qInv: seq<Limb>, e: nat, d: nat)
    requires PrivateKey(p, q, dp, dq, qInv, e, d)
    ensures Val(p) > 0 && Val(q) > 0 && Val(p) % 2 == 1 && Val(q) % 2 == 1 && Val(dp) > 0 && Val(dq) % 2 == 1
    ensures ReducedExponents(c, d, Val(dp), Val(dq), Val(p), Val(q))
  {
    hide CrtKey, IsPrime, Cong, SameVanishing, Val;
    OddPrimes(p, q, qInv);
    ExponentsOdd(c, Val(dp), e, d, Val(p));
    ExponentsOdd(c, Val(dq), e, d, Val(q));
  }

  /** Decrypting c under the key gives c^d modulo p * q. */
  ghost predicate Decrypts(c: seq<Limb>, p: seq<Limb>, q: seq<Limb>, dp: seq<Limb>, dq: seq<Limb>, qInv: seq<Limb>, d: nat)
    requires CrtKey(p, q, qInv)
  {
    Val(p) * Val(q) > 0 && CrtOutput(c, p, q, dp, dq, qInv) == Pow(Val(c), d) % (Val(p) * Val(q))
  }

  /** What decryption returns is a recombination of the two half-results. */
  lemma OutputRecombines(c: seq<Limb>, p: seq<Limb>, q: seq<Limb>, dp: seq<Limb>, dq: seq<Limb>, qInv: seq<Limb>)
    requires CrtKey(p, q, qInv) && |p| == |q|
    ensures CrtOutput(c, p, q, dp, dq, qInv) >= 0
    ensures Recombined(CrtOutput(c, p, q, dp, dq, qInv), Pow(Val(c), Val(dp)), Pow(Val(c), Val(dq)), Val(p), Val(q))
  {
    OddVal(p);
    OddVal(q);
    ValBound(p);
    ValBound(q);
    RadixUnit(|p|, Val(p));
    hide Val, Radix, Pow;
    var x, y, r := Pow(Val(c), Val(dp)), Pow(Val(c), Val(dq)), Radix(|p|);
    var m1, m2 := x % Val(p), y % Val(q);
    var h := WrappedDifference(m1, m2, Val(p), r) * Val(qInv) % Val(p);
    MulMono(0, h, 0, Val(q));
    CombineParts(x, y, Val(p), Val(q), Val(qInv), m1, m2, WrappedDifference(m1, m2, Val(p), r), h, m2 + h * Val(q), 0, r);
  }

  /** One ciphertext is decrypted correctly exactly when adding p once suffices for it. */
  lemma DecryptsIff(c: seq<Limb>, p: seq<Limb>, q: seq<Limb>, dp: seq<Limb>, dq: seq<Limb>, qInv: seq<Limb>, e: nat, d: nat)
    requires PrivateKey(p, q, dp, dq, qInv, e, d)
    ensures Val(p) > 0 && Val(q) > 0
    ensures Decrypts(c, p, q, dp, dq, qInv, d)
       <==> Pow(Val(c), Val(dq)) % Val(q) <= Pow(Val(c), Val(dp)) % Val(p) + Val(p)
  {
    KeyExponents(Val(c), p, q, dp, dq, qInv, e, d);
    OutputRecombines(c, p, q, dp, dq, qInv);
    hide Val, Pow, Recombined, ReducedExponents, CrtOutput, CrtKey, Exponents;
    RecombinedIsPower(CrtOutput(c, p, q, dp, dq, qInv), Val(c), d, Val(dp), Val(dq), Val(p), Val(q));
  }

  lemma {:induction false} PowMinusOne(e: nat)
    ensures Pow(-1, e) == if e % 2 == 0 then 1 else -1
  {
    if e > 0 {
      PowMinusOne(e - 1);
    }
  }

  /** With q > p + 1, the multiple of p that is -1 modulo q has half-results 0 and q - 1, too far apart. */
  lemma WrongForSome(dp: nat, dq: nat, p: int, q: int) returns (c: nat)
    requires IsPrime(p) && IsPrime(q) && q > p + 1 && dp > 0 && dq % 2 == 1
    ensures c < p * q && Pow(c, dq) % q > Pow(c, dp) % p + p
  {
    var v := DistinctPrimesInvert(q, p);
    var w := (-v) % q;
    c := p * w;
    DigitLess(w, q, p);
    assert w * p == c && q * p == p * q;
    CongMod(-v, q);
    CongScale(w, -v, p, q);
    CongScale(v * p, 1, -1, q);
    assert -v * p == v * p * -1;
    CongPow(c, -1, dq, q);
    PowMinusOne(dq);
    CongIntro(-1, q - 1, -1, q);
    ModBelow(q - 1, q);
    CongIntro(c, 0, w, p);
    CongPow(c, 0, dp, p);
    PowZero(dp);
    ModBelow(0, p);
  }

  /** A number below p * q fits the operand width. */
  lemma FitsWidth(c: nat, p: seq<Limb>, q: seq<Limb>)
    requires |p| == |q| && c < Val(p) * Val(q)
    ensures Val(ToLimbs(c, 2 * |p|)) == c
  {
    ValBound(p);
    ValBound(q);
    RadixDouble(|p|);
    hide Val, Radix;
    MulMono(Val(p), Radix(|p|), Val(q), Radix(|p|));
    ToLimbsVal(c, 2 * |p|);
  }

  lemma SmallerDecrypts(c: seq<Limb>, p: seq<Limb>, q: seq<Limb>, dp: seq<Limb>, dq: seq<Limb>, qInv: seq<Limb>, e: nat, d: nat)
    requires PrivateKey(p, q, dp, dq, qInv, e, d) && Val(q) < Val(p)
    ensures Decrypts(c, p, q, dp, dq, qInv, d)
  {
    DecryptsIff(c, p, q, dp, dq, qInv, e, d);
    hide Val, Pow, Decrypts, PrivateKey;
    CongMod(Pow(Val(c), Val(dp)), Val(p));
    CongMod(Pow(Val(c), Val(dq)), Val(q));
  }

  lemma LargerFails(p: seq<Limb>, q: seq<Limb>, dp: seq<Limb>, dq: seq<Limb>, qInv: seq<Limb>, e: nat, d: nat) returns (c: seq<Limb>)
    requires PrivateKey(p, q, dp, dq, qInv, e, d) && Val(q) >= Val(p)
    ensures |c| == 2 * |p| && Val(c) < Val(p) * Val(q) && !Decrypts(c, p, q, dp, dq, qInv, d)
  {
    KeyExponents(0, p, q, dp, dq, qInv, e, d);
    OddGap(Val(p), Val(q));
    hide Val, Pow, Decrypts, CrtKey, Exponents, ReducedExponents, IsPrime, Cong;
    var v := WrongForSome(Val(dp), Val(dq), Val(p), Val(q));
    FitsWidth(v, p, q);
    c := ToLimbs(v, 2 * |p|);
    hide PrivateKey;
    DecryptsIff(c, p, q, dp, dq, qInv, e, d);
  }

  lemma OddGap(p: int, q: int)
    requires p % 2 == 1 && q % 2 == 1 && p < q
    ensures q > p + 1
  {
  }

  /** A private key decrypts every ciphertext of its width correctly exactly when its second prime is the smaller one. */
  lemma KeyDecryptsIff(p: seq<Limb>, q: seq<Limb>, dp: seq<Limb>, dq: seq<Limb>, qInv: seq<Limb>, e: nat, d: nat)
    requires PrivateKey(p, q, dp, dq, qInv, e, d)
    ensures (forall c: seq<Limb> :: |c| == 2 * |p| ==> Decrypts(c, p, q, dp, dq, qInv, d)) <==> Val(q) < Val(p)
  {
    hide Val, Decrypts, CrtKey, Exponents;
    if Val(q) < Val(p) {
      forall c: seq<Limb> | |c| == 2 * |p|
        ensures Decrypts(c, p, q, dp, dq, qInv, d)
      {
        SmallerDecrypts(c, p, q, dp, dq, qInv, e, d);
      }
    } else {
      var c := LargerFails(p, q, dp, dq, qInv, e, d);
    }
  }

  /**
   * A valid key with the larger prime as q, p = 3 and q = 11 with e = 3 and d = 7, that decrypts c = 10 to 32
   * instead of 10.
   */
  lemma OrderOfPrimesMatters()
    ensures PrivateKey([3], [11], [1], [7], [2], 3, 7)
    ensures CrtOutput([10, 0], [3], [11], [1], [7], [2]) == 32
    ensures Pow(10, 7) % (3 * 11) == 10 && !Decrypts([10, 0], [3], [11], [1], [7], [2], 7)
  {
    SmallKey();
    SmallOperands();
    SmallPowers();
    SmallResult();
    hide Val, Pow, PrivateKey, CrtKey, CrtValue, Radix;
  }

  lemma SmallOperands()
    ensures Val([10, 0]) == 10 && Val([3]) == 3 && Val([11]) == 11 && Val([1]) == 1 && Val([7]) == 7 && Val([2]) == 2
    ensures Radix(1) == WORD
  {
    assert [10, 0][..1] == [10] && [10, 0][1..] == [0];
    ValSplit([10, 0], 1);
    ValOne(10);
    ValOne(0);
    ValOne(3);
    ValOne(11);
    ValOne(1);
    ValOne(7);
    ValOne(2);
    assert Radix(1) == WORD * Radix(0);
  }

  lemma SmallPowers()
    ensures Pow(10, 1) == 10 && Pow(10, 7) == 10000000
  {
    assert Pow(10, 1) == 10 * Pow(10, 0);
    assert Pow(10, 2) == 10 * Pow(10, 1);
    assert Pow(10, 3) == 10 * Pow(10, 2);
    assert Pow(10, 4) == 10 * Pow(10, 3);
    assert Pow(10, 5) == 10 * Pow(10, 4);
    assert Pow(10, 6) == 10 * Pow(10, 5);
  }

  lemma SmallResult()
    ensures CrtValue(1, 10, 3, 11, 2, WORD) == 32
  {
  }

  lemma SmallKey()
    ensures PrivateKey([3], [11], [1], [7], [2], 3, 7)
  {
    SmallOperands();
    hide Val;
    assert IsPrime(3) && IsPrime(11);
  }

  /** Encrypting and then decrypting returns the message, for every message below the modulus. */
  lemma RsaRoundTrip(m: nat, e: nat, d: nat, p: int, q: int)
    requires IsPrime(p) && IsPrime(q) && p != q && m < p * q && e > 0 && d > 0
    requires Cong(e * d, 1, p - 1) && Cong(e * d, 1, q - 1)
    ensures Pow(Pow(m, e) % (p * q), d) % (p * q) == m
  {
    var n := p * q;
    PowResidue(Pow(m, e), d, n);
    PowPow(m, e, d);
    MulMono(1, e, 1, d);
    ExponentReduction(m, e * d, 1, p);
    ExponentReduction(m, e * d, 1, q);
    assert Pow(m, 1) == m * Pow(m, 0) == m;
    CombinePrimes(Pow(m, e * d), m, p, q);
    ModBelow(m, n);
  }
}
