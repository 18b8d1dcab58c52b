/** Fermat's little theorem, for the RSA exponents reduced modulo p - 1. */
module Fermat {
  import opened Arith

  ghost predicate IsPrime(p: int) {
    2 <= p && forall d :: 2 <= d < p ==> p % d != 0
  }

  /** Every non-zero residue modulo a prime has an inverse. */
  lemma {:induction false} Inverse(k: int, p: int) returns (v: int)
    requires IsPrime(p) && 1 <= k < p
    ensures Cong(v * k, 1, p)
    decreases k
  {
    if k == 1 {
      v := 1;
    } else {
      var q, r := p / k, p % k;
      var w := Inverse(r, p);
      v := -w * q;
      assert v * k == w * r - w * p by {
        assert p == q * k + r;
        assert w * p == w * (q * k) + w * r;
        MulAssoc(w, q, k);
        assert (-w * q) * k == -((w * q) * k);
      }
      CongIntro(v * k, w * r, -w, p);
    }
  }

  /** A prime that divides k * x, 0 < k < p, divides x. */
  lemma Euclid(k: int, x: int, p: int)
    requires IsPrime(p) && 1 <= k < p && Cong(k * x, 0, p)
    ensures Cong(x, 0, p)
  {
    var v := Inverse(k, p);
    CongCancel(x, 0, k, v, p);
  }

  // ---- the binomial theorem ------------------------------------------------

  function Choose(n: nat, k: nat): nat {
    if k == 0 then 1
    else if n == 0 then 0
    else Choose(n - 1, k - 1) + Choose(n - 1, k)
  }

  lemma {:induction false} ChooseAbove(n: nat, k: nat)
    requires k > n
    ensures Choose(n, k) == 0
  {
    if n > 0 {
      ChooseAbove(n - 1, k - 1);
      ChooseAbove(n - 1, k);
    }
  }

  lemma {:induction false} ChooseAll(n: nat)
    ensures Choose(n, n) == 1
  {
    if n > 0 {
      ChooseAll(n - 1);
      ChooseAbove(n - 1, n);
    }
  }

  /** k C(n, k) = n C(n - 1, k - 1). */
  lemma {:induction false} Absorption(n: nat, k: nat)
    requires 1 <= k && 1 <= n
    ensures k * Choose(n, k) == n * Choose(n - 1, k - 1)
    decreases n
  {
    if n == 1 {
      ChooseAbove(0, k);
      if k > 1 { ChooseAbove(0, k - 1); ChooseAbove(1, k); }
    } else {
      var a, b, c := Choose(n - 1, k - 1), Choose(n - 1, k), Choose(n - 2, k - 1);
      Absorption(n - 1, k);
      if k > 1 {
        Absorption(n - 1, k - 1);
        assert a == Choose(n - 2, k - 2) + c;
        AbsorptionSum(n, k, a, b, Choose(n - 2, k - 2), c);
      } else {
        assert a == 1 && c == 1;
      }
    }
  }

  lemma AbsorptionSum(n: int, k: int, a: int, b: int, c: int, d: int)
    requires a == c + d && k * b == (n - 1) * d && (k - 1) * a == (n - 1) * c
    ensures k * (a + b) == n * a
  {
    assert (n - 1) * a == (n - 1) * c + (n - 1) * d;
    assert k * (a + b) == k * a + k * b;
    assert (k - 1) * a == k * a - a;
    assert (n - 1) * a == n * a - a;
  }

  /** The first k terms of the expansion of (x + 1)^n. */
  function Expansion(x: int, n: nat, k: nat): int {
    if k == 0 then 0 else Expansion(x, n, k - 1) + Choose(n, k - 1) * Pow(x, k - 1)
  }

  /** One power more turns each term into the sum of two neighbours. */
  lemma {:induction false} ExpansionStep(x: int, n: nat, k: nat)
    ensures Expansion(x, n + 1, k + 1) == Expansion(x, n, k + 1) + x * Expansion(x, n, k)
  {
    if k == 0 {
      assert Expansion(x, n + 1, 1) == Choose(n + 1, 0) * Pow(x, 0);
      assert Expansion(x, n, 1) == Choose(n, 0) * Pow(x, 0);
    } else {
      ExpansionStep(x, n, k - 1);
      Regroup(x, Choose(n, k), Choose(n, k - 1), Pow(x, k - 1), Expansion(x, n, k - 1));
    }
  }

  lemma Regroup(x: int, c: int, c': int, y: int, s: int)
    ensures (c' + c) * (x * y) == c * (x * y) + x * (c' * y)
    ensures x * (s + c' * y) == x * s + x * (c' * y)
  {
    assert (c' + c) * (x * y) == c' * (x * y) + c * (x * y);
    MulAssoc(c', x, y);
    MulAssoc(x, c', y);
  }

  lemma {:induction false} Binomial(x: int, n: nat)
    ensures Expansion(x, n, n + 1) == Pow(x + 1, n)
  {
    if n > 0 {
      Binomial(x, n - 1);
      ExpansionStep(x, n - 1, n);
      ChooseAbove(n - 1, n);
      var s := Expansion(x, n - 1, n);
      assert Expansion(x, n - 1, n + 1) == s;
      assert s + x * s == (x + 1) * s;
    } else {
      assert Expansion(x, 0, 1) == Choose(0, 0) * Pow(x, 0);
    }
  }

  // ---- Fermat ------------------------------------------------------------------

  /** Modulo a prime p only the first term of (x + 1)^p matters below x^p. */
  lemma {:induction false} MiddleTermsVanish(x: int, p: int, k: nat)
    requires IsPrime(p) && 1 <= k <= p
    ensures Cong(Expansion(x, p, k), 1, p)
  {
    if k == 1 {
      assert Expansion(x, p, 1) == Choose(p, 0) * Pow(x, 0);
    } else {
      MiddleTermsVanish(x, p, k - 1);
      Absorption(p, k - 1);
      var c := Choose(p, k - 1);
      CongIntro((k - 1) * c, 0, Choose(p - 1, k - 2), p);
      Euclid(k - 1, c, p);
      CongScale(c, 0, Pow(x, k - 1), p);
      CongAdd(Expansion(x, p, k - 1), 1, c * Pow(x, k - 1), 0, p);
    }
  }

  /** x^p is congruent to x modulo a prime p. */
  lemma {:induction false} LittleFermat(x: nat, p: int)
    requires IsPrime(p)
    ensures Cong(Pow(x, p), x, p)
  {
    if x == 0 {
      assert Pow(0, p) == 0;
    } else {
      var y := x - 1;
      LittleFermat(y, p);
      Binomial(y, p);
      ChooseAll(p);
      MiddleTermsVanish(y, p, p);
      assert Pow(x, p) == Expansion(y, p, p) + Pow(y, p);
      CongAdd(Expansion(y, p, p), 1, Pow(y, p), y, p);
    }
  }

  lemma {:induction false} PowZero(e: nat)
    requires e > 0
    ensures Pow(0, e) == 0
  {
  }

  /** Raising by p - 1 positions changes nothing: x^(e + p - 1) is congruent to x^e for e > 0. */
  lemma FermatShift(x: nat, e: nat, p: int)
    requires IsPrime(p) && e > 0
    ensures Cong(Pow(x, e + (p - 1)), Pow(x, e), p)
  {
    PowAdd(x, p, e - 1);
    PowAdd(x, 1, e - 1);
    assert Pow(x, 1) == x * Pow(x, 0);
    LittleFermat(x, p);
    CongScale(Pow(x, p), x, Pow(x, e - 1), p);
  }

  lemma {:induction false} FermatReduce(x: nat, e: nat, k: nat, p: int)
    requires IsPrime(p) && e > 0
    ensures k * (p - 1) >= 0 && Cong(Pow(x, e + k * (p - 1)), Pow(x, e), p)
    decreases k
  {
    if k > 0 {
      FermatReduce(x, e, k - 1, p);
      assert k * (p - 1) == (k - 1) * (p - 1) + (p - 1);
      FermatShift(x, e + (k - 1) * (p - 1), p);
    }
  }

  lemma PrimeAboveOne(p: int)
    requires IsPrime(p)
    ensures p > 1
  {
  }

  lemma Commutes(x: int, y: int)
    ensures x * y == y * x
  {
  }

  /** x^(p - 1) is congruent to 1 when p does not divide x. */
  lemma FermatUnit(x: nat, p: int)
    requires IsPrime(p) && x % p != 0
    ensures Cong(Pow(x, p - 1), 1, p)
  {
    assert Pow(x, p) == x * Pow(x, p - 1);
    hide Pow, IsPrime;
    var k := x % p;
    PrimeAboveOne(p);
    CongMod(x, p);
    var v := Inverse(k, p);
    LittleFermat(x, p);
    CongScale(k, x, v, p);
    Commutes(x, v);
    Commutes(x, Pow(x, p - 1));
    CongCancel(Pow(x, p - 1), 1, x, v, p);
  }

  lemma UnitReduce(x: nat, e: nat, k: nat, p: int)
    requires IsPrime(p) && x % p != 0
    ensures k * (p - 1) >= 0 && Cong(Pow(x, e + k * (p - 1)), Pow(x, e), p)
  {
    PowPow(x, p - 1, k);
    assert (p - 1) * k == k * (p - 1);
    FermatUnit(x, p);
    CongPow(Pow(x, p - 1), 1, k, p);
    PowOne(k);
    PowAdd(x, e, k * (p - 1));
    CongScale(Pow(x, k * (p - 1)), 1, Pow(x, e), p);
  }

  /** Both exponents vanish, or neither does, or x is a unit. */
  predicate SameVanishing(x: nat, d: nat, e: nat, p: int)
    requires p > 0
  {
    (d == 0 <==> e == 0) || x % p != 0
  }

  /** Exponents that agree modulo p - 1 give the same power exactly under SameVanishing. */
  lemma ExponentReduction(x: nat, d: nat, e: nat, p: int)
    requires IsPrime(p) && Cong(d, e, p - 1)
    ensures Cong(Pow(x, d), Pow(x, e), p) <==> SameVanishing(x, d, e, p)
  {
    if d < e {
      ExponentReductionUp(x, e, d, p);
    } else {
      ExponentReductionUp(x, d, e, p);
    }
  }

  lemma ExponentReductionUp(x: nat, d: nat, e: nat, p: int)
    requires IsPrime(p) && Cong(d, e, p - 1) && d >= e
    ensures Cong(Pow(x, d), Pow(x, e), p) <==> SameVanishing(x, d, e, p)
  {
    var k := CongElim(d, e, p - 1);
    if k < 0 {
      MulMono(1, -k, p - 1, p - 1);
    }
    if x % p != 0 {
      UnitReduce(x, e, k, p);
    } else if e > 0 {
      FermatReduce(x, e, k, p);
    } else if d > 0 {
      CongMod(x, p);
      CongPow(x, 0, d, p);
      PowZero(d);
      ModBelow(0, p);
      ModBelow(1, p);
    }
  }
}
