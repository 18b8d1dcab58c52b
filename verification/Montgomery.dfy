/** The exact value of a Montgomery product, operands reduced or not. */
module Montgomery {
  import opened Arith
  import opened Limbs

  /** q is the multiple of n that makes x divisible by r. */
  ghost predicate IsMontQuotient(q: int, x: int, n: int, r: int) {
    0 <= q < r && Cong(x + q * n, 0, r)
  }

  lemma {:induction false} QuotientBits(x: int, n: int, m: nat) returns (q: nat)
    requires n % 2 == 1
    ensures Pow(2, m) > 0 && IsMontQuotient(q, x, n, Pow(2, m))
  {
    if m == 0 {
      q := 0;
    } else {
      var p := Pow(2, m - 1);
      assert Pow(2, m) == 2 * p;
      hide Pow;
      q := QuotientBits(x, n, m - 1);
      var s := CongElim(x + q * n, 0, p);
      NextBit(x, q, n, s, p);
      if s % 2 == 1 {
        q := q + p;
      }
    }
  }

  /** The next bit is set when the quotient so far is odd. */
  lemma NextBit(x: int, q: int, n: int, s: int, p: int)
    requires n % 2 == 1 && 0 <= q < p && x + q * n == s * p
    ensures IsMontQuotient(if s % 2 == 0 then q else q + p, x, n, 2 * p)
  {
    if s % 2 == 0 {
      Halve(s, p);
      CongIntro(x + q * n, 0, s / 2, 2 * p);
    } else {
      Halve(s + n, p);
      OneMoreBit(x, q, n, s, p);
      CongIntro(x + (q + p) * n, 0, (s + n) / 2, 2 * p);
    }
  }

  lemma Halve(s: int, p: int)
    requires s % 2 == 0
    ensures s * p == s / 2 * (2 * p)
  {
    assert s == 2 * (s / 2);
    MulAssoc(s / 2, 2, p);
  }

  lemma OneMoreBit(x: int, q: int, n: int, s: int, p: int)
    requires x + q * n == s * p
    ensures x + (q + p) * n == (s + n) * p
  {
  }

  lemma OddFactor(d: int, n: int)
    requires n % 2 == 1
    ensures d * n % 2 == d % 2
  {
    var b := n / 2;
    assert d * n == 2 * (d * b) + d;
  }

  /** Halving a product with an odd factor halves the other one. */
  lemma HalfProduct(d: int, n: int, k: int, p: int)
    requires n % 2 == 1 && d * n == k * (2 * p)
    ensures d % 2 == 0 && d / 2 * n == k * p
  {
    OddFactor(d, n);
    TwoInside(k, p);
    assert d == 2 * (d / 2);
    MulAssoc(2, d / 2, n);
  }

  lemma TwoInside(k: int, p: int)
    ensures k * (2 * p) == 2 * (k * p)
  {
  }

  /** A power of two that divides d * n, n odd, divides d. */
  lemma {:induction false} OddCancels(d: int, n: int, m: nat)
    requires n % 2 == 1 && Pow(2, m) > 0 && Cong(d * n, 0, Pow(2, m))
    ensures Cong(d, 0, Pow(2, m))
    decreases m
  {
    if m > 0 {
      var p := Pow(2, m - 1);
      assert Pow(2, m) == 2 * p;
      hide Pow;
      var k := CongElim(d * n, 0, 2 * p);
      HalfProduct(d, n, k, p);
      CongIntro(d / 2 * n, 0, k, p);
      OddCancels(d / 2, n, m - 1);
      var l := CongElim(d / 2, 0, p);
      TwoInside(l, p);
      CongIntro(d, 0, l, 2 * p);
    }
  }

  /** There is exactly one such multiple below 2^(64 k). */
  lemma MontQuotientUnique(q: int, q': int, x: int, n: int, k: nat)
    requires n % 2 == 1 && IsMontQuotient(q, x, n, Radix(k)) && IsMontQuotient(q', x, n, Radix(k))
    ensures q == q'
  {
    RadixIsPowTwo(k);
    var r := Radix(k);
    CongSub(x + q * n, 0, x + q' * n, 0, r);
    assert (x + q * n) - (x + q' * n) == (q - q') * n;
    OddCancels(q - q', n, 64 * k);
    CongAdd(q - q', 0, q', q', r);
    CongUnique(q, q', r);
  }

  lemma MontQuotientExists(x: int, n: int, k: nat)
    requires n % 2 == 1
    ensures Radix(k) > 0 && exists q: nat :: IsMontQuotient(q, x, n, Radix(k))
  {
    RadixIsPowTwo(k);
    var q := QuotientBits(x, n, 64 * k);
  }

  /** The multiple of n that the inputs determine: the only one below R = 2^(64 k) that makes x divisible by R. */
  ghost function MontQuotient(x: nat, n: nat, k: nat): (q: nat)
    requires n % 2 == 1
    ensures Radix(k) > 0 && IsMontQuotient(q, x, n, Radix(k))
  {
    MontQuotientExists(x, n, k);
    var q: nat :| IsMontQuotient(q, x, n, Radix(k));
    q
  }

  lemma ExactDivision(y: int, r: int)
    requires r > 0 && Cong(y, 0, r)
    ensures y / r * r == y
  {
    ModBelow(0, r);
    assert y == y / r * r + y % r;
  }

  /** The accumulator before the final subtraction. */
  ghost function MontTotal(x: nat, n: nat, k: nat): (t: nat)
    requires n % 2 == 1
    ensures t * Radix(k) == x + MontQuotient(x, n, k) * n
  {
    var y := x + MontQuotient(x, n, k) * n;
    ExactDivision(y, Radix(k));
    y / Radix(k)
  }

  /** The result: the accumulator with n subtracted once if it is not below n. */
  ghost function MontValue(x: nat, n: nat, k: nat): (v: nat)
    requires n % 2 == 1
  {
    var t := MontTotal(x, n, k);
    if t >= n then t - n else t
  }

  /** An accumulator reached with any multiple of n below R is the one the inputs determine. */
  lemma MontDetermined(t: nat, q: nat, x: nat, n: nat, k: nat)
    requires n % 2 == 1 && q < Radix(k) && t * Radix(k) == x + q * n
    ensures q == MontQuotient(x, n, k) && t == MontTotal(x, n, k)
  {
    var r := Radix(k);
    CongIntro(x + q * n, 0, t, r);
    MontQuotientUnique(q, MontQuotient(x, n, k), x, n, k);
    DivModUnique(x + q * n, t, 0, r);
    DivModUnique(x + q * n, MontTotal(x, n, k), 0, r);
  }

  /**
   * The result stands for x / R modulo n for every x, and it is the reduced residue exactly when
   * x + q * n < 2 n R. That holds when x <= n R, hence for b <= n, and fails when x >= 2 n R.
   */
  lemma MontReducedIff(x: nat, n: nat, k: nat)
    requires n % 2 == 1
    ensures Cong(MontValue(x, n, k) * Radix(k), x, n)
    ensures MontValue(x, n, k) < n <==> x + MontQuotient(x, n, k) * n < 2 * n * Radix(k)
    ensures x <= n * Radix(k) ==> MontValue(x, n, k) < n
    ensures x >= 2 * n * Radix(k) ==> MontValue(x, n, k) >= n
  {
    var t, q, r := MontTotal(x, n, k), MontQuotient(x, n, k), Radix(k);
    Bracket(t, q, x, n, r);
    if t >= n {
      OneLess(t, n, q, x, r);
      CongIntro((t - n) * r, x, q - r, n);
    } else {
      CongIntro(t * r, x, q, n);
    }
  }

  lemma OneLess(t: int, n: int, q: int, x: int, r: int)
    requires t * r == x + q * n
    ensures (t - n) * r == x + (q - r) * n
  {
  }

  lemma Bracket(t: nat, q: nat, x: nat, n: nat, r: nat)
    requires r > 0 && n > 0 && q < r && t * r == x + q * n
    ensures t < 2 * n <==> x + q * n < 2 * n * r
    ensures x <= n * r ==> t < 2 * n
    ensures x >= 2 * n * r ==> t >= 2 * n
  {
    DigitLess(q, r, n);
    assert r * n == n * r && q * n >= 0 && 2 * n * r == n * r + n * r;
    if t < 2 * n {
      DigitLess(t, 2 * n, r);
    } else {
      MulMono(2 * n, t, r, r);
    }
  }

  lemma {:induction false} RadixModThree(k: nat)
    ensures Radix(k) > 0 && Radix(k) % 3 == 1
  {
    if k > 0 {
      RadixModThree(k - 1);
      RadixNext(k - 1);
      TimesOneModThree(WORD / 3, Radix(k - 1));
    }
  }

  lemma TimesOneModThree(w: nat, r: nat)
    requires r > 0 && r % 3 == 1
    ensures (3 * w + 1) * r > 0 && (3 * w + 1) * r % 3 == 1
  {
    MulMono(1, 3 * w + 1, 1, r);
    assert (3 * w + 1) * r == 3 * (w * r) + r by {
      MulAssoc(3, w, r);
    }
  }

  /** At every width, n = 3 and the largest operands give R - 4, far from reduced. */
  lemma UnreducedExample(k: nat)
    requires k > 0
    ensures Radix(k) > 4 && (Radix(k) - 1) * (Radix(k) - 1) >= 0
    ensures MontValue((Radix(k) - 1) * (Radix(k) - 1), 3, k) == Radix(k) - 4
  {
    RadixModThree(k);
    RadixLarge(k);
    hide Radix, MontTotal, MontQuotient;
    var r := Radix(k);
    MulMono(0, r - 1, 0, r - 1);
    Square(r);
    Third(r);
    MontDetermined(r - 1, (r - 1) / 3, (r - 1) * (r - 1), 3, k);
  }

  lemma RadixLarge(k: nat)
    requires k > 0
    ensures Radix(k) >= WORD
  {
    RadixPos(k - 1);
    RadixNext(k - 1);
    MulMono(WORD, WORD, 1, Radix(k - 1));
  }

  lemma Third(r: int)
    requires r % 3 == 1 && r > 0
    ensures (r - 1) / 3 * 3 == r - 1 && 0 <= (r - 1) / 3 < r
  {
  }

  lemma Square(r: int)
    ensures (r - 1) * r == (r - 1) * (r - 1) + (r - 1)
  {
  }
}
