/**
 * Multi-precision arithmetic on N-limb numbers, for every limb count N.
 * A U<N> is copied by value in the source, so it is a `seq<Limb>` here; the
 * buffers that the loops write are arrays.
 */
module BigInt {
  import opened Arith
  import opened Limbs
  import opened Montgomery

  /** Three-way comparison, from the most significant limb down. */
  method Cmp(a: seq<Limb>, b: seq<Limb>) returns (c: int)
    requires |a| == |b|
    ensures c == if Val(a) < Val(b) then -1 else if Val(a) > Val(b) then 1 else 0
  {
    hide Val;
    var i := |a| - 1;
    while i >= 0
      invariant -1 <= i < |a|
      invariant forall k :: i < k < |a| ==> a[k] == b[k]
    {
      if a[i] != b[i] {
        if a[i] < b[i] {
          ValLess(a, b, i);
          return -1;
        }
        ValLess(b, a, i);
        return 1;
      }
      i := i - 1;
    }
    assert a == b;
    return 0;
  }

  /** out = a + b modulo 2^(64 N), with the carry out of the top limb. */
  method Add(a: seq<Limb>, b: seq<Limb>) returns (out: seq<Limb>, carry: Limb)
    requires |a| == |b|
    ensures |out| == |a| && carry <= 1
    ensures Val(out) + carry * Radix(|a|) == Val(a) + Val(b)
  {
    ValEmpty();
    hide Val;
    var o := new Limb[|a|](_ => 0);
    carry := 0;
    for i := 0 to |a|
      invariant carry <= 1
      invariant Val(o[..i]) + carry * Radix(i) == Val(a[..i]) + Val(b[..i])
    {
      ghost var below, c := o[..i], carry;
      var s := a[i] + b[i] + carry;
      o[i] := s % WORD;
      carry := s / WORD;
      assert o[..i + 1] == below + [o[i]];
      AddStep(a, b, below, c, o[i], carry);
    }
    out := o[..];
    assert o[..|a|] == o[..] && a[..|a|] == a && b[..|a|] == b;
  }

  /** One column of a carry chain: the column's sum d + c leaves digit x and carry y. */
  lemma DigitSum(below: int, x: int, y: int, c: int, want: int, d: int, r: int)
    requires below + c * r == want && d + c == x + WORD * y
    ensures below + x * r + y * (WORD * r) == want + d * r
  {
    assert (d + c) * r == d * r + c * r;
    MulAssoc(y, WORD, r);
    assert (x + y * WORD) * r == x * r + (y * WORD) * r;
  }

  lemma AddDigits(below: int, x: int, y: int, c: int, aLow: int, d: int, bs: int, e: int, r: int)
    requires below + c * r == aLow + bs && d + e + c == x + WORD * y
    ensures below + x * r + y * (WORD * r) == (aLow + d * r) + (bs + e * r)
  {
    DigitSum(below, x, y, c, aLow + bs, d + e, r);
    assert (d + e) * r == d * r + e * r;
  }

  lemma SubDigits(below: int, x: int, y: int, c: int, aLow: int, d: int, bs: int, e: int, r: int)
    requires below - c * r == aLow - bs && d - e - c == x - WORD * y
    ensures below + x * r - y * (WORD * r) == (aLow + d * r) - (bs + e * r)
  {
    AddDigits(below + bs, x, -y, -c, aLow - 0, d, 0, -e, r);
  }

  /** One column of an addition. */
  lemma AddStep(a: seq<Limb>, b: seq<Limb>, below: seq<Limb>, c: int, x: Limb, y: int)
    requires |a| == |b| && |below| < |a|
    requires Val(below) + c * Radix(|below|) == Val(a[..|below|]) + Val(b[..|below|])
    requires a[|below|] as int + b[|below|] + c == x + WORD * y
    ensures Val(below + [x]) + y * Radix(|below| + 1) == Val(a[..|below| + 1]) + Val(b[..|below| + 1])
  {
    hide Val;
    var i := |below|;
    var d: int, e: int := a[i], b[i];
    ValAppend(below, x);
    ValSnoc(a, i);
    ValSnoc(b, i);
    AddDigits(Val(below), x, y, c, Val(a[..i]), d, Val(b[..i]), e, Radix(i));
  }

  lemma SubStep(a: seq<Limb>, b: seq<Limb>, below: seq<Limb>, c: int, x: Limb, y: int)
    requires |a| == |b| && |below| < |a|
    requires Val(below) - c * Radix(|below|) == Val(a[..|below|]) - Val(b[..|below|])
    requires a[|below|] as int - b[|below|] - c == x - WORD * y
    ensures Val(below + [x]) - y * Radix(|below| + 1) == Val(a[..|below| + 1]) - Val(b[..|below| + 1])
  {
    hide Val;
    var i := |below|;
    var d: int, e: int := a[i], b[i];
    ValAppend(below, x);
    ValSnoc(a, i);
    ValSnoc(b, i);
    SubDigits(Val(below), x, y, c, Val(a[..i]), d, Val(b[..i]), e, Radix(i));
  }

  /** out = a - b modulo 2^(64 N); the borrow is 1 exactly when a < b. */
  method Sub(a: seq<Limb>, b: seq<Limb>) returns (out: seq<Limb>, borrow: Limb)
    requires |a| == |b|
    ensures |out| == |a|
    ensures borrow == if Val(a) < Val(b) then 1 else 0
    ensures Val(out) == Val(a) - Val(b) + borrow * Radix(|a|)
  {
    ValEmpty();
    hide Val;
    var o := new Limb[|a|](_ => 0);
    borrow := 0;
    for i := 0 to |a|
      invariant borrow <= 1
      invariant Val(o[..i]) - borrow * Radix(i) == Val(a[..i]) - Val(b[..i])
    {
      ghost var below, c := o[..i], borrow;
      // the difference is taken in unsigned 128-bit arithmetic
      var d: int := (a[i] as int - b[i] - borrow) % (WORD * WORD);
      o[i] := d % WORD;
      borrow := if d / WORD != 0 then 1 else 0;
      Borrowed(a[i], b[i], c, d);
      assert o[..i + 1] == below + [o[i]];
      SubStep(a, b, below, c, o[i], borrow);
    }
    out := o[..];
    assert o[..|a|] == o[..] && a[..|a|] == a && b[..|a|] == b;
    ValBound(out);
    ValBound(a);
    ValBound(b);
  }

  /** A difference of two limbs wrapped to 128 bits shows its sign in the upper half. */
  lemma Borrowed(x: Limb, y: Limb, c: int, d: int)
    requires 0 <= c <= 1 && d == (x as int - y - c) % (WORD * WORD)
    ensures d % WORD - (if d / WORD != 0 then WORD else 0) == x as int - y - c
  {
    var e: int := x as int - y - c;
    if e >= 0 {
      assert d == e;
    } else {
      DivModUnique(e, -1, e + WORD * WORD, WORD * WORD);
      DivModUnique(d, WORD - 1, e + WORD, WORD);
    }
  }

  /**
   * The inner loop of every multiplication in the library: add x * b to the
   * limbs of t from position `off` on, and return what does not fit.
   */
  method MulAddRow(t: array<Limb>, off: nat, x: Limb, b: seq<Limb>) returns (carry: Limb)
    requires off + |b| <= t.Length
    modifies t
    ensures forall k :: 0 <= k < off || off + |b| <= k < t.Length ==> t[k] == old(t[k])
    ensures Val(t[off..off + |b|]) + carry * Radix(|b|) == old(Val(t[off..off + |b|])) + x * Val(b)
  {
    ValEmpty();
    hide Val;
    carry := 0;
    ghost var t0 := t[off..off + |b|];
    assert t[off..off + 0] == [] && t0[..0] == [] && b[..0] == [];
    for j := 0 to |b|
      invariant forall k :: 0 <= k < off || off + j <= k < t.Length ==> t[k] == old(t[k])
      invariant Val(t[off..off + j]) + carry * Radix(j) == Val(t0[..j]) + x * Val(b[..j])
    {
      MulMono(x, WORD - 1, b[j], WORD - 1);
      ghost var below, c := t[off..off + j], carry;
      var s := x * b[j] + t[off + j] + carry;
      t[off + j] := s % WORD;
      carry := s / WORD;
      assert t[off..off + j + 1] == below + [t[off + j]];
      RowStep(t0, x, b, below, c, t[off + j], carry);
    }
    assert t0[..|b|] == t0 && b[..|b|] == b;
  }

  lemma RowStep(t0: seq<Limb>, x: Limb, b: seq<Limb>, below: seq<Limb>, c: Limb, lo: Limb, y: Limb)
    requires |t0| == |b| && |below| < |b|
    requires Val(below) + c * Radix(|below|) == Val(t0[..|below|]) + x * Val(b[..|below|])
    requires x * b[|below|] + t0[|below|] + c == lo + WORD * y
    ensures Val(below + [lo]) + y * Radix(|below| + 1) == Val(t0[..|below| + 1]) + x * Val(b[..|below| + 1])
  {
    hide Val;
    var j := |below|;
    var d: int, e: int := t0[j], b[j];
    ValAppend(below, lo);
    ValSnoc(t0, j);
    ValSnoc(b, j);
    RowDigits(Val(below), lo, y, c, Val(t0[..j]), d, x, Val(b[..j]), e, Radix(j));
  }

  lemma RowDigits(below: int, lo: int, y: int, c: int, ts: int, d: int, x: int, bs: int, e: int, r: int)
    requires below + c * r == ts + x * bs && x * e + d + c == lo + WORD * y
    ensures below + lo * r + y * (WORD * r) == (ts + d * r) + x * (bs + e * r)
  {
    DigitSum(below, lo, y, c, ts + x * bs, x * e + d, r);
    MulAssoc(x, e, r);
    assert (x * e + d) * r == (x * e) * r + d * r;
    assert x * (bs + e * r) == x * bs + x * (e * r);
  }

  /** Schoolbook product of two N-limb numbers into 2N limbs. */
  method Mul(a: seq<Limb>, b: seq<Limb>) returns (out: seq<Limb>)
    requires |a| == |b|
    ensures |out| == 2 * |a|
    ensures Val(out) == Val(a) * Val(b)
  {
    ValEmpty();
    hide Val;
    var n := |a|;
    var o := new Limb[2 * n](_ => 0);
    ValZeros(o[..n]);
    for i := 0 to n
      invariant forall k :: i + n <= k < 2 * n ==> o[k] == 0
      invariant Val(o[..i + n]) == Val(a[..i]) * Val(b)
    {
      ghost var lo, hi := o[..i], o[i..i + n];
      assert o[..i + n] == lo + hi;
      var carry := MulAddRow(o, i, a[i], b);
      ghost var row := o[i..i + n];
      o[i + n] := carry;
      assert o[..i + n + 1] == lo + (row + [carry]);
      MulStep(a, b, lo, hi, row, carry);
    }
    out := o[..];
    assert o[..n + n] == o[..] && a[..n] == a;
  }

  lemma MulStep(a: seq<Limb>, b: seq<Limb>, lo: seq<Limb>, hi: seq<Limb>, row: seq<Limb>, carry: Limb)
    requires |lo| < |a| == |b| == |hi| == |row|
    requires Val(lo + hi) == Val(a[..|lo|]) * Val(b)
    requires Val(row) + carry * Radix(|b|) == Val(hi) + a[|lo|] * Val(b)
    ensures Val(lo + (row + [carry])) == Val(a[..|lo| + 1]) * Val(b)
  {
    hide Val;
    var i := |lo|;
    ValConcat(lo, hi);
    ValAppend(row, carry);
    ValConcat(lo, row + [carry]);
    ValSnoc(a, i);
    MulRowTotal(Val(lo), Radix(i), Val(hi), a[i], Val(b), Val(a[..i]), Val(row + [carry]));
  }

  lemma MulRowTotal(lo: int, r: int, hi: int, x: int, b: int, aLow: int, hi': int)
    requires lo + r * hi == aLow * b && hi' == hi + x * b
    ensures lo + r * hi' == (aLow + x * r) * b
  {
    assert r * hi' == r * hi + r * (x * b);
    assert (aLow + x * r) * b == aLow * b + (x * r) * b;
    assert r * (x * b) == (x * r) * b;
  }

  // ---- Montgomery multiplication ---------------------------------------

  /** nInv is -n^(-1) modulo 2^64. */
  ghost predicate IsNegInv(nInv: Limb, n: seq<Limb>) {
    n != [] && (n[0] * nInv + 1) % WORD == 0
  }

  /** The two top limbs of the accumulator absorb the carry of a row. */
  method AddTop(t: array<Limb>, carry: Limb)
    requires t.Length >= 2 && t[t.Length - 1] <= 1
    modifies t
    ensures t[..t.Length - 2] == old(t[..t.Length - 2])
    ensures t[t.Length - 1] <= old(t[t.Length - 1]) + 1
    ensures t[t.Length - 2] + WORD * t[t.Length - 1]
         == old(t[t.Length - 2] + WORD * t[t.Length - 1]) + carry
  {
    var n := t.Length - 2;
    var s := t[n] + carry;
    t[n] := s % WORD;
    t[n + 1] := (t[n + 1] + s / WORD) % WORD;
  }

  /** The N + 2 limbs of the accumulator as one number. */
  lemma AccumulatorVal(t: seq<Limb>, n: nat)
    requires |t| == n + 2
    ensures Val(t) == Val(t[..n]) + (t[n] + WORD * t[n + 1]) * Radix(n)
  {
    ValSplit(t, n);
    assert t[n..] == [t[n], t[n + 1]];
    ValPair(t[n], t[n + 1]);
  }

  lemma ValPair(x: Limb, y: Limb)
    ensures Val([x, y]) == x + WORD * y
  {
    assert [x, y][1..] == [y];
    ValOne(y);
  }

  lemma AddRowValue(lo: int, carry: int, lo': int, top: int, top': int, p: int, r: int)
    requires lo' + carry * r == lo + p && top' == top + carry
    ensures lo' + top' * r == lo + top * r + p
  {
  }

  /** Adding the row x * b to the accumulator, carries included. */
  method AddRow(t: array<Limb>, x: Limb, b: seq<Limb>)
    requires t.Length == |b| + 2 && t[|b| + 1] <= 1
    modifies t
    ensures Val(t[..]) == old(Val(t[..])) + x * Val(b)
    ensures t[|b| + 1] <= old(t[|b| + 1]) + 1
  {
    hide Val;
    var n := |b|;
    ghost var before := t[..];
    AccumulatorVal(before, n);
    var carry := MulAddRow(t, 0, x, b);
    assert t[0..0 + n] == t[..n] && before[0..0 + n] == before[..n];
    ghost var row := t[..n];
    AddTop(t, carry);
    AccumulatorVal(t[..], n);
    assert t[..][..n] == row;
    AddRowValue(Val(before[..n]), carry, Val(row),
                before[n] + WORD * before[n + 1], t[n] + WORD * t[n + 1], x * Val(b), Radix(n));
  }

  /** With nInv = -n^(-1), the multiple of n that is added clears the lowest limb. */
  lemma LowLimbCleared(s: nat, m: Limb, n: seq<Limb>, nInv: Limb)
    requires IsNegInv(nInv, n) && m == ((s % WORD) * nInv) % WORD
    ensures (s + m * Val(n)) % WORD == 0
  {
    ValLow(n);
    hide Val;
    var l := s % WORD;
    CongMod(s, WORD);
    CongMod(l * nInv, WORD);
    CongMul(m, l * nInv, Val(n), n[0], WORD);
    CongAdd(l, s, m * Val(n), (l * nInv) * n[0], WORD);
    CongAdd(s, l, m * Val(n), (l * nInv) * n[0], WORD);
    MulAssoc(l, nInv, n[0]);
    assert Cong(n[0] * nInv + 1, 0, WORD);
    CongScale(n[0] * nInv + 1, 0, l, WORD);
    Factored(l, nInv, n[0]);
  }

  lemma Factored(l: int, x: int, y: int)
    ensures l + (l * x) * y == l * (y * x + 1)
  {
    MulAssoc(l, x, y);
  }

  /** One outer round keeps the accumulator below b + n. */
  lemma RoundBound(t: nat, t': nat, lo: nat, x: Limb, b: nat, m: Limb, n: nat)
    requires t == 0 || t < b + n
    requires WORD * t' + lo == t + x * b + m * n
    ensures t' == 0 || t' < b + n
  {
    MulMono(x, WORD - 1, b, b);
    MulMono(m, WORD - 1, n, n);
  }

  /** One outer round multiplies what the accumulator stands for by 2^64. */
  lemma RoundValue(t: int, t': int, x: int, b: int, m: int, n: int, q: int, aLow: int, r: int)
    requires t * r == aLow * b + q * n && WORD * t' == t + x * b + m * n
    ensures t' * (WORD * r) == (aLow + x * r) * b + (q + m * r) * n
  {
    MulAssoc(t', WORD, r);
    assert (t' * WORD) * r == (t + x * b + m * n) * r;
    assert (t + x * b + m * n) * r == t * r + (x * b) * r + (m * n) * r;
    assert (aLow + x * r) * b == aLow * b + (x * r) * b;
    assert (q + m * r) * n == q * n + (m * r) * n;
    MulSwap2(x, b, r);
    MulSwap2(m, n, r);
  }

  lemma MulSwap2(x: int, b: int, r: int)
    ensures (x * b) * r == (x * r) * b
  {
    MulAssoc(x, b, r);
    MulAssoc(x, r, b);
  }

  /** Drop the lowest limb. */
  method ShiftDown(t: array<Limb>)
    requires t.Length > 0
    modifies t
    ensures t[..] == old(t[..])[1..] + [0]
  {
    for j := 0 to t.Length - 1
      invariant forall k :: 0 <= k < j ==> t[k] == old(t[k + 1])
      invariant forall k :: j <= k < t.Length ==> t[k] == old(t[k])
    {
      t[j] := t[j + 1];
    }
    t[t.Length - 1] := 0;
  }

  /** One outer round: add x * b, add the multiple of n that clears limb 0, drop that limb. */
  method MontRound(t: array<Limb>, x: Limb, b: seq<Limb>, n: seq<Limb>, nInv: Limb) returns (m: Limb)
    requires |b| == |n| > 0 && t.Length == |n| + 2 && t[|n| + 1] == 0
    requires Val(t[..]) == 0 || Val(t[..]) < Val(b) + Val(n)
    modifies t
    ensures t[|n| + 1] == 0
    ensures Val(t[..]) == 0 || Val(t[..]) < Val(b) + Val(n)
    ensures IsNegInv(nInv, n) ==> WORD * Val(t[..]) == old(Val(t[..])) + x * Val(b) + m * Val(n)
  {
    var size := |n|;
    ghost var before := Val(t[..]);
    AddRow(t, x, b);
    m := (t[0] * nInv) % WORD;
    ghost var mid := t[..];
    AddRow(t, m, n);
    ghost var full := t[..];
    ValLow(mid);
    ValLow(full);
    hide Val;
    ShiftDown(t);
    ValAppend(full[1..], 0);
    RoundBound(before, Val(t[..]), full[0], x, Val(b), m, Val(n));
    if IsNegInv(nInv, n) {
      LowLimbCleared(Val(mid), m, n, nInv);
    }
  }

  /** The final conditional subtraction, on an accumulator below b + n. */
  method ReduceOnce(t: array<Limb>, n: seq<Limb>, ghost b: nat) returns (out: seq<Limb>)
    requires t.Length == |n| + 2 && t[|n| + 1] == 0
    requires Val(t[..]) == 0 || Val(t[..]) < b + Val(n)
    requires b < Radix(|n|)
    ensures |out| == |n|
    ensures Val(out) == if Val(t[..]) >= Val(n) then Val(t[..]) - Val(n) else Val(t[..])
  {
    var size := |n|;
    hide Val;
    out := t[..size];
    ghost var low := out;
    AccumulatorVal(t[..], size);
    assert t[..][..size] == out;
    ValBound(out);
    ValBound(n);
    var c := Cmp(out, n);
    if t[size] != 0 || c >= 0 {
      var tmp, borrow := Sub(out, n);
      out := tmp;
      ValBound(out);
      FinalSubtract(Val(t[..]), Val(low), t[size], borrow, Val(out), b, Val(n), Radix(size));
    }
  }

  /** A word whose negated inverse exists is odd, and so is the number above it. */
  lemma NegInvOdd(nInv: Limb, n: seq<Limb>)
    requires IsNegInv(nInv, n)
    ensures Val(n) % 2 == 1
  {
    ValLow(n);
    hide Val;
    OddFirst(n[0], nInv);
    LowParity(Val(n), n[0], Val(n[1..]));
  }

  lemma LowParity(v: int, x: int, rest: int)
    requires v == x + WORD * rest
    ensures v % 2 == x % 2
  {
  }

  lemma EvenProduct(x: int, y: int)
    requires x % 2 == 0
    ensures x * y % 2 == 0
  {
    MulAssoc(2, x / 2, y);
  }

  lemma OddFirst(x: int, y: int)
    requires (x * y + 1) % WORD == 0
    ensures x % 2 == 1
  {
    var z := x * y;
    LowParity(z + 1, 0, (z + 1) / WORD);
    if x % 2 == 0 {
      EvenProduct(x, y);
    }
  }

  /** The added multiple of n stays below 2^(64 i). */
  lemma QuotientGrows(q: int, m: Limb, r: int)
    requires 0 <= q < r
    ensures 0 <= q + m * r < WORD * r
  {
    DigitLess(m, WORD, r);
  }

  /**
   * What the accumulator stands for after i rounds: it is below b + n, and t * 2^(64 i) is the product of the
   * lower limbs of a and b plus a multiple of n below 2^(64 i).
   */
  ghost predicate Accumulated(t: nat, q: int, a: seq<Limb>, i: nat, b: nat, n: nat, exact: bool)
    requires i <= |a|
  {
    && (t == 0 || t < b + n) && 0 <= q < Radix(i)
    && (exact ==> t * Radix(i) == Val(a[..i]) * b + q * n)
  }

  lemma AccumulatedNothing(a: seq<Limb>, b: nat, n: nat, exact: bool)
    ensures Accumulated(0, 0, a, 0, b, n, exact)
  {
    ValEmpty();
  }

  lemma AccumulatedRound(t: nat, t': nat, m: Limb, q: int, a: seq<Limb>, i: nat, b: nat, n: nat, exact: bool)
    requires i < |a| && Accumulated(t, q, a, i, b, n, exact)
    requires (t' == 0 || t' < b + n) && (exact ==> WORD * t' == t + a[i] * b + m * n)
    ensures Accumulated(t', q + m * Radix(i), a, i + 1, b, n, exact)
  {
    hide Val;
    QuotientGrows(q, m, Radix(i));
    if exact {
      RoundValue(t, t', a[i], b, m, n, q, Val(a[..i]), Radix(i));
      ValSnoc(a, i);
    }
  }

  /** The Montgomery product of limb arrays with an odd modulus. */
  ghost function MontProduct(a: seq<Limb>, b: seq<Limb>, n: seq<Limb>): nat
    requires Val(n) % 2 == 1
  {
    MulMono(0, Val(a), 0, Val(b));
    MontValue(Val(a) * Val(b), Val(n), |n|)
  }

  /** After all rounds and the subtraction. */
  lemma AccumulatedResult(t: nat, q: int, a: seq<Limb>, b: seq<Limb>, n: seq<Limb>, nInv: Limb, out: nat)
    requires |a| == |n| && Accumulated(t, q, a, |a|, Val(b), Val(n), IsNegInv(nInv, n))
    requires out == if t >= Val(n) then t - Val(n) else t
    ensures Val(n) > 0 ==> out < Val(n) || out < Val(b)
    ensures IsNegInv(nInv, n) ==> Val(n) % 2 == 1 && out == MontProduct(a, b, n)
    ensures Val(n) > 0 && IsNegInv(nInv, n) ==> Cong(out * Radix(|n|), Val(a) * Val(b), Val(n))
  {
    hide Val;
    assert a[..|a|] == a;
    if IsNegInv(nInv, n) {
      MulMono(0, Val(a), 0, Val(b));
      NegInvOdd(nInv, n);
      MontDetermined(t, q, Val(a) * Val(b), Val(n), |a|);
      MontReducedIff(Val(a) * Val(b), Val(n), |a|);
    }
  }

  /**
   * Montgomery product by coarsely integrated operand scanning. With the inverse word of n the result is
   * MontProduct of the operands: the only q below R = 2^(64 N) for which R divides a * b + q * n, then that
   * sum divided by R, less n if it is not below n. So it stands for a * b / R modulo n, and it is below n or
   * below b, hence fully reduced as soon as b <= n.
   */
  method MontMul(a: seq<Limb>, b: seq<Limb>, n: seq<Limb>, nInv: Limb) returns (out: seq<Limb>)
    requires |a| == |b| == |n|
    ensures |out| == |n|
    ensures Val(n) > 0 ==> Val(out) < Val(n) || Val(out) < Val(b)
    ensures IsNegInv(nInv, n) ==> Val(n) % 2 == 1 && Val(out) == MontProduct(a, b, n)
    ensures Val(n) > 0 && IsNegInv(nInv, n) ==> Cong(Val(out) * Radix(|n|), Val(a) * Val(b), Val(n))
  {
    var size := |n|;
    var t := new Limb[size + 2](_ => 0);
    ghost var q, exact := 0, IsNegInv(nInv, n);
    ValZeros(t[..]);
    AccumulatedNothing(a, Val(b), Val(n), exact);
    hide Val, Radix, Cong, MontProduct, IsNegInv, Accumulated;
    for i := 0 to size
      invariant t[size + 1] == 0 && (Val(t[..]) == 0 || Val(t[..]) < Val(b) + Val(n))
      invariant Accumulated(Val(t[..]), q, a, i, Val(b), Val(n), exact)
    {
      ghost var before := Val(t[..]);
      var m := MontRound(t, a[i], b, n, nInv);
      AccumulatedRound(before, Val(t[..]), m, q, a, i, Val(b), Val(n), exact);
      q := q + m * Radix(i);
    }
    ValBound(b);
    out := ReduceOnce(t, n, Val(b));
    AccumulatedResult(Val(t[..]), q, a, b, n, nInv, Val(out));
  }

  lemma FinalSubtract(total: int, low: int, top: Limb, borrow: int, out: int, b: int, n: int, r: int)
    requires 0 <= low < r && 0 <= b < r && 0 <= n < r && 0 <= out < r
    requires total == low + top * r && (total == 0 || total < b + n)
    requires borrow == (if low < n then 1 else 0) && out == low - n + borrow * r
    requires top != 0 || low >= n
    ensures out == total - n
  {
    if top >= 2 {
      MulMono(2, top, r, r);
    }
  }
}
