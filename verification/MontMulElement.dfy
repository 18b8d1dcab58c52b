/**
 * The Montgomery-multiplication element: a on one port, b and then n on the other, one product flit a call
 * once all three are there. `flits` is the number of flits per operand, 4 for 1024 bits.
 */
module MontMulElement {
  import opened Arith
  import opened Limbs
  import opened BigInt
  import opened ModExp
  import opened Options
  import opened Montgomery
  import opened LimbFlits

  datatype Factors = Factors(a: seq<Limb>, b: seq<Limb>, n: seq<Limb>)

  /** What the element sends for an odd modulus: the exact Montgomery product, in the operand width. */
  ghost function Product(f: Factors): (c: seq<Limb>)
    requires IsOdd(f.n)
    ensures |c| == |f.n|
  {
    OddVal(f.n);
    ToLimbs(MontProduct(f.a, f.b, f.n), |f.n|)
  }

  /** What the element is documented to send: a * b / R mod n, where R = 2^(64 N). */
  function Documented(f: Factors): (c: seq<Limb>)
    ensures |c| == |f.n|
  {
    if Val(f.n) == 0 then seq(|f.n|, _ => 0)
    else ToLimbs(Val(f.a) * Val(f.b) * Pow(HalfMod(Val(f.n)), 64 * |f.n|) % Val(f.n), |f.n|)
  }

  lemma ProductTimesR(x: int, n: int, k: nat)
    requires n > 0 && n % 2 == 1
    ensures Cong(x * Pow(HalfMod(n), 64 * k) * Radix(k), x, n)
  {
    var w, r := Pow(HalfMod(n), 64 * k), Radix(k);
    RadixIsPowTwo(k);
    PowTwoInvertible(64 * k, n);
    CongScale(r * w, 1, x, n);
    MulAssoc(x, w, r);
  }

  /** Limbs are those of their number. */
  lemma ProductIs(z: seq<Limb>, f: Factors)
    requires IsOdd(f.n) && |z| == |f.n| && Val(f.n) % 2 == 1 && Val(z) == MontProduct(f.a, f.b, f.n)
    ensures z == Product(f)
  {
    hide Val, MontProduct, Radix;
    ValBound(z);
    ToLimbsVal(Val(z), |z|);
    ValInjective(z, ToLimbs(Val(z), |z|));
  }

  /** A residue modulo n is the only one below n. */
  lemma ResidueIff(v: nat, y: int, x: int, n: int, k: nat)
    requires n > 0 && n % 2 == 1 && Cong(v * Radix(k), x, n) && Cong(y * Radix(k), x, n)
    ensures v == y % n <==> v < n
  {
    CongMod(y, n);
    RadixCancel(v, y, k, n);
    if v < n {
      CongUnique(v, y % n, n);
    }
  }

  /** The exact product is below 2^(64 N), so its limbs hold it. */
  lemma ProductFits(x: nat, a: nat, b: nat, n: nat, k: nat)
    requires n % 2 == 1 && x == a * b && a < Radix(k) && b < Radix(k) && n < Radix(k)
    ensures MontValue(x, n, k) < Radix(k)
  {
    var r, q := Radix(k), MontQuotient(x, n, k);
    var t := MontTotal(x, n, k);
    DigitLess(q, r, n);
    MulMono(a, r - 1, b, b);
    Spread(b, n, r);
    if t >= b + n {
      MulMono(b + n, t, r, r);
    }
  }

  lemma Spread(b: int, n: int, r: int)
    ensures (r - 1) * b == r * b - b && (b + n) * r == r * b + r * n && r * n == n * r
  {
  }

  /**
   * The element sends what it is documented to send exactly when a * b + q * n < 2 n R, q being the only
   * number below R that makes the sum divisible by R.
   */
  lemma DocumentedIff(f: Factors)
    requires IsOdd(f.n) && |f.a| == |f.b| == |f.n|
    ensures Val(f.n) % 2 == 1 && Val(f.a) * Val(f.b) >= 0
    ensures Product(f) == Documented(f)
       <==> Val(f.a) * Val(f.b) + MontQuotient(Val(f.a) * Val(f.b), Val(f.n), |f.n|) * Val(f.n) < 2 * Val(f.n) * Radix(|f.n|)
  {
    OddVal(f.n);
    hide Val, Pow, Radix, MontValue;
    MulMono(0, Val(f.a), 0, Val(f.b));
    var x, n, k := Val(f.a) * Val(f.b), Val(f.n), |f.n|;
    var v, y := MontValue(x, n, k), x * Pow(HalfMod(n), 64 * k);
    MontReducedIff(x, n, k);
    ProductTimesR(x, n, k);
    ResidueIff(v, y, x, n, k);
    ValBound(f.a);
    ValBound(f.b);
    ValBound(f.n);
    ProductFits(x, Val(f.a), Val(f.b), n, k);
    CongMod(y, n);
    ToLimbsVal(v, k);
    ToLimbsVal(y % n, k);
  }

  /** In particular whenever a * b <= n R, and so for every b that is at most n. */
  lemma DocumentedFor(f: Factors)
    requires IsOdd(f.n) && |f.a| == |f.b| == |f.n|
    requires Val(f.b) <= Val(f.n) || Val(f.a) * Val(f.b) <= Val(f.n) * Radix(|f.n|)
    ensures Product(f) == Documented(f)
  {
    OddVal(f.n);
    DocumentedIff(f);
    ValBound(f.a);
    hide Val, Pow, Radix, MontValue;
    MulMono(0, Val(f.a), 0, Val(f.b));
    if Val(f.b) <= Val(f.n) {
      MulMono(Val(f.a), Radix(|f.n|), Val(f.b), Val(f.n));
    }
    MontReducedIff(Val(f.a) * Val(f.b), Val(f.n), |f.n|);
  }

  /** At every width: with n = 3 and a and b all ones the element sends R - 4, which is not below 3. */
  lemma UnreducedOperands(k: nat) returns (f: Factors)
    requires k > 0
    ensures |f.a| == |f.b| == |f.n| == k && IsOdd(f.n) && Val(f.n) == 3 && Val(f.a) == Val(f.b) == Radix(k) - 1
    ensures Val(Product(f)) == Radix(k) - 4 && Product(f) != Documented(f)
  {
    var r := Radix(k);
    RadixLarge(k);
    f := Factors(ToLimbs(r - 1, k), ToLimbs(r - 1, k), ToLimbs(3, k));
    ToLimbsVal(r - 1, k);
    ToLimbsVal(3, k);
    OddVal(f.n);
    DocumentedIff(f);
    hide Radix, Pow;
    UnreducedExample(k);
    ToLimbsVal(r - 4, k);
    MontReducedIff((r - 1) * (r - 1), 3, k);
  }

  // ---- one step ------------------------------------------------------------------------------------------

  datatype MulState = MulState(aIdx: nat, bIdx: nat, nIdx: nat, outIdx: nat,
                               a: seq<Limb>, b: seq<Limb>, n: seq<Limb>, in1: Option<Flit>, in2: Option<Flit>)

  ghost predicate MulShape(flits: nat, s: MulState) {
    && flits > 0 && |s.a| == |s.b| == |s.n| == 4 * flits
    && s.aIdx <= flits && s.bIdx <= flits && s.nIdx <= flits && (s.nIdx > 0 ==> s.bIdx == flits)
    && s.outIdx < flits && (s.outIdx > 0 ==> AllHere(flits, s))
  }

  predicate AllHere(flits: nat, s: MulState) {
    s.aIdx == flits && s.bIdx == flits && s.nIdx == flits
  }

  function FactorsOf(s: MulState): Factors { Factors(s.a, s.b, s.n) }

  function Arrive(s: MulState, a1: Option<Flit>, a2: Option<Flit>): MulState {
    s.(in1 := Latched(s.in1, a1), in2 := Latched(s.in2, a2))
  }

  function CollectA(flits: nat, s: MulState): MulState
    requires |s.a| == 4 * flits
  {
    if Takes(flits, s.aIdx, s.in1)
    then s.(a := Stored(s.a, s.aIdx, s.in1.value), aIdx := s.aIdx + 1, in1 := None) else s
  }

  /** The second port fills b first, and n once b is complete. */
  function CollectBN(flits: nat, s: MulState): MulState
    requires |s.b| == |s.n| == 4 * flits
  {
    if Takes(flits, s.bIdx, s.in2)
    then s.(b := Stored(s.b, s.bIdx, s.in2.value), bIdx := s.bIdx + 1, in2 := None)
    else if s.bIdx == flits && Takes(flits, s.nIdx, s.in2)
    then s.(n := Stored(s.n, s.nIdx, s.in2.value), nIdx := s.nIdx + 1, in2 := None)
    else s
  }

  function Sent(flits: nat, s: MulState): MulState {
    if s.outIdx + 1 == flits then s.(aIdx := 0, bIdx := 0, nIdx := 0, outIdx := 0) else s.(outIdx := s.outIdx + 1)
  }

  /** The handler after both collections: one flit of the product, or nothing. */
  ghost predicate EmitsProduct(flits: nat, t: MulState, s': MulState, out: Option<Flit>) {
    if AllHere(flits, t) && t.outIdx < flits then
      && s' == Sent(flits, t)
      && exists c: seq<Limb> :: |c| == 4 * flits && (IsOdd(t.n) ==> c == Product(FactorsOf(t)))
                                && out == Some(OutFlit(flits, c, t.outIdx))
    else s' == t && out == None
  }

  // ---- the history of an element --------------------------------------------------------------------------

  function FirstStream(fs: seq<Factors>): seq<Limb> {
    if fs == [] then [] else FirstStream(fs[..|fs| - 1]) + fs[|fs| - 1].a
  }

  function SecondStream(fs: seq<Factors>): seq<Limb> {
    if fs == [] then [] else SecondStream(fs[..|fs| - 1]) + BThenN(fs[|fs| - 1])
  }

  function BThenN(f: Factors): seq<Limb> { f.b + f.n }

  ghost predicate SizedFactors(flits: nat, fs: seq<Factors>) {
    forall k :: 0 <= k < |fs| ==> |fs[k].a| == |fs[k].b| == |fs[k].n| == 4 * flits
  }

  /** The product of a job, for the odd moduli whose products are determined. */
  ghost function Promised(f: Factors): Option<seq<Limb>> {
    if IsOdd(f.n) then Some(Product(f)) else None
  }

  ghost function PromisedAll(fs: seq<Factors>): seq<Option<seq<Limb>>> {
    seq(|fs|, k requires 0 <= k < |fs| => Promised(fs[k]))
  }

  lemma PromisedSizes(flits: nat, fs: seq<Factors>)
    requires SizedFactors(flits, fs)
    ensures SizedResults(flits, PromisedAll(fs))
  {
    hide Product;
  }

  /** What waits or is in use on each port. */
  function Waiting1(s: MulState): seq<Limb>
    requires 4 * s.aIdx <= |s.a|
  {
    s.a[..4 * s.aIdx] + FlitLanes(s.in1)
  }

  function Waiting2(s: MulState): seq<Limb>
    requires 4 * s.bIdx <= |s.b| && 4 * s.nIdx <= |s.n|
  {
    s.b[..4 * s.bIdx] + s.n[..4 * s.nIdx] + FlitLanes(s.in2)
  }

  /** What was sent is the products of the finished jobs and a part of the current one. */
  ghost predicate SentFits(flits: nat, s: MulState, fs: seq<Factors>, sent: seq<Flit>) {
    && s.outIdx <= flits && SizedResults(flits, PromisedAll(fs)) && SizedResult(flits, Promised(FactorsOf(s)))
    && Delivered(flits, PromisedAll(fs), Promised(FactorsOf(s)), s.outIdx, sent)
  }

  /**
   * All limbs that arrived belong to finished products, to the operands being collected or used, or to a latch;
   * and what was sent is one group of flits for each finished product, then part of the current one.
   */
  ghost predicate History(flits: nat, s: MulState, fs: seq<Factors>, got1: seq<Limb>, got2: seq<Limb>, sent: seq<Flit>) {
    && MulShape(flits, s) && SizedFactors(flits, fs)
    && got1 == FirstStream(fs) + Waiting1(s) && got2 == SecondStream(fs) + Waiting2(s)
    && SentFits(flits, s, fs, sent)
  }

  /** Collecting into the buffers leaves what was sent alone: no product is under way. */
  lemma SentUnchanged(flits: nat, s: MulState, t: MulState, fs: seq<Factors>, sent: seq<Flit>)
    requires SentFits(flits, s, fs, sent) && MulShape(flits, s) && MulShape(flits, t)
    requires s.outIdx == t.outIdx && (s.outIdx > 0 ==> FactorsOf(t) == FactorsOf(s))
    ensures SentFits(flits, t, fs, sent)
  {
    hide Product, PromisedAll, Delivered;
    if s.outIdx == 0 {
      DeliveredNext(flits, PromisedAll(fs), Promised(FactorsOf(s)), Promised(FactorsOf(t)), sent);
    }
  }

  lemma ArriveKeeps(flits: nat, s: MulState, a1: Option<Flit>, a2: Option<Flit>,
                    fs: seq<Factors>, got1: seq<Limb>, got2: seq<Limb>, sent: seq<Flit>)
    requires History(flits, s, fs, got1, got2, sent) && MayArrive(s.in1, a1) && MayArrive(s.in2, a2)
    ensures History(flits, Arrive(s, a1, a2), fs, got1 + FlitLanes(a1), got2 + FlitLanes(a2), sent)
  {
    hide FirstStream, SecondStream, SentFits, Lanes;
    var t := Arrive(s, a1, a2);
    SentUnchanged(flits, s, t, fs, sent);
    assert Waiting1(t) == Waiting1(s) + FlitLanes(a1);
    assert Waiting2(t) == Waiting2(s) + FlitLanes(a2);
  }

  lemma CollectAKeeps(flits: nat, s: MulState, fs: seq<Factors>, got1: seq<Limb>, got2: seq<Limb>, sent: seq<Flit>)
    requires History(flits, s, fs, got1, got2, sent)
    ensures History(flits, CollectA(flits, s), fs, got1, got2, sent)
  {
    if Takes(flits, s.aIdx, s.in1) {
      TakenPending(s.a, s.aIdx, s.in1.value);
    }
    hide FirstStream, SecondStream, SentFits, Stored, FlitLanes;
    SentUnchanged(flits, s, CollectA(flits, s), fs, sent);
  }

  lemma CollectBNWaiting(flits: nat, s: MulState)
    requires MulShape(flits, s)
    ensures var t := CollectBN(flits, s);
      MulShape(flits, t) && Waiting2(t) == Waiting2(s) && t == s.(b := t.b, n := t.n, bIdx := t.bIdx, nIdx := t.nIdx, in2 := t.in2)
    ensures s.outIdx > 0 ==> CollectBN(flits, s) == s
  {
    var t := CollectBN(flits, s);
    hide Stored, FlitLanes;
    if Takes(flits, s.bIdx, s.in2) {
      TakenPending(s.b, s.bIdx, s.in2.value);
      assert s.n[..0] == [] && t.n[..0] == [];
    } else if s.bIdx == flits && Takes(flits, s.nIdx, s.in2) {
      TakenPending(s.n, s.nIdx, s.in2.value);
      Regroup(s.b[..4 * s.bIdx], s.n[..4 * s.nIdx], FlitLanes(s.in2));
      Regroup(s.b[..4 * s.bIdx], t.n[..4 * t.nIdx], FlitLanes(None));
    }
  }

  lemma CollectBNKeeps(flits: nat, s: MulState, fs: seq<Factors>, got1: seq<Limb>, got2: seq<Limb>, sent: seq<Flit>)
    requires History(flits, s, fs, got1, got2, sent)
    ensures History(flits, CollectBN(flits, s), fs, got1, got2, sent)
  {
    CollectBNWaiting(flits, s);
    hide FirstStream, SecondStream, SentFits, FlitLanes, Waiting2, CollectBN;
    SentUnchanged(flits, s, CollectBN(flits, s), fs, sent);
  }

  function FinishedWith(flits: nat, t: MulState, fs: seq<Factors>): seq<Factors> {
    if AllHere(flits, t) && t.outIdx + 1 == flits then fs + [FactorsOf(t)] else fs
  }

  lemma StreamsExtend(flits: nat, fs: seq<Factors>, f: Factors)
    requires SizedFactors(flits, fs) && |f.a| == |f.b| == |f.n| == 4 * flits
    ensures SizedFactors(flits, fs + [f])
    ensures FirstStream(fs + [f]) == FirstStream(fs) + f.a && SecondStream(fs + [f]) == SecondStream(fs) + BThenN(f)
    ensures PromisedAll(fs + [f]) == PromisedAll(fs) + [Promised(f)]
  {
    hide Product;
    assert (fs + [f])[..|fs|] == fs;
  }

  /** The last flit of a product empties the buffers into the finished factors. */
  lemma LastFlitParts(flits: nat, t: MulState)
    requires MulShape(flits, t) && AllHere(flits, t) && t.outIdx + 1 == flits
    ensures var f, s' := FactorsOf(t), Sent(flits, t);
      && MulShape(flits, s') && |f.a| == |f.b| == |f.n| == 4 * flits && s'.outIdx == 0 && FactorsOf(s') == f
      && Waiting1(t) == f.a + Waiting1(s') && Waiting2(t) == BThenN(f) + Waiting2(s')
  {
    hide FlitLanes;
    assert t.a[..4 * flits] == t.a && t.b[..4 * flits] == t.b && t.n[..4 * flits] == t.n;
  }

  lemma SentLast(flits: nat, t: MulState, fs: seq<Factors>, sent: seq<Flit>, x: Flit)
    requires SentFits(flits, t, fs, sent) && SizedFactors(flits, fs)
    requires MulShape(flits, t) && AllHere(flits, t) && t.outIdx + 1 == flits
    requires IsOdd(t.n) ==> x == OutFlit(flits, Product(FactorsOf(t)), t.outIdx)
    ensures SentFits(flits, Sent(flits, t), fs + [FactorsOf(t)], sent + [x])
  {
    hide Product, Delivered, PromisedAll, OutFlit;
    var f := FactorsOf(t);
    StreamsExtend(flits, fs, f);
    DeliveredFlit(flits, PromisedAll(fs), Promised(f), t.outIdx, sent, x);
    DeliveredJob(flits, PromisedAll(fs), Promised(f), sent + [x]);
    DeliveredNext(flits, PromisedAll(fs) + [Promised(f)], None, Promised(f), sent + [x]);
  }

  lemma LastFlit(flits: nat, t: MulState, fs: seq<Factors>, got1: seq<Limb>, got2: seq<Limb>, sent: seq<Flit>, x: Flit)
    requires History(flits, t, fs, got1, got2, sent) && AllHere(flits, t) && t.outIdx + 1 == flits
    requires IsOdd(t.n) ==> x == OutFlit(flits, Product(FactorsOf(t)), t.outIdx)
    ensures History(flits, Sent(flits, t), fs + [FactorsOf(t)], got1, got2, sent + [x])
  {
    var f, s' := FactorsOf(t), Sent(flits, t);
    LastFlitParts(flits, t);
    SentLast(flits, t, fs, sent, x);
    hide Product, FirstStream, SecondStream, OutFlit, SentFits, SizedFactors, Waiting1, Waiting2, BThenN, Sent;
    StreamsExtend(flits, fs, f);
    Regroup(FirstStream(fs), f.a, Waiting1(s'));
    Regroup(SecondStream(fs), BThenN(f), Waiting2(s'));
  }

  lemma EarlierFlit(flits: nat, t: MulState, fs: seq<Factors>, got1: seq<Limb>, got2: seq<Limb>, sent: seq<Flit>, x: Flit)
    requires History(flits, t, fs, got1, got2, sent) && AllHere(flits, t) && t.outIdx + 1 < flits
    requires IsOdd(t.n) ==> x == OutFlit(flits, Product(FactorsOf(t)), t.outIdx)
    ensures History(flits, Sent(flits, t), fs, got1, got2, sent + [x])
  {
    hide Product, FirstStream, SecondStream, FlitLanes, OutFlit, Delivered, PromisedAll, SizedFactors;
    DeliveredFlit(flits, PromisedAll(fs), Promised(FactorsOf(t)), t.outIdx, sent, x);
  }

  lemma EmitKeeps(flits: nat, t: MulState, s': MulState, out: Option<Flit>,
                  fs: seq<Factors>, got1: seq<Limb>, got2: seq<Limb>, sent: seq<Flit>)
    requires History(flits, t, fs, got1, got2, sent) && EmitsProduct(flits, t, s', out)
    ensures History(flits, s', FinishedWith(flits, t, fs), got1, got2, sent + if out.Some? then [out.value] else [])
  {
    ShapeIn(flits, t, fs, got1, got2, sent);
    hide History, Product, OutFlit;
    if AllHere(flits, t) {
      if t.outIdx + 1 == flits {
        LastFlit(flits, t, fs, got1, got2, sent, out.value);
      } else {
        EarlierFlit(flits, t, fs, got1, got2, sent, out.value);
      }
    } else {
      assert sent + [] == sent;
    }
  }

  /** The handler, on a state whose latches are already filled. */
  ghost predicate HandlerCall(flits: nat, s: MulState, s': MulState, out: Option<Flit>)
    requires |s.a| == |s.b| == |s.n| == 4 * flits
  {
    EmitsProduct(flits, CollectBN(flits, CollectA(flits, s)), s', out)
  }

  lemma ArrivedShape(flits: nat, s: MulState, a1: Option<Flit>, a2: Option<Flit>)
    requires MulShape(flits, s)
    ensures MulShape(flits, Arrive(s, a1, a2)) && |s.a| == |s.b| == |s.n| == 4 * flits
  {
  }

  lemma CollectedShape(flits: nat, s: MulState)
    requires MulShape(flits, s)
    ensures MulShape(flits, CollectBN(flits, CollectA(flits, s)))
  {
    hide Stored;
  }

  /** One iteration of the wrapper keeps the history, and a product is finished when its last flit is sent. */
  lemma CallKeeps(flits: nat, s: MulState, a1: Option<Flit>, a2: Option<Flit>, s': MulState, out: Option<Flit>,
                  fs: seq<Factors>, got1: seq<Limb>, got2: seq<Limb>, sent: seq<Flit>)
    requires History(flits, s, fs, got1, got2, sent) && MayArrive(s.in1, a1) && MayArrive(s.in2, a2)
    requires |s.a| == |s.b| == |s.n| == 4 * flits && HandlerCall(flits, Arrive(s, a1, a2), s', out)
    ensures History(flits, s', FinishedWith(flits, CollectBN(flits, CollectA(flits, Arrive(s, a1, a2))), fs),
                    got1 + FlitLanes(a1), got2 + FlitLanes(a2), sent + if out.Some? then [out.value] else [])
  {
    hide History, EmitsProduct, CollectA, CollectBN;
    var l := Arrive(s, a1, a2);
    ArriveKeeps(flits, s, a1, a2, fs, got1, got2, sent);
    CollectAKeeps(flits, l, fs, got1 + FlitLanes(a1), got2 + FlitLanes(a2), sent);
    CollectedSizes(flits, l);
    CollectBNKeeps(flits, CollectA(flits, l), fs, got1 + FlitLanes(a1), got2 + FlitLanes(a2), sent);
    EmitKeeps(flits, CollectBN(flits, CollectA(flits, l)), s', out, fs, got1 + FlitLanes(a1), got2 + FlitLanes(a2), sent);
  }

  /** A call sends a flit exactly when the operands of the product under way have all arrived. */
  lemma CallSends(flits: nat, s: MulState, a1: Option<Flit>, a2: Option<Flit>, s': MulState, out: Option<Flit>,
                  fs: seq<Factors>, got1: seq<Flit>, got2: seq<Flit>, sent: seq<Flit>)
    requires History(flits, s, fs, LanesOf(got1), LanesOf(got2), sent) && MayArrive(s.in1, a1) && MayArrive(s.in2, a2)
    requires |s.a| == |s.b| == |s.n| == 4 * flits && HandlerCall(flits, Arrive(s, a1, a2), s', out)
    ensures var g1, g2 := got1 + (if a1.Some? then [a1.value] else []), got2 + (if a2.Some? then [a2.value] else []);
      out.Some? <==> |g1| >= Taken(|fs|, flits) + flits && |g2| >= 2 * Taken(|fs|, flits) + 2 * flits
  {
    hide History, CollectA, CollectBN, LanesOf, MulShape, Taken;
    var l := Arrive(s, a1, a2);
    var g1, g2 := got1 + (if a1.Some? then [a1.value] else []), got2 + (if a2.Some? then [a2.value] else []);
    LanesArrive(got1, a1);
    LanesArrive(got2, a2);
    ArriveKeeps(flits, s, a1, a2, fs, LanesOf(got1), LanesOf(got2), sent);
    CollectAKeeps(flits, l, fs, LanesOf(g1), LanesOf(g2), sent);
    CollectedSizes(flits, l);
    CollectBNKeeps(flits, CollectA(flits, l), fs, LanesOf(g1), LanesOf(g2), sent);
    ShapeIn(flits, l, fs, LanesOf(g1), LanesOf(g2), sent);
    CollectDrains(flits, l);
    var t := CollectBN(flits, CollectA(flits, l));
    GotLengths(flits, t, fs, g1, g2, sent);
    hide SizedFactors, FirstStream, SecondStream, Waiting1, Waiting2;
    AllHereIff(flits, t, fs, |g1|, |g2|);
    OutIdxBelow(flits, t);
  }

  lemma OutIdxBelow(flits: nat, t: MulState)
    requires MulShape(flits, t)
    ensures t.outIdx < flits
  {
  }

  lemma CollectedSizes(flits: nat, s: MulState)
    requires |s.a| == |s.b| == |s.n| == 4 * flits
    ensures var t := CollectA(flits, s); |t.b| == |t.n| == 4 * flits
  {
  }

  lemma ShapeIn(flits: nat, t: MulState, fs: seq<Factors>, got1: seq<Limb>, got2: seq<Limb>, sent: seq<Flit>)
    requires History(flits, t, fs, got1, got2, sent)
    ensures MulShape(flits, t) && |t.a| == |t.b| == |t.n| == 4 * flits
  {
  }

  // ---- when a product is sent -----------------------------------------------------------------------------

  /** After the two collections a flit is left in a latch only when the operands of its port are complete. */
  lemma CollectDrains(flits: nat, s: MulState)
    requires MulShape(flits, s)
    ensures var t := CollectBN(flits, CollectA(flits, s));
      MulShape(flits, t) && (t.in1.Some? ==> t.aIdx == flits) && (t.in2.Some? ==> t.bIdx == flits && t.nIdx == flits)
  {
    hide Stored;
  }

  function Latches(a: Option<Flit>): nat { if a.Some? then 1 else 0 }

  lemma WaitingLengths(flits: nat, s: MulState)
    requires MulShape(flits, s)
    ensures |Waiting1(s)| == 4 * (s.aIdx + Latches(s.in1)) && |Waiting2(s)| == 4 * (s.bIdx + s.nIdx + Latches(s.in2))
  {
  }

  lemma GotLengths(flits: nat, t: MulState, fs: seq<Factors>, got1: seq<Flit>, got2: seq<Flit>, sent: seq<Flit>)
    requires History(flits, t, fs, LanesOf(got1), LanesOf(got2), sent)
    ensures SizedFactors(flits, fs) && MulShape(flits, t)
    ensures 4 * |got1| == |FirstStream(fs)| + |Waiting1(t)| && 4 * |got2| == |SecondStream(fs)| + |Waiting2(t)|
  {
    hide SentFits, SizedFactors, FirstStream, SecondStream, LanesOf, Waiting1, Waiting2;
  }

  /** The flits that n operands take. */
  function Taken(n: nat, flits: nat): int { n * flits }

  lemma StreamCounts(flits: nat, fs: seq<Factors>)
    requires SizedFactors(flits, fs)
    ensures |FirstStream(fs)| == 4 * Taken(|fs|, flits) && |SecondStream(fs)| == 8 * Taken(|fs|, flits)
  {
    StreamLengths(flits, fs);
    Multiples(|fs|, flits);
    hide FirstStream, SecondStream, SizedFactors;
  }

  lemma Multiples(n: nat, f: nat)
    ensures n * (4 * f) == 4 * (n * f) && n * (8 * f) == 8 * (n * f)
  {
  }

  lemma CountFirst(flits: nat, t: MulState, fs: seq<Factors>, n: nat)
    requires SizedFactors(flits, fs) && MulShape(flits, t) && 4 * n == |FirstStream(fs)| + |Waiting1(t)|
    ensures n == Taken(|fs|, flits) + (t.aIdx + Latches(t.in1))
  {
    hide SizedFactors, FirstStream, SecondStream, Waiting1, Waiting2, Latches, MulShape, Taken;
    WaitingLengths(flits, t);
    StreamCounts(flits, fs);
  }

  lemma CountSecond(flits: nat, t: MulState, fs: seq<Factors>, n: nat)
    requires SizedFactors(flits, fs) && MulShape(flits, t) && 4 * n == |SecondStream(fs)| + |Waiting2(t)|
    ensures n == 2 * Taken(|fs|, flits) + (t.bIdx + t.nIdx + Latches(t.in2))
  {
    hide SizedFactors, FirstStream, SecondStream, Waiting1, Waiting2, Latches, MulShape, Taken;
    WaitingLengths(flits, t);
    StreamCounts(flits, fs);
  }

  /** The operands of the next product are all there exactly when that many flits have arrived. */
  lemma AllHereIff(flits: nat, t: MulState, fs: seq<Factors>, n1: nat, n2: nat)
    requires SizedFactors(flits, fs) && MulShape(flits, t)
    requires 4 * n1 == |FirstStream(fs)| + |Waiting1(t)| && 4 * n2 == |SecondStream(fs)| + |Waiting2(t)|
    requires (t.in1.Some? ==> t.aIdx == flits) && (t.in2.Some? ==> t.bIdx == flits && t.nIdx == flits)
    ensures AllHere(flits, t) <==> n1 >= Taken(|fs|, flits) + flits && n2 >= 2 * Taken(|fs|, flits) + 2 * flits
  {
    hide SizedFactors, FirstStream, SecondStream, Waiting1, Waiting2, Latches, MulShape, Taken;
    CountFirst(flits, t, fs, n1);
    CountSecond(flits, t, fs, n2);
    FullIff(flits, t, n1, n2, Taken(|fs|, flits));
  }

  lemma FullIff(flits: nat, t: MulState, x: nat, y: nat, base: int)
    requires MulShape(flits, t) && x == base + (t.aIdx + Latches(t.in1)) && y == 2 * base + (t.bIdx + t.nIdx + Latches(t.in2))
    requires (t.in1.Some? ==> t.aIdx == flits) && (t.in2.Some? ==> t.bIdx == flits && t.nIdx == flits)
    ensures AllHere(flits, t) <==> x >= base + flits && y >= 2 * base + 2 * flits
  {
    BothFull(t.aIdx, Latches(t.in1), t.bIdx, t.nIdx, Latches(t.in2), flits, x, y, base, 2 * base);
  }

  lemma BothFull(a: nat, l1: nat, b: nat, n: nat, l2: nat, f: nat, x: nat, y: nat, p: int, q: int)
    requires x == p + (a + l1) && y == q + (b + n + l2) && a <= f && b <= f && n <= f && l1 <= 1 && l2 <= 1
    requires (l1 > 0 ==> a == f) && (l2 > 0 ==> b == f && n == f)
    ensures (a == f && b == f && n == f) <==> x >= p + f && y >= q + 2 * f
  {
  }

  // ---- the k-th product ------------------------------------------------------------------------------------

  lemma {:induction false} StreamLengths(flits: nat, fs: seq<Factors>)
    requires SizedFactors(flits, fs)
    ensures |FirstStream(fs)| == |fs| * (4 * flits) && |SecondStream(fs)| == |fs| * (8 * flits)
  {
    if fs != [] {
      StreamLengths(flits, fs[..|fs| - 1]);
      GroupStart(|fs| - 1, |fs|, 4 * flits);
      GroupStart(|fs| - 1, |fs|, 8 * flits);
    }
  }

  lemma {:induction false} KthFirst(flits: nat, fs: seq<Factors>, k: nat, rest: seq<Limb>)
    requires SizedFactors(flits, fs) && k < |fs|
    ensures IsGroup(FirstStream(fs) + rest, k, fs[k].a)
    decreases |fs|
  {
    var n := |fs| - 1;
    var init, last := fs[..n], fs[n].a;
    StreamLengths(flits, init);
    hide IsGroup;
    if k < n {
      KthFirst(flits, init, k, []);
      assert FirstStream(init) + [] == FirstStream(init);
    }
    GroupOf(FirstStream(init), last, rest, n, k, fs[k].a);
  }

  lemma {:induction false} KthSecond(flits: nat, fs: seq<Factors>, k: nat, rest: seq<Limb>)
    requires SizedFactors(flits, fs) && k < |fs|
    ensures IsGroup(SecondStream(fs) + rest, k, BThenN(fs[k]))
    decreases |fs|
  {
    var n := |fs| - 1;
    var init, last := fs[..n], BThenN(fs[n]);
    StreamLengths(flits, init);
    hide IsGroup;
    if k < n {
      KthSecond(flits, init, k, []);
      assert SecondStream(init) + [] == SecondStream(init);
    }
    GroupOf(SecondStream(init), last, rest, n, k, BThenN(fs[k]));
  }

  /**
   * Whatever the other operands are: product k took the k-th a and the k-th b and n that arrived, each product
   * is sent in exactly `flits` flits, and if its modulus is odd the k-th group of them is the framed product.
   */
  lemma KthProduct(flits: nat, s: MulState, fs: seq<Factors>, got1: seq<Limb>, got2: seq<Limb>, sent: seq<Flit>, k: nat)
    requires History(flits, s, fs, got1, got2, sent) && k < |fs|
    ensures |fs[k].a| == |fs[k].b| == |fs[k].n| == 4 * flits
    ensures IsGroup(got1, k, fs[k].a) && IsGroup(got2, k, BThenN(fs[k]))
    ensures |sent| == |fs| * flits + s.outIdx
    ensures IsOdd(fs[k].n) ==> IsGroup(sent, k, Framed(flits, Product(fs[k]), flits))
  {
    hide IsGroup, Product, Framed, FirstStream, SecondStream;
    KthFirst(flits, fs, k, Waiting1(s));
    KthSecond(flits, fs, k, Waiting2(s));
    assert PromisedAll(fs)[k] == Promised(fs[k]);
  }

  // ---- the element ------------------------------------------------------------------------------------------

  class MontMul1024 {
    const flits: nat
    const aBuf: array<Limb>
    const bBuf: array<Limb>
    const nBuf: array<Limb>
    const cBuf: array<Limb>
    var aIdx: nat
    var bIdx: nat
    var nIdx: nat
    var outIdx: nat
    // input latches of the wrapper
    var in1: Option<Flit>
    var in2: Option<Flit>
    // everything that arrived on each port, everything sent, and the operands of the finished products
    ghost var got1: seq<Flit>
    ghost var got2: seq<Flit>
    ghost var sent: seq<Flit>
    ghost var finished: seq<Factors>

    ghost predicate Apart() {
      && flits > 0 && aBuf.Length == bBuf.Length == nBuf.Length == cBuf.Length == 4 * flits
      && aBuf != bBuf && aBuf != nBuf && aBuf != cBuf && bBuf != nBuf && bBuf != cBuf && nBuf != cBuf
    }

    ghost function Abs(): MulState
      reads this, aBuf, bBuf, nBuf
    {
      MulState(aIdx, bIdx, nIdx, outIdx, aBuf[..], bBuf[..], nBuf[..], in1, in2)
    }

    ghost predicate Valid()
      reads this, aBuf, bBuf, nBuf
    {
      Apart() && History(flits, Abs(), finished, LanesOf(got1), LanesOf(got2), sent)
    }

    constructor (flits: nat)
      requires flits > 0
      ensures Valid() && this.flits == flits && got1 == [] && got2 == [] && sent == [] && finished == []
      ensures fresh(aBuf) && fresh(bBuf) && fresh(nBuf) && fresh(cBuf)
    {
      this.flits := flits;
      aBuf, bBuf := new Limb[4 * flits](_ => 0), new Limb[4 * flits](_ => 0);
      nBuf, cBuf := new Limb[4 * flits](_ => 0), new Limb[4 * flits](_ => 0);
      aIdx, bIdx, nIdx, outIdx := 0, 0, 0, 0;
      in1, in2 := None, None;
      got1, got2, sent, finished := [], [], [], [];
      new;
      NothingDelivered(flits, Promised(FactorsOf(Abs())));
      hide Product, Delivered;
    }

    method Collect()
      requires Apart() && MulShape(flits, Abs())
      modifies this`aIdx, this`bIdx, this`nIdx, this`in1, this`in2, aBuf, bBuf, nBuf
      ensures Abs() == CollectBN(flits, CollectA(flits, old(Abs())))
    {
      hide Stored;
      if aIdx < flits && in1.Some? {
        StoreFlit(aBuf, aIdx, in1.value);
        in1 := None;
        aIdx := aIdx + 1;
      }
      if bIdx < flits && in2.Some? {
        StoreFlit(bBuf, bIdx, in2.value);
        in2 := None;
        bIdx := bIdx + 1;
      } else if bIdx == flits && nIdx < flits && in2.Some? {
        StoreFlit(nBuf, nIdx, in2.value);
        in2 := None;
        nIdx := nIdx + 1;
      }
    }

    /** One product, computed anew on every call that sends a flit of it. */
    method Multiply() returns (c: seq<Limb>)
      requires Apart()
      modifies cBuf
      ensures |c| == 4 * flits && cBuf[..] == c
      ensures IsOdd(nBuf[..]) ==> c == Product(FactorsOf(Abs()))
    {
      hide Val, Radix, IsNegInv, Cong, MontProduct;
      var a, b, n := aBuf[..], bBuf[..], nBuf[..];
      var nInv := ComputeNInv(n);
      c := MontMul(a, b, n, nInv);
      CopyInto(cBuf, c);
      if IsOdd(n) {
        OddVal(n);
        ProductIs(c, Factors(a, b, n));
      }
    }

    method Emit() returns (out: Option<Flit>)
      requires Apart() && MulShape(flits, Abs())
      modifies this`aIdx, this`bIdx, this`nIdx, this`outIdx, cBuf
      ensures EmitsProduct(flits, old(Abs()), Abs(), out)
    {
      hide Product, IsOdd;
      out := None;
      if aIdx == flits && bIdx == flits && nIdx == flits && outIdx < flits {
        var c := Multiply();
        out := Some(Flit(cBuf[outIdx * 4], cBuf[outIdx * 4 + 1], cBuf[outIdx * 4 + 2], cBuf[outIdx * 4 + 3],
                         outIdx == 0, outIdx + 1 == flits));
        assert out == Some(OutFlit(flits, c, outIdx));
        outIdx := outIdx + 1;
        if outIdx == flits {
          aIdx, bIdx, nIdx, outIdx := 0, 0, 0, 0;
        }
      }
    }

    method Handler() returns (out: Option<Flit>)
      requires Apart() && MulShape(flits, Abs())
      modifies this`aIdx, this`bIdx, this`nIdx, this`outIdx, this`in1, this`in2, aBuf, bBuf, nBuf, cBuf
      ensures HandlerCall(flits, old(Abs()), Abs(), out)
    {
      hide EmitsProduct;
      CollectedShape(flits, Abs());
      Collect();
      out := Emit();
    }

    /** One wrapper iteration: read into the free latches, then call the handler. */
    method Advance(a1: Option<Flit>, a2: Option<Flit>) returns (out: Option<Flit>)
      requires Apart() && MulShape(flits, Abs())
      modifies this`aIdx, this`bIdx, this`nIdx, this`outIdx, this`in1, this`in2, aBuf, bBuf, nBuf, cBuf
      ensures HandlerCall(flits, Arrive(old(Abs()), a1, a2), Abs(), out)
    {
      hide HandlerCall, MulShape;
      ArrivedShape(flits, Abs(), a1, a2);
      if in1.None? { in1 := a1; }
      if in2.None? { in2 := a2; }
      out := Handler();
    }

    /** The same iteration, recorded in the history. */
    method Iterate(a1: Option<Flit>, a2: Option<Flit>) returns (out: Option<Flit>)
      requires Valid() && MayArrive(in1, a1) && MayArrive(in2, a2)
      modifies this, aBuf, bBuf, nBuf, cBuf
      ensures Valid()
      ensures got1 == old(got1) + (if a1.Some? then [a1.value] else []) && got2 == old(got2) + (if a2.Some? then [a2.value] else [])
      ensures sent == old(sent) + if out.Some? then [out.value] else []
      ensures old(finished) <= finished
      ensures out.Some? <==>
        |got1| >= Taken(|old(finished)|, flits) + flits && |got2| >= 2 * Taken(|old(finished)|, flits) + 2 * flits
    {
      hide MulShape, History, HandlerCall, CollectBN, FlitLanes, Stored, Taken, LanesOf;
      ghost var s := Abs();
      ShapeIn(flits, s, finished, LanesOf(got1), LanesOf(got2), sent);
      out := Advance(a1, a2);
      CallKeeps(flits, s, a1, a2, Abs(), out, finished, LanesOf(got1), LanesOf(got2), sent);
      CallSends(flits, s, a1, a2, Abs(), out, finished, got1, got2, sent);
      finished := FinishedWith(flits, CollectBN(flits, CollectA(flits, Arrive(s, a1, a2))), finished);
      LanesArrive(got1, a1);
      LanesArrive(got2, a2);
      got1, got2 := got1 + (if a1.Some? then [a1.value] else []), got2 + (if a2.Some? then [a2.value] else []);
      sent := sent + if out.Some? then [out.value] else [];
    }

    /**
     * On the flits themselves: with a, b and n the numbers carried by group k of the flits that arrived on port 1
     * and by groups 2 k and 2 k + 1 of those that arrived on port 2, group k of the flits sent carries the exact
     * Montgomery product if n is odd, framed at its ends.
     */
    lemma SendsProducts(k: nat)
      requires Valid() && k < |finished|
      ensures 0 <= k * flits <= k * flits + flits <= |got1| && 2 * k * flits + 2 * flits <= |got2| && k * flits + flits <= |sent|
      ensures var a, b, n := GroupNumber(got1, flits, k), GroupNumber(got2, flits, 2 * k), GroupNumber(got2, flits, 2 * k + 1);
        && a >= 0 && b >= 0 && n >= 0 && a * b >= 0
        && (n % 2 == 1 ==> GroupNumber(sent, flits, k) == MontValue(a * b, n, 4 * flits) && FlagsAtEnds(sent[k * flits..k * flits + flits]))
    {
      hide History, IsGroup, GroupNumber, MontValue, LanesOf, Product, Framed, FlitsValue;
      KthProduct(flits, Abs(), finished, LanesOf(got1), LanesOf(got2), sent, k);
      KthNumbers(flits, finished[k], |finished|, got1, got2, sent, k, outIdx);
    }
  }

  lemma KthNumbers(flits: nat, f: Factors, count: nat, got1: seq<Flit>, got2: seq<Flit>, sent: seq<Flit>, k: nat, i: nat)
    requires flits > 0 && |f.a| == |f.b| == |f.n| == 4 * flits && k < count && |sent| == count * flits + i
    requires IsGroup(LanesOf(got1), k, f.a) && IsGroup(LanesOf(got2), k, BThenN(f))
    requires IsOdd(f.n) ==> IsGroup(sent, k, Framed(flits, Product(f), flits))
    ensures 0 <= k * flits <= k * flits + flits <= |got1| && 2 * k * flits + 2 * flits <= |got2| && k * flits + flits <= |sent|
    ensures var a, b, n := GroupNumber(got1, flits, k), GroupNumber(got2, flits, 2 * k), GroupNumber(got2, flits, 2 * k + 1);
      && a >= 0 && b >= 0 && n >= 0 && a * b >= 0
      && (n % 2 == 1 ==> GroupNumber(sent, flits, k) == MontValue(a * b, n, 4 * flits) && FlagsAtEnds(sent[k * flits..k * flits + flits]))
  {
    hide GroupNumber, MontValue, LanesOf, Product, Framed, FlitsValue, IsGroup, Val;
    GroupOperand(got1, flits, k, f.a);
    HalfGroups(LanesOf(got2), k, f.b, f.n);
    GroupOperand(got2, flits, 2 * k, f.b);
    GroupOperand(got2, flits, 2 * k + 1, f.n);
    OddGroup(k, flits);
    GroupStart(k, count, flits);
    MulMono(0, Val(f.a), 0, Val(f.b));
    ParityOfVal(f.n);
    if IsOdd(f.n) {
      FramedGroup(sent, flits, k, Product(f));
      ProductValue(f);
    }
  }

  lemma OddGroup(k: nat, f: nat)
    ensures (2 * k + 1) * f + f == 2 * k * f + 2 * f
  {
  }

  lemma ProductValue(f: Factors)
    requires IsOdd(f.n) && |f.a| == |f.b| == |f.n|
    ensures Val(f.n) % 2 == 1 && Val(f.a) * Val(f.b) >= 0
    ensures Val(Product(f)) == MontValue(Val(f.a) * Val(f.b), Val(f.n), |f.n|)
  {
    OddVal(f.n);
    hide Val, Radix, MontValue;
    MulMono(0, Val(f.a), 0, Val(f.b));
    ValBound(f.a);
    ValBound(f.b);
    ValBound(f.n);
    ProductFits(Val(f.a) * Val(f.b), Val(f.a), Val(f.b), Val(f.n), |f.n|);
    ToLimbsVal(MontValue(Val(f.a) * Val(f.b), Val(f.n), |f.n|), |f.n|);
  }

  lemma LanesArrive(fs: seq<Flit>, a: Option<Flit>)
    ensures LanesOf(fs + if a.Some? then [a.value] else []) == LanesOf(fs) + FlitLanes(a)
  {
    if a.Some? {
      LanesOfOne(fs, a.value);
    } else {
      assert fs + [] == fs;
    }
    hide Lanes;
  }
}
