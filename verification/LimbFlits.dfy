/** Flits that carry four limbs: latches, operand buffers, and results sent out one flit at a time. */
module LimbFlits {
  import opened Arith
  import opened Limbs
  import opened Options

  /** Four 64-bit lanes of payload and the frame flags. */
  datatype Flit = Flit(l0: Limb, l1: Limb, l2: Limb, l3: Limb, sop: bool, eop: bool)

  function Lanes(f: Flit): (s: seq<Limb>)
    ensures |s| == 4
  {
    [f.l0, f.l1, f.l2, f.l3]
  }

  function FlitLanes(a: Option<Flit>): seq<Limb> {
    if a.Some? then Lanes(a.value) else []
  }

  // ---- latches and buffers ------------------------------------------------------------------

  /** A stream is read only into an empty latch. */
  predicate MayArrive(latch: Option<Flit>, a: Option<Flit>) {
    latch.None? || a.None?
  }

  function Latched(latch: Option<Flit>, a: Option<Flit>): Option<Flit> {
    if latch.None? then a else latch
  }

  predicate Takes(flits: nat, idx: nat, latch: Option<Flit>) {
    idx < flits && latch.Some?
  }

  function Stored(buf: seq<Limb>, idx: nat, f: Flit): (r: seq<Limb>)
    requires 4 * idx + 4 <= |buf|
    ensures |r| == |buf|
  {
    buf[..4 * idx] + Lanes(f) + buf[4 * idx + 4..]
  }

  lemma TakenPending(buf: seq<Limb>, idx: nat, f: Flit)
    requires 4 * idx + 4 <= |buf|
    ensures Stored(buf, idx, f)[..4 * (idx + 1)] + FlitLanes(None) == buf[..4 * idx] + FlitLanes(Some(f))
  {
  }

  /** Copy the four lanes of f to position 4 * idx of a buffer. */
  method StoreFlit(buf: array<Limb>, idx: nat, f: Flit)
    requires 4 * idx + 4 <= buf.Length
    modifies buf
    ensures buf[..] == Stored(old(buf[..]), idx, f)
  {
    var lanes := Lanes(f);
    for i := 0 to 4
      invariant forall k :: 0 <= k < i ==> buf[4 * idx + k] == lanes[k]
      invariant forall k :: 0 <= k < buf.Length && !(4 * idx <= k < 4 * idx + i) ==> buf[k] == old(buf[k])
    {
      buf[4 * idx + i] := lanes[i];
    }
  }

  // ---- results --------------------------------------------------------------------------------

  function OutFlit(flits: nat, c: seq<Limb>, i: nat): Flit
    requires 4 * i + 4 <= |c|
  {
    Flit(c[4 * i], c[4 * i + 1], c[4 * i + 2], c[4 * i + 3], i == 0, i + 1 == flits)
  }

  /** The first k flits of a framed result: start flag on the first flit, end flag on the last. */
  function Framed(flits: nat, c: seq<Limb>, k: nat): (fs: seq<Flit>)
    requires k <= flits && |c| == 4 * flits
    ensures |fs| == k
  {
    if k == 0 then [] else Framed(flits, c, k - 1) + [OutFlit(flits, c, k - 1)]
  }

  /** Where group k of size f starts, and that k groups more fit below n groups. */
  lemma GroupStart(k: nat, n: nat, f: nat)
    requires k < n
    ensures 0 <= k * f && k * f + f <= n * f && (n - 1) * f + f == n * f
    ensures k + 1 < n ==> k * f + f <= (n - 1) * f
  {
    MulMono(k + 1, n, f, f);
    assert (k + 1) * f == k * f + f;
    assert n * f == (n - 1) * f + f;
    if k + 1 < n {
      MulMono(k + 1, n - 1, f, f);
    }
  }

  /** Is `group` the k-th group of its size in `all`? */
  ghost predicate IsGroup<T>(all: seq<T>, k: nat, group: seq<T>) {
    var from := k * |group|;
    0 <= from && from + |group| <= |all| && all[from..from + |group|] == group
  }

  lemma LastGroup<T>(init: seq<T>, last: seq<T>, rest: seq<T>, k: nat)
    requires |init| == k * |last|
    ensures IsGroup(init + last + rest, k, last)
  {
  }

  lemma EarlierGroup<T>(init: seq<T>, rest: seq<T>, k: nat, group: seq<T>)
    requires IsGroup(init, k, group)
    ensures IsGroup(init + rest, k, group)
  {
  }

  lemma Regroup<T>(a: seq<T>, b: seq<T>, c: seq<T>)
    ensures a + (b + c) == (a + b) + c
  {
  }

  lemma GroupOf<T>(s: seq<T>, last: seq<T>, rest: seq<T>, n: nat, k: nat, group: seq<T>)
    requires |s| == n * |last| && (k < n ==> IsGroup(s, k, group)) && (k == n ==> group == last) && k <= n
    ensures IsGroup(s + last + rest, k, group)
  {
    if k < n {
      hide IsGroup;
      EarlierGroup(s, last + rest, k, group);
      Regroup(s, last, rest);
    } else {
      LastGroup(s, last, rest, k);
    }
  }

  /** Results that are known, each of the operand width. */
  ghost predicate SizedResults(flits: nat, want: seq<Option<seq<Limb>>>) {
    forall k :: 0 <= k < |want| && want[k].Some? ==> |want[k].value| == 4 * flits
  }

  ghost predicate SizedResult(flits: nat, c: Option<seq<Limb>>) {
    c.Some? ==> |c.value| == 4 * flits
  }

  /**
   * What was sent is one group of flits for each finished job and i flits of the current one. Where the result
   * of a job is known, its group is that result, framed; nothing is asked of the groups of the other jobs.
   */
  ghost predicate Delivered(flits: nat, want: seq<Option<seq<Limb>>>, current: Option<seq<Limb>>, i: nat, sent: seq<Flit>)
    requires i <= flits && SizedResults(flits, want) && SizedResult(flits, current)
  {
    var done := |want| * flits;
    && 0 <= done && |sent| == done + i
    && (forall k :: 0 <= k < |want| && want[k].Some? ==> IsGroup(sent, k, Framed(flits, want[k].value, flits)))
    && (current.Some? ==> sent[done..] == Framed(flits, current.value, i))
  }

  lemma NothingDelivered(flits: nat, current: Option<seq<Limb>>)
    requires SizedResult(flits, current)
    ensures Delivered(flits, [], current, 0, [])
  {
  }

  /** Before its first flit, the current job may be any. */
  lemma DeliveredNext(flits: nat, want: seq<Option<seq<Limb>>>, current: Option<seq<Limb>>, next: Option<seq<Limb>>, sent: seq<Flit>)
    requires SizedResults(flits, want) && SizedResult(flits, current) && SizedResult(flits, next)
    requires Delivered(flits, want, current, 0, sent)
    ensures Delivered(flits, want, next, 0, sent)
  {
    hide IsGroup;
  }

  /** One more flit of the current job. */
  lemma DeliveredFlit(flits: nat, want: seq<Option<seq<Limb>>>, current: Option<seq<Limb>>, i: nat, sent: seq<Flit>, f: Flit)
    requires i < flits && SizedResults(flits, want) && SizedResult(flits, current)
    requires Delivered(flits, want, current, i, sent)
    requires current.Some? ==> f == OutFlit(flits, current.value, i)
    ensures Delivered(flits, want, current, i + 1, sent + [f])
  {
    hide OutFlit;
    var done := |want| * flits;
    forall k | 0 <= k < |want| && want[k].Some?
      ensures IsGroup(sent + [f], k, Framed(flits, want[k].value, flits))
    {
      EarlierGroup(sent, [f], k, Framed(flits, want[k].value, flits));
    }
    assert (sent + [f])[done..] == sent[done..] + [f];
    hide IsGroup;
  }

  /** After its last flit the current job is a finished one. */
  lemma DeliveredJob(flits: nat, want: seq<Option<seq<Limb>>>, current: Option<seq<Limb>>, sent: seq<Flit>)
    requires SizedResults(flits, want) && SizedResult(flits, current)
    requires Delivered(flits, want, current, flits, sent)
    ensures SizedResults(flits, want + [current]) && Delivered(flits, want + [current], None, 0, sent)
  {
    var n, all := |want|, want + [current];
    GroupStart(n, n + 1, flits);
    if current.Some? {
      var done := n * flits;
      assert sent == sent[..done] + Framed(flits, current.value, flits) + [];
      LastGroup(sent[..done], Framed(flits, current.value, flits), [], n);
    }
    hide IsGroup, Framed;
    assert forall k :: 0 <= k < n ==> all[k] == want[k];
  }

  // ---- the number that flits carry ------------------------------------------------------------

  /** Four limbs, lowest first. */
  function FourNumber(x: Limb, y: Limb, z: Limb, w: Limb): int {
    x + WORD * y + WORD * WORD * z + WORD * WORD * WORD * w
  }

  /** Flit i carries the four lanes at 2^(256 i), lane 0 lowest. */
  function FlitsValue(fs: seq<Flit>): int {
    if fs == [] then 0
    else
      var f := fs[|fs| - 1];
      FlitsValue(fs[..|fs| - 1])
      + Radix(4 * (|fs| - 1)) * FourNumber(f.l0, f.l1, f.l2, f.l3)
  }

  /** The start flag is on the first flit and the end flag on the last, and on no other. */
  predicate FlagsAtEnds(fs: seq<Flit>) {
    forall i :: 0 <= i < |fs| ==> (fs[i].sop <==> i == 0) && (fs[i].eop <==> i == |fs| - 1)
  }

  function LanesOf(fs: seq<Flit>): (s: seq<Limb>)
    ensures |s| == 4 * |fs|
  {
    if fs == [] then [] else LanesOf(fs[..|fs| - 1]) + Lanes(fs[|fs| - 1])
  }

  lemma LanesOfOne(fs: seq<Flit>, f: Flit)
    ensures LanesOf(fs + [f]) == LanesOf(fs) + Lanes(f)
  {
    assert (fs + [f])[..|fs|] == fs;
  }

  lemma FourLimbs(x: Limb, y: Limb, z: Limb, w: Limb)
    ensures Val([x, y, z, w]) == FourNumber(x, y, z, w)
  {
    assert [x, y, z, w][1..] == [y, z, w];
    assert [y, z, w][1..] == [z, w];
    assert [z, w][1..] == [w];
    ValOne(w);
    assert Val([z, w]) == z + WORD * w;
    assert Val([y, z, w]) == y + WORD * Val([z, w]);
    assert Val([x, y, z, w]) == x + WORD * Val([y, z, w]);
  }

  lemma {:induction false} LanesValue(fs: seq<Flit>)
    ensures Val(LanesOf(fs)) == FlitsValue(fs)
  {
    if fs == [] {
      ValEmpty();
    } else {
      var init, f := fs[..|fs| - 1], fs[|fs| - 1];
      LanesValue(init);
      hide Val, Radix, FourNumber;
      ValConcat(LanesOf(init), Lanes(f));
      FourLimbs(f.l0, f.l1, f.l2, f.l3);
    }
  }

  lemma {:induction false} LanesOfConcat(fs: seq<Flit>, gs: seq<Flit>)
    ensures LanesOf(fs + gs) == LanesOf(fs) + LanesOf(gs)
    decreases |gs|
  {
    hide Lanes;
    if gs == [] {
      assert fs + gs == fs;
    } else {
      assert (fs + gs)[..|fs + gs| - 1] == fs + gs[..|gs| - 1];
      LanesOfConcat(fs, gs[..|gs| - 1]);
    }
  }

  lemma LanesOfSlice(fs: seq<Flit>, i: nat, j: nat)
    requires i <= j <= |fs|
    ensures LanesOf(fs)[4 * i..4 * j] == LanesOf(fs[i..j])
  {
    hide LanesOf;
    var a, b, c := fs[..i], fs[i..j], fs[j..];
    Rejoined(fs, i, j);
    LanesOfConcat(a, b);
    LanesOfConcat(a + b, c);
    MiddlePart(LanesOf(fs[..i]), LanesOf(fs[i..j]), LanesOf(fs[j..]));
  }

  lemma Rejoined<T>(s: seq<T>, i: nat, j: nat)
    requires i <= j <= |s|
    ensures s == s[..i] + s[i..j] + s[j..]
  {
  }

  lemma MiddlePart<T>(a: seq<T>, b: seq<T>, c: seq<T>)
    ensures (a + b + c)[|a|..|a| + |b|] == b
  {
  }

  lemma FourTimes(k: nat, f: nat, g: nat)
    requires g == 4 * f
    ensures k * g == 4 * (k * f) && k * f >= 0
  {
  }

  lemma GroupSlice<T>(all: seq<T>, k: nat, group: seq<T>, from: int)
    requires IsGroup(all, k, group) && k * |group| == from
    ensures 0 <= from <= from + |group| <= |all| && all[from..from + |group|] == group
  {
  }

  lemma SliceValue(fs: seq<Flit>, from: nat, flits: nat, group: seq<Limb>, at: int)
    requires |group| == 4 * flits && at == 4 * from && from + flits <= |fs|
    requires at + |group| <= |LanesOf(fs)| && LanesOf(fs)[at..at + |group|] == group
    ensures Val(group) == FlitsValue(fs[from..from + flits])
  {
    hide Val, FlitsValue, LanesOf;
    LanesOfSlice(fs, from, from + flits);
    LanesValue(fs[from..from + flits]);
  }

  /** The limbs of group k of a port are the lanes of flits k * flits to (k + 1) * flits of it. */
  lemma GroupValue(fs: seq<Flit>, flits: nat, k: nat, group: seq<Limb>) returns (from: nat)
    requires |group| == 4 * flits && IsGroup(LanesOf(fs), k, group)
    ensures from == k * flits && from + flits <= |fs| && Val(group) == FlitsValue(fs[from..from + flits])
  {
    hide Val, FlitsValue, LanesOf, IsGroup;
    var at := k * |group|;
    FourTimes(k, flits, |group|);
    from := k * flits;
    GroupSlice(LanesOf(fs), k, group, at);
    SliceValue(fs, from, flits, group, at);
  }

  /** The number carried by flits k * flits to (k + 1) * flits. */
  function GroupNumber(fs: seq<Flit>, flits: nat, k: nat): int {
    var from := k * flits;
    if 0 <= from && from + flits <= |fs| then FlitsValue(fs[from..from + flits]) else 0
  }

  lemma GroupNumberAt(fs: seq<Flit>, flits: nat, k: nat, from: int)
    requires from == k * flits && 0 <= from && from + flits <= |fs|
    ensures GroupNumber(fs, flits, k) == FlitsValue(fs[from..from + flits])
  {
    hide FlitsValue;
  }

  lemma GroupOperand(fs: seq<Flit>, flits: nat, k: nat, group: seq<Limb>)
    requires |group| == 4 * flits && IsGroup(LanesOf(fs), k, group)
    ensures 0 <= k * flits <= k * flits + flits <= |fs| && Val(group) == GroupNumber(fs, flits, k)
  {
    hide Val, LanesOf, FlitsValue, IsGroup, GroupNumber;
    var from := GroupValue(fs, flits, k, group);
    GroupNumberAt(fs, flits, k, from);
  }

  /** A group of two operands is two groups of one. */
  lemma HalfGroups(all: seq<Limb>, k: nat, x: seq<Limb>, y: seq<Limb>)
    requires |x| == |y| && IsGroup(all, k, x + y)
    ensures IsGroup(all, 2 * k, x) && IsGroup(all, 2 * k + 1, y)
  {
    var n, from := |x|, k * |x + y|;
    TwiceGroup(k, n, |x + y|);
    GroupSlice(all, k, x + y, from);
    assert all[from..from + n] == (x + y)[..n] && all[from + n..from + n + n] == (x + y)[n..];
  }

  lemma TwiceGroup(k: nat, n: nat, g: nat)
    requires g == 2 * n
    ensures k * g == 2 * k * n && (2 * k + 1) * n == k * g + n && k * g >= 0
  {
    MulAssoc(k, 2, n);
  }

  lemma FlitsValueOne(fs: seq<Flit>, f: Flit)
    ensures FlitsValue(fs + [f])
         == FlitsValue(fs) + Radix(4 * |fs|) * FourNumber(f.l0, f.l1, f.l2, f.l3)
  {
    assert (fs + [f])[..|fs|] == fs;
    hide Radix, FourNumber;
  }

  lemma {:induction false} FramedValue(flits: nat, c: seq<Limb>, k: nat)
    requires k <= flits && |c| == 4 * flits
    ensures FlitsValue(Framed(flits, c, k)) == Val(c[..4 * k])
  {
    if k == 0 {
      ValEmpty();
    } else {
      FramedValue(flits, c, k - 1);
      hide Val, Radix, FlitsValue, FourNumber;
      var i := 4 * (k - 1);
      FlitsValueOne(Framed(flits, c, k - 1), OutFlit(flits, c, k - 1));
      FourMore(c, i);
      assert i + 4 == 4 * k;
    }
  }

  lemma FourMore(c: seq<Limb>, i: nat)
    requires i + 4 <= |c|
    ensures Val(c[..i + 4]) == Val(c[..i]) + Radix(i) * FourNumber(c[i], c[i + 1], c[i + 2], c[i + 3])
  {
    hide Val, Radix, FourNumber;
    var d := [c[i], c[i + 1], c[i + 2], c[i + 3]];
    assert c[..i + 4] == c[..i] + d;
    ValConcat(c[..i], d);
    FourLimbs(c[i], c[i + 1], c[i + 2], c[i + 3]);
  }

  lemma {:induction false} FramedFlags(flits: nat, c: seq<Limb>, k: nat)
    requires k <= flits && |c| == 4 * flits
    ensures forall i :: 0 <= i < k ==> (Framed(flits, c, k)[i].sop <==> i == 0) && (Framed(flits, c, k)[i].eop <==> i == flits - 1)
  {
    if k > 0 {
      FramedFlags(flits, c, k - 1);
    }
  }

  /** A group of flits that is a framed result carries its number, with the flags at its ends. */
  lemma FramedGroup(fs: seq<Flit>, flits: nat, k: nat, c: seq<Limb>)
    requires |c| == 4 * flits && IsGroup(fs, k, Framed(flits, c, flits))
    ensures 0 <= k * flits <= k * flits + flits <= |fs|
    ensures GroupNumber(fs, flits, k) == Val(c) && FlagsAtEnds(fs[k * flits..k * flits + flits])
  {
    FramedValue(flits, c, flits);
    FramedFlags(flits, c, flits);
    assert c[..4 * flits] == c;
    hide Val, FlitsValue, Framed;
  }
}
