/** Numbers as big-endian bytes and as little-endian limbs, and the two loops that convert between them. */
module LimbCodec {
  import opened Arith
  import opened Bytes
  import opened Limbs
  import opened AesCtr

  // ---- big-endian bytes ---------------------------------------------------------------------------------

  /** The m low bytes of v, most significant first. */
  function ToBytes(v: nat, m: nat): (s: seq<Byte>)
    ensures |s| == m
  {
    if m == 0 then [] else ToBytes(v / 256, m - 1) + [(v % 256) as Byte]
  }

  lemma {:induction false} ToBytesValue(v: nat, m: nat)
    requires v < Pow256(m)
    ensures BigEndian(ToBytes(v, m)) == v
  {
    if m > 0 {
      ToBytesValue(v / 256, m - 1);
      ByteValue(v % 256);
      var s := ToBytes(v, m);
      assert s[..|s| - 1] == ToBytes(v / 256, m - 1);
    }
  }

  lemma {:induction false} BigEndianConcat(s: seq<Byte>, t: seq<Byte>)
    ensures BigEndian(s + t) == BigEndian(s) * Pow256(|t|) + BigEndian(t)
  {
    if t == [] {
      assert s + t == s;
    } else {
      var init, x := t[..|t| - 1], t[|t| - 1] as nat;
      BigEndianConcat(s, init);
      assert (s + t)[..|s + t| - 1] == s + init;
      Shifted(BigEndian(s), Pow256(|init|), BigEndian(init), x);
    }
  }

  lemma Shifted(a: nat, p: nat, b: nat, x: nat)
    ensures 256 * (a * p + b) + x == a * (256 * p) + (256 * b + x)
  {
    MulAssoc(a, 256, p);
    MulAssoc(256, a, p);
  }

  lemma PowEight()
    ensures Pow256(8) == WORD
  {
    assert Pow256(4) == 0x1_0000_0000;
  }

  lemma {:induction false} PowAdd256(a: nat, b: nat)
    ensures Pow256(a + b) == Pow256(a) * Pow256(b)
  {
    if a > 0 {
      PowAdd256(a - 1, b);
      MulAssoc(256, Pow256(a - 1), Pow256(b));
    }
  }

  /** Eight bytes to a limb. */
  lemma {:induction false} RadixIsPow256(k: nat)
    ensures Radix(k) == Pow256(8 * k)
  {
    if k > 0 {
      RadixIsPow256(k - 1);
      PowEight();
      PowAdd256(8, 8 * (k - 1));
    }
  }

  // ---- bytes to limbs --------------------------------------------------------------------------------------

  /** The inner loop: eight bytes into one word, which never overflows. */
  method GatherLimb(buf: array<Byte>, base: nat) returns (v: Limb)
    requires base + 8 <= buf.Length
    ensures v == BigEndian(buf[base..base + 8])
  {
    var w: nat := 0;
    for b := 0 to 8
      invariant w == BigEndian(buf[base..base + b])
    {
      ghost var s := buf[base..base + b + 1];
      assert s[..|s| - 1] == buf[base..base + b];
      w := w * 256 + buf[base + b] as nat;
    }
    PowEight();
    BigEndianBound(buf[base..base + 8]);
    v := w;
  }

  lemma LimbsGrow(bytes: seq<Byte>, n: nat, i: nat, low: seq<Limb>, v: Limb)
    requires i < n && |bytes| == 8 * n && |low| == i
    requires Val(low) == BigEndian(bytes[8 * (n - i)..]) && v == BigEndian(bytes[8 * (n - 1 - i)..8 * (n - 1 - i) + 8])
    ensures Val(low + [v]) == BigEndian(bytes[8 * (n - 1 - i)..])
  {
    hide Val, Radix, BigEndian, Pow256;
    ValAppend(low, v);
    RadixIsPow256(i);
    var head, tail := bytes[8 * (n - 1 - i)..8 * (n - 1 - i) + 8], bytes[8 * (n - i)..];
    assert bytes[8 * (n - 1 - i)..] == head + tail;
    BigEndianConcat(head, tail);
  }

  /** The limbs written hold the number the bytes hold. */
  method BytesToLimbs(out: array<Limb>, buf: array<Byte>, n: nat)
    requires n <= out.Length && 8 * n <= buf.Length && out as object != buf as object
    modifies out
    ensures Val(out[..n]) == BigEndian(buf[..8 * n])
    ensures forall j :: n <= j < out.Length ==> out[j] == old(out[j])
  {
    hide Val, BigEndian;
    ghost var bytes := buf[..8 * n];
    Nothing(bytes);
    for i := 0 to n
      invariant Val(out[..i]) == BigEndian(bytes[8 * (n - i)..])
      invariant buf[..8 * n] == bytes
      invariant forall j :: n <= j < out.Length ==> out[j] == old(out[j])
    {
      var base := (n - 1 - i) * 8;
      var v := GatherLimb(buf, base);
      assert buf[base..base + 8] == bytes[base..base + 8];
      LimbsGrow(bytes, n, i, out[..i], v);
      out[i] := v;
      assert out[..i + 1] == out[..i] + [v];
    }
    assert bytes[0..] == bytes;
  }

  lemma Nothing(bytes: seq<Byte>)
    ensures BigEndian(bytes[|bytes|..]) == 0 && Val([]) == 0
  {
  }

  // ---- limbs to bytes --------------------------------------------------------------------------------------

  lemma OneByteMore(v: nat, s: seq<Byte>, b: nat, d: Byte)
    requires |s| == b && BigEndian(s) == v % Pow256(b) && d as nat == v / Pow256(b) % 256
    ensures BigEndian([d] + s) == v % Pow256(b + 1)
  {
    BigEndianConcat([d], s);
    assert BigEndian([d]) == d as nat by {
      assert [d][..0] == [];
    }
    hide BigEndian, Pow256;
    PowStep(b);
    NextDigit(v, Pow256(b));
  }

  lemma PowStep(b: nat)
    ensures Pow256(b + 1) == 256 * Pow256(b)
  {
  }

  lemma NextDigit(v: nat, p: nat)
    requires p > 0
    ensures v % (256 * p) == (v / p % 256) * p + v % p
  {
    var q, r := v / p, v % p;
    Quotient(v, p);
    Quotient(q, 256);
    var h, d := q / 256, q % 256;
    assert v == h * (256 * p) + (d * p + r) by {
      Regroup(h, d, p, r);
    }
    MulMono(d, 255, p, p);
    DivModUnique(v, h, d * p + r, 256 * p);
  }

  lemma Regroup(h: nat, d: nat, p: nat, r: nat)
    ensures (h * 256 + d) * p + r == h * (256 * p) + (d * p + r)
  {
    MulAssoc(h, 256, p);
  }

  lemma Start(v: nat)
    ensures v % Pow256(0) == 0
  {
  }

  /** The inner loop: the eight bytes of one word. */
  method ScatterLimb(buf: array<Byte>, base: nat, v: Limb)
    requires base + 8 <= buf.Length
    modifies buf
    ensures BigEndian(buf[base..base + 8]) == v
    ensures forall j :: 0 <= j < buf.Length && !(base <= j < base + 8) ==> buf[j] == old(buf[j])
  {
    hide BigEndian, Pow256;
    Nothing(buf[base..base + 8]);
    Start(v);
    for b := 0 to 8
      invariant BigEndian(buf[base + 8 - b..base + 8]) == v % Pow256(b)
      invariant forall j :: 0 <= j < buf.Length && !(base + 8 - b <= j < base + 8) ==> buf[j] == old(buf[j])
    {
      ghost var s := buf[base + 8 - b..base + 8];
      var d := v / Pow256(b) % 256;
      ByteValue(d);
      buf[base + (7 - b)] := d as Byte;
      OneByteMore(v, s, b, d as Byte);
      assert buf[base + 7 - b..base + 8] == [d as Byte] + s;
    }
    PowEight();
    ModBelow(v, WORD);
  }

  lemma BytesGrow(x: seq<Limb>, i: nat, head: seq<Byte>, tail: seq<Byte>)
    requires i < |x| && |head| == 8 && |tail| == 8 * i && BigEndian(head) == x[i] && BigEndian(tail) == Val(x[..i])
    ensures BigEndian(head + tail) == Val(x[..i + 1])
  {
    hide Val, Radix, BigEndian, Pow256;
    ValSnoc(x, i);
    RadixIsPow256(i);
    BigEndianConcat(head, tail);
  }

  /** The bytes written hold the number the limbs hold. */
  method LimbsToBytes(buf: array<Byte>, x: array<Limb>, n: nat)
    requires n <= x.Length && 8 * n <= buf.Length && x as object != buf as object
    modifies buf
    ensures BigEndian(buf[..8 * n]) == Val(x[..n])
    ensures forall j :: 8 * n <= j < buf.Length ==> buf[j] == old(buf[j])
  {
    hide Val, BigEndian;
    ghost var limbs := x[..];
    Nothing(buf[..8 * n]);
    for i := 0 to n
      invariant BigEndian(buf[8 * (n - i)..8 * n]) == Val(limbs[..i])
      invariant x[..] == limbs
      invariant forall j :: 8 * n <= j < buf.Length ==> buf[j] == old(buf[j])
    {
      ghost var tail := buf[8 * (n - i)..8 * n];
      var base := (n - 1 - i) * 8;
      ScatterLimb(buf, base, x[i]);
      assert buf[8 * (n - i)..8 * n] == tail;
      BytesGrow(limbs, i, buf[base..base + 8], tail);
      assert buf[base..8 * n] == buf[base..base + 8] + tail;
    }
    assert limbs[..n] == x[..n];
  }

  // ---- the two directions undo each other ------------------------------------------------------------------

  /** What the first loop computes, as a function of the bytes, and the second, as a function of the limbs. */
  function LimbsOf(bytes: seq<Byte>, n: nat): (x: seq<Limb>)
    ensures |x| == n
  {
    ToLimbs(BigEndian(bytes), n)
  }

  function BytesOf(x: seq<Limb>): (bytes: seq<Byte>)
    ensures |bytes| == 8 * |x|
  {
    ToBytes(Val(x), 8 * |x|)
  }

  lemma LimbsOfIs(bytes: seq<Byte>, x: seq<Limb>)
    requires |bytes| == 8 * |x|
    ensures Val(x) == BigEndian(bytes) <==> x == LimbsOf(bytes, |x|)
  {
    hide Val, BigEndian, Radix, Pow256, ToLimbs;
    var n := |x|;
    BigEndianBound(bytes);
    RadixIsPow256(n);
    ToLimbsVal(BigEndian(bytes), n);
    if Val(x) == BigEndian(bytes) {
      ValInjective(x, ToLimbs(BigEndian(bytes), n));
    }
  }

  lemma BytesOfIs(bytes: seq<Byte>, x: seq<Limb>)
    requires |bytes| == 8 * |x|
    ensures Val(x) == BigEndian(bytes) <==> bytes == BytesOf(x)
  {
    hide Val, BigEndian, Radix, Pow256, ToBytes;
    ValBound(x);
    RadixIsPow256(|x|);
    ToBytesValue(Val(x), 8 * |x|);
    if Val(x) == BigEndian(bytes) {
      BigEndianInjective(bytes, ToBytes(Val(x), 8 * |x|));
    }
  }

  /** Bytes to limbs and back, and limbs to bytes and back, for every limb count. */
  lemma CodecRoundTrip(bytes: seq<Byte>, x: seq<Limb>)
    requires |bytes| == 8 * |x|
    ensures BytesOf(LimbsOf(bytes, |x|)) == bytes
    ensures LimbsOf(BytesOf(x), |x|) == x
  {
    hide Val, BigEndian, LimbsOf, BytesOf;
    var y := LimbsOf(bytes, |x|);
    LimbsOfIs(bytes, y);
    BytesOfIs(bytes, y);
    var b := BytesOf(x);
    BytesOfIs(b, x);
    LimbsOfIs(b, x);
  }
}
