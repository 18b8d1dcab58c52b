/** Packets as byte strings and as runs of 32-byte flits. */
module PacketCodec {
  import opened Bytes
  import opened Flits
  import opened Aes
  import opened AesCtr
  import opened AesCtrElement

  function Least(a: nat, b: nat): nat { if a < b then a else b }

  /** How many flits carry n bytes: n / 32 rounded up. */
  function FlitCount(n: nat): nat { (n + 31) / 32 }

  /** Flit i of a packet: the next bytes, zeros after the last one, the flags at the two ends, the padding in the last flit. */
  function PacketFlit(p: seq<Byte>, i: nat): Flit
    requires 32 * i < |p|
  {
    var n := Least(32, |p| - 32 * i);
    var last := 32 * i + n == |p|;
    Flit(p[32 * i..32 * i + n] + Zeros(32 - n), i == 0, last, if last && n < 32 then 32 - n else 0)
  }

  lemma CountCovers(n: nat, i: nat)
    ensures i < FlitCount(n) <==> 32 * i < n
    ensures i == FlitCount(n) <==> 32 * i - 32 < n <= 32 * i
  {
  }

  function Packed(p: seq<Byte>): (fs: seq<Flit>)
    ensures |fs| == FlitCount(|p|)
  {
    seq(FlitCount(|p|), i requires 0 <= i < FlitCount(|p|) => CountCovers(|p|, i); PacketFlit(p, i))
  }

  /** How many bytes of flit i count: all, unless the run ends here and says how many do not. */
  function ValidBytes(fs: seq<Flit>, i: nat): (n: nat)
    requires i < |fs|
    ensures n <= 32
  {
    if i + 1 == |fs| && fs[i].eop then (if fs[i].pad <= 32 then 32 - fs[i].pad else 0) else 32
  }

  /** The bytes of the first k flits of a run. */
  function UnpackedTo(fs: seq<Flit>, k: nat): seq<Byte>
    requires k <= |fs|
  {
    if k == 0 then [] else UnpackedTo(fs, k - 1) + fs[k - 1].data[..ValidBytes(fs, k - 1)]
  }

  function Unpacked(fs: seq<Flit>): seq<Byte> { UnpackedTo(fs, |fs|) }

  method PacketToFlits(p: seq<Byte>) returns (out: seq<Flit>)
    ensures out == Packed(p)
  {
    hide FlitCount, PacketFlit;
    out := [];
    CountCovers(|p|, 0);
    if p == [] {
      return;
    }
    var off := 0;
    while off < |p|
      invariant |out| <= FlitCount(|p|)
      invariant off < |p| ==> off == 32 * |out|
      invariant off >= |p| ==> |out| == FlitCount(|p|)
      invariant forall i :: 0 <= i < |out| ==> out[i] == Packed(p)[i]
      decreases |p| - off
    {
      ghost var i := |out|;
      CountCovers(|p|, i);
      CountCovers(|p|, i + 1);
      var n := if 32 < |p| - off then 32 else |p| - off;
      var last := off + n == |p|;
      var pad := 0;
      if last && n < 32 {
        pad := 32 - n;
      }
      assert Flit(p[off..off + n] + Zeros(32 - n), off == 0, last, pad) == PacketFlit(p, i) by {
        PacketFlitIs(p, i, n, last, pad);
      }
      out := out + [Flit(p[off..off + n] + Zeros(32 - n), off == 0, last, pad)];
      off := off + n;
    }
  }

  lemma PacketFlitIs(p: seq<Byte>, i: nat, n: nat, last: bool, pad: nat)
    requires 32 * i < |p| && n == Least(32, |p| - 32 * i) && last == (32 * i + n == |p|)
    requires pad == if last && n < 32 then 32 - n else 0
    ensures PacketFlit(p, i) == Flit(p[32 * i..32 * i + n] + Zeros(32 - n), i == 0, last, pad)
  {
  }

  method FlitsToPacket(fs: seq<Flit>) returns (out: seq<Byte>)
    ensures out == Unpacked(fs)
  {
    out := [];
    for i := 0 to |fs|
      invariant out == UnpackedTo(fs, i)
    {
      var valid := 32;
      if i + 1 == |fs| && fs[i].eop {
        valid := valid - fs[i].pad;
        if valid < 0 {
          valid := 0;
        }
      }
      out := out + fs[i].data[..valid];
    }
  }

  // ---- the codec --------------------------------------------------------------------------------------

  /** The start flag on the first flit only, the end flag on the last only, padding only there. */
  lemma PackedFrames(p: seq<Byte>, i: nat)
    requires i < FlitCount(|p|)
    ensures var f, fs := Packed(p)[i], Packed(p);
      && (f.sop <==> i == 0) && (f.eop <==> i == |fs| - 1)
      && f.pad == if i == |fs| - 1 then 32 * |fs| - |p| else 0
  {
    hide FlitCount;
    CountCovers(|p|, i);
    CountCovers(|p|, i + 1);
    CountCovers(|p|, FlitCount(|p|));
  }

  /** Byte j of flit i is byte 32 i + j of the packet, and zero after its end. */
  lemma PackedBytes(p: seq<Byte>, i: nat, j: nat)
    requires i < FlitCount(|p|) && j < 32
    ensures Packed(p)[i].data[j] == if 32 * i + j < |p| then p[32 * i + j] else 0
  {
    hide FlitCount;
    CountCovers(|p|, i);
  }

  /** Byte 32 i + j of what is unpacked is byte j of flit i, for every byte that the run's length and last flit admit. */
  lemma UnpackedBytes(fs: seq<Flit>, i: nat, j: nat)
    requires fs != []
    ensures var last, all := fs[|fs| - 1], Unpacked(fs);
      && |all| == 32 * (|fs| - 1) + (if !last.eop then 32 else if last.pad <= 32 then 32 - last.pad else 0)
      && (i < |fs| && j < 32 && 32 * i + j < |all| ==> all[32 * i + j] == fs[i].data[j])
  {
    UnpackedAt(fs, |fs|, i, j);
  }

  lemma {:induction false} UnpackedAt(fs: seq<Flit>, k: nat, i: nat, j: nat)
    requires k <= |fs|
    ensures k > 0 ==> |UnpackedTo(fs, k)| == 32 * (k - 1) + ValidBytes(fs, k - 1)
    ensures k == 0 ==> UnpackedTo(fs, k) == []
    ensures i < k && j < 32 && 32 * i + j < |UnpackedTo(fs, k)| ==> UnpackedTo(fs, k)[32 * i + j] == fs[i].data[j]
  {
    if k > 0 {
      UnpackedAt(fs, k - 1, i, j);
    }
  }

  lemma {:induction false} UnpackedPrefix(p: seq<Byte>, k: nat)
    requires k <= FlitCount(|p|)
    ensures UnpackedTo(Packed(p), k) == p[..Least(32 * k, |p|)]
  {
    if k > 0 {
      hide FlitCount;
      UnpackedPrefix(p, k - 1);
      CountCovers(|p|, k - 1);
      CountCovers(|p|, FlitCount(|p|));
      CountCovers(|p|, k);
      var n := Least(32, |p| - 32 * (k - 1));
      PackedFrames(p, k - 1);
      OnePart(p, k - 1, n);
      assert ValidBytes(Packed(p), k - 1) == n;
      assert p[..32 * (k - 1)] + p[32 * (k - 1)..32 * (k - 1) + n] == p[..32 * (k - 1) + n];
    }
  }

  lemma OnePart(p: seq<Byte>, i: nat, n: nat)
    requires i < FlitCount(|p|) && 32 * i < |p| && n == Least(32, |p| - 32 * i)
    ensures Packed(p)[i].data[..n] == p[32 * i..32 * i + n]
  {
    hide FlitCount;
    var d := p[32 * i..32 * i + n];
    assert (d + Zeros(32 - n))[..n] == d;
  }

  /** Unpacking a packed packet gives the packet back, whatever its length. */
  lemma PacketRoundTrip(p: seq<Byte>)
    ensures Unpacked(Packed(p)) == p
  {
    UnpackedPrefix(p, FlitCount(|p|));
    CountCovers(|p|, FlitCount(|p|));
  }

  // ---- packets through the cipher element ----------------------------------------------------------------

  lemma {:induction false} AllBytesValid(fs: seq<Flit>, k: nat)
    requires k <= |fs| && forall i :: 0 <= i < |fs| ==> fs[i].pad == 0
    ensures UnpackedTo(fs, k) == Payloads(fs[..k])
  {
    if k > 0 {
      AllBytesValid(fs, k - 1);
      assert fs[..k][..k - 1] == fs[..k - 1];
      assert fs[k - 1].data[..32] == fs[k - 1].data;
    }
  }

  lemma OneMoreFlit(p: seq<Byte>, a: nat, n: nat)
    requires a + n <= |p| && n <= 32
    ensures p[..a] + Zeros(0) + (p[a..a + n] + Zeros(32 - n)) == p[..a + n] + Zeros(32 - n)
  {
  }

  lemma {:induction false} PackedPayloads(p: seq<Byte>, fs: seq<Flit>, k: nat)
    requires k <= |fs| == FlitCount(|p|)
    requires forall i :: 0 <= i < |fs| ==> fs[i].data == Packed(p)[i].data
    ensures Payloads(fs[..k]) == p[..Least(32 * k, |p|)] + Zeros(32 * k - Least(32 * k, |p|))
  {
    if k > 0 {
      hide FlitCount;
      PackedPayloads(p, fs, k - 1);
      CountCovers(|p|, k - 1);
      CountCovers(|p|, k);
      assert fs[..k][..k - 1] == fs[..k - 1];
      assert Payloads(fs[..k]) == Payloads(fs[..k - 1]) + fs[k - 1].data;
      var a, n := 32 * (k - 1), Least(32, |p| - 32 * (k - 1));
      hide Zeros;
      OneMoreFlit(p, a, n);
      assert fs[k - 1].data == p[a..a + n] + Zeros(32 - n);
      assert a + n == Least(32 * k, |p|);
    }
  }

  /**
   * Enciphered and deciphered by two elements in series, a packet comes back followed by the zeros of its last flit,
   * because the element does not pass the padding count on; it comes back as it was exactly when it fills its flits.
   */
  lemma PacketThroughCtr(rk: RoundKeys, ctr: Block, p: seq<Byte>)
    ensures var q := Unpacked(RunCtr(rk, ctr, RunCtr(rk, ctr, Packed(p))));
      q == p + Zeros(32 * FlitCount(|p|) - |p|) && (q == p <==> |p| % 32 == 0)
  {
    hide XCrypt, Counter, RunCtr, FlitCount;
    var fs := Packed(p);
    SeriesIsIdentity(rk, ctr, fs);
    var out := RunCtr(rk, ctr, RunCtr(rk, ctr, fs));
    AllBytesValid(out, |out|);
    PackedPayloads(p, out, |out|);
    CountCovers(|p|, |fs|);
    assert out[..|out|] == out;
    FillsFlits(|p|, |fs|);
  }

  lemma FillsFlits(n: nat, k: nat)
    requires 32 * k - 32 < n <= 32 * k
    ensures n == 32 * k <==> n % 32 == 0
  {
  }
}
