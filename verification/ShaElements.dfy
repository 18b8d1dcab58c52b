/** The two SHA-1 elements: whole packets to digests, and one compression per two flits. */
module ShaElements {
  import opened Bytes
  import opened Flits
  import opened Sha1
  import opened Sha1Stream

  function OutFlit(d: seq<Byte>): Flit
    requires |d| == 20
  {
    Flit(d + Zeros(12), true, true, 0)
  }

  /** A digest flit is a packet of its own: the digest, then zeros. */
  lemma OutFlitLayout(d: seq<Byte>)
    requires |d| == 20
    ensures var o := OutFlit(d);
      o.data[..20] == d && (forall i :: 20 <= i < 32 ==> o.data[i] == 0) && o.sop && o.eop && o.pad == 0
  {
  }

  // ---- SHA1: one digest per packet -----------------------------------------------

  /** Between packets, or within one whose payload so far is msg. */
  datatype Progress = Between | Hashing(msg: seq<Byte>)

  function Received(s: Progress, f: Flit): seq<Byte> {
    (if s.Between? || f.sop then [] else s.msg) + f.data
  }

  function NextProgress(s: Progress, f: Flit): Progress {
    if f.eop then Between else Hashing(Received(s, f))
  }

  function DigestOut(s: Progress, f: Flit): seq<Flit> {
    if f.eop then [OutFlit(Digest(Received(s, f)))] else []
  }

  class Sha1Element {
    const ctx: Ctx
    var started: bool

    ghost predicate Valid()
      reads this, ctx, ctx.h, ctx.buf
    {
      && ctx.h.Length == 5 && ctx.buf.Length == 64
      && (started ==> ctx.Valid())
    }

    ghost function State(): Progress
      reads this, ctx
    {
      if started then Hashing(ctx.msg) else Between
    }

    constructor ()
      ensures Valid() && State() == Between && fresh(ctx) && fresh(ctx.h) && fresh(ctx.buf)
    {
      hide Fold, Tail, Ctx.Valid;
      ctx := new Ctx();
      started := false;
    }

    /** The handler on an arriving flit. */
    method Handle(f: Flit) returns (out: seq<Flit>)
      requires Valid()
      modifies this, ctx, ctx.h, ctx.buf
      ensures Valid() && State() == NextProgress(old(State()), f) && out == DigestOut(old(State()), f)
    {
      hide Digest, Fold, Tail;
      out := [];
      if !started || f.sop {
        ctx.Init();
        started := true;
      }
      ctx.Update(f.data);
      if f.eop {
        var digest := ctx.FinalDigest();
        out := [OutFlit(digest)];
        started := false;
      }
    }
  }

  function RunProgress(s: Progress, fs: seq<Flit>): Progress {
    if fs == [] then s else NextProgress(RunProgress(s, fs[..|fs| - 1]), fs[|fs| - 1])
  }

  function RunDigests(s: Progress, fs: seq<Flit>): seq<Flit> {
    if fs == [] then []
    else RunDigests(s, fs[..|fs| - 1]) + DigestOut(RunProgress(s, fs[..|fs| - 1]), fs[|fs| - 1])
  }

  /** One packet: the start flag on the first flit only, the end flag on the last only. */
  predicate IsPacket(p: seq<Flit>) {
    p != [] && forall i :: 0 <= i < |p| ==> (p[i].sop <==> i == 0) && (p[i].eop <==> i == |p| - 1)
  }

  function Stream(ps: seq<seq<Flit>>): seq<Flit> {
    if ps == [] then [] else Stream(ps[..|ps| - 1]) + ps[|ps| - 1]
  }

  function PacketDigests(ps: seq<seq<Flit>>): seq<Flit> {
    if ps == [] then []
    else PacketDigests(ps[..|ps| - 1]) + [OutFlit(Digest(Payloads(ps[|ps| - 1])))]
  }

  lemma {:induction false} RunAppend(s: Progress, fs: seq<Flit>, gs: seq<Flit>)
    ensures RunProgress(s, fs + gs) == RunProgress(RunProgress(s, fs), gs)
    ensures RunDigests(s, fs + gs) == RunDigests(s, fs) + RunDigests(RunProgress(s, fs), gs)
    decreases |gs|
  {
    hide NextProgress, DigestOut;
    if gs == [] {
      assert fs + gs == fs;
    } else {
      var init := gs[..|gs| - 1];
      RunAppend(s, fs, init);
      assert (fs + gs)[..|fs + gs| - 1] == fs + init;
    }
  }

  /** Inside a packet nothing is output and everything received is kept. */
  lemma {:induction false} WithinPacket(s: Progress, p: seq<Flit>, k: nat)
    requires IsPacket(p) && 0 < k < |p|
    ensures RunProgress(s, p[..k]) == Hashing(Payloads(p[..k])) && RunDigests(s, p[..k]) == []
  {
    hide Digest;
    assert p[..k][..k - 1] == p[..k - 1];
    if k > 1 {
      WithinPacket(s, p, k - 1);
    } else {
      assert p[..0] == [];
      assert Payloads(p[..0]) == [];
    }
  }

  lemma WholePacket(s: Progress, p: seq<Flit>)
    requires IsPacket(p)
    ensures RunProgress(s, p) == Between && RunDigests(s, p) == [OutFlit(Digest(Payloads(p)))]
  {
    hide Digest;
    if |p| > 1 {
      WithinPacket(s, p, |p| - 1);
    } else {
      assert p[..0] == [] && Payloads(p[..0]) == [];
    }
  }

  /** Over any stream of packets the element outputs one digest per packet, of that packet's payload. */
  lemma {:induction false} OneDigestPerPacket(s: Progress, ps: seq<seq<Flit>>)
    requires forall k :: 0 <= k < |ps| ==> IsPacket(ps[k])
    ensures RunDigests(s, Stream(ps)) == PacketDigests(ps)
  {
    hide Digest, IsPacket;
    if ps != [] {
      var init, p := ps[..|ps| - 1], ps[|ps| - 1];
      OneDigestPerPacket(s, init);
      RunAppend(s, Stream(init), p);
      WholePacket(RunProgress(s, Stream(init)), p);
    }
  }

  /** The k-th output is the digest of the k-th packet's payloads, in the first twenty bytes of a flit of its own. */
  lemma {:induction false} KthDigest(s: Progress, ps: seq<seq<Flit>>, k: nat)
    requires (forall k :: 0 <= k < |ps| ==> IsPacket(ps[k])) && k < |ps|
    ensures var out := RunDigests(s, Stream(ps));
      |out| == |ps| && out[k].data[..20] == Digest(Payloads(ps[k])) && out[k].sop && out[k].eop
  {
    hide Digest, IsPacket;
    OneDigestPerPacket(s, ps);
    PacketDigestAt(ps, k);
    OutFlitLayout(Digest(Payloads(ps[k])));
  }

  lemma {:induction false} PacketDigestAt(ps: seq<seq<Flit>>, k: nat)
    requires k < |ps|
    ensures |PacketDigests(ps)| == |ps| && PacketDigests(ps)[k] == OutFlit(Digest(Payloads(ps[k])))
  {
    hide Digest, OutFlit;
    var init := ps[..|ps| - 1];
    if |ps| > 1 {
      PacketDigestAt(init, if k < |init| then k else 0);
    }
  }

  // ---- SHA1_Block: one compression per two flits ------------------------------------

  /** What has been received since the last start flag. */
  function BlockReceived(msg: seq<Byte>, f: Flit): seq<Byte> {
    (if f.sop then [] else msg) + f.data
  }

  function BlockOut(m: seq<Byte>): seq<Flit> {
    if |m| % 64 == 0 then [OutFlit(DigestBytes(Fold(m)))] else []
  }

  class Sha1Block {
    const h: array<Word>
    const block: array<Byte>
    var flitIdx: nat
    /** Everything received since the last start flag. */
    ghost var msg: seq<Byte>

    ghost predicate Valid()
      reads this, h, block
    {
      && h.Length == 5 && block.Length == 64 && flitIdx < 2
      && h[..] == Fold(msg) && block[..32 * flitIdx] == Tail(msg)
    }

    constructor ()
      ensures Valid() && msg == [] && fresh(h) && fresh(block)
    {
      h, block := new Word[5](_ => 0), new Byte[64](_ => 0);
      flitIdx, msg := 0, [];
      new;
      Reset();
    }

    method Reset()
      requires h.Length == 5 && block.Length == 64
      modifies this, h
      ensures Valid() && msg == []
    {
      EmptyFold();
      hide Fold, Tail;
      h[0], h[1], h[2], h[3], h[4] := H0[0], H0[1], H0[2], H0[3], H0[4];
      flitIdx, msg := 0, [];
      assert h[..] == H0;
    }

    /** Copy the payload behind what the block already holds. */
    method Fill(data: Payload)
      requires block.Length == 64 && flitIdx < 2
      modifies block
      ensures block[..32 * flitIdx + 32] == old(block[..32 * flitIdx]) + data
    {
      ghost var before := block[..32 * flitIdx];
      for i := 0 to 32
        invariant block[..32 * flitIdx + i] == before + data[..i]
      {
        block[flitIdx * 32 + i] := data[i];
      }
      assert data[..32] == data;
    }

    /** The handler on an arriving flit. */
    method Handle(f: Flit) returns (out: seq<Flit>)
      requires Valid()
      modifies this, h, block
      ensures Valid() && msg == BlockReceived(old(msg), f) && out == BlockOut(msg)
    {
      hide Fold, Tail, Compressed, DigestBytes;
      out := [];
      if f.sop {
        Reset();
      }
      ghost var m := msg;
      TailLength(m);
      Fill(f.data);
      flitIdx := flitIdx + 1;
      msg := m + f.data;
      if flitIdx == 2 {
        AppendWhole(m, f.data);
        assert block[..] == block[..64];
        Compress(h, block[..]);
        flitIdx := 0;
        out := [OutFlit(DigestBytes(h[..]))];
      } else {
        AppendPart(m, f.data);
      }
    }
  }

  function RunReceived(msg: seq<Byte>, fs: seq<Flit>): seq<Byte> {
    if fs == [] then msg else BlockReceived(RunReceived(msg, fs[..|fs| - 1]), fs[|fs| - 1])
  }

  function RunBlocks(msg: seq<Byte>, fs: seq<Flit>): seq<Flit> {
    if fs == [] then []
    else RunBlocks(msg, fs[..|fs| - 1]) + BlockOut(RunReceived(msg, fs))
  }

  /** A message cut into 32-byte flits, the start flag on the first only. */
  function Cut(m: seq<Byte>): (fs: seq<Flit>)
    requires |m| % 32 == 0
  {
    if m == [] then [] else Cut(m[..|m| - 32]) + [Flit(m[|m| - 32..], |m| == 32, false, 0)]
  }

  lemma CutLast(msg: seq<Byte>, m: seq<Byte>)
    requires |m| % 32 == 0 && m != [] && (|m| > 32 ==> RunReceived(msg, Cut(m[..|m| - 32])) == m[..|m| - 32])
    ensures RunReceived(msg, Cut(m)) == m
    ensures RunBlocks(msg, Cut(m)) == RunBlocks(msg, Cut(m[..|m| - 32])) + BlockOut(m)
  {
    hide BlockOut;
    var init, fs := m[..|m| - 32], Cut(m);
    assert fs[..|fs| - 1] == Cut(init);
    assert m == init + m[|m| - 32..];
  }

  /** The hash values after 1, 2, ..., k blocks of m. */
  function BlockDigests(m: seq<Byte>, k: nat): (fs: seq<Flit>)
    requires 64 * k <= |m|
    ensures |fs| == k
  {
    if k == 0 then [] else BlockDigests(m, k - 1) + [OutFlit(DigestBytes(FoldBlocks(m, k)))]
  }

  lemma {:induction false} BlockDigestsPrefix(m: seq<Byte>, d: seq<Byte>, k: nat)
    requires 64 * k <= |m|
    ensures BlockDigests(m + d, k) == BlockDigests(m, k)
  {
    hide FoldBlocks, DigestBytes, OutFlit;
    if k > 0 {
      BlockDigestsPrefix(m, d, k - 1);
      FoldPrefix(m, d, k);
    }
  }

  lemma DigestsStep(m: seq<Byte>)
    requires |m| % 32 == 0 && m != []
    ensures BlockDigests(m, |m| / 64) == BlockDigests(m, (|m| - 32) / 64) + BlockOut(m)
  {
    hide FoldBlocks, DigestBytes, OutFlit;
    HalfBlocks(|m|);
    var k := |m| / 64;
    if |m| % 64 == 0 {
      assert BlockDigests(m, k) == BlockDigests(m, k - 1) + [OutFlit(DigestBytes(FoldBlocks(m, k)))];
    } else {
      assert BlockOut(m) == [];
    }
  }

  lemma HalfBlocks(n: nat)
    requires n % 32 == 0 && n > 0
    ensures n >= 32 && (n - 32) / 64 == if n % 64 == 0 then n / 64 - 1 else n / 64
  {
    var q := n / 32;
    assert n == 32 * q;
    var a, r := q / 2, q % 2;
    assert n == 64 * a + 32 * r;
  }

  lemma NothingCut(msg: seq<Byte>)
    ensures RunBlocks(msg, Cut([])) == []
  {
  }

  /** Whatever was received before, a message outputs the hash value after each of its blocks. */
  lemma {:induction false} BlocksInOrder(msg: seq<Byte>, m: seq<Byte>)
    requires |m| % 32 == 0 && m != []
    ensures RunReceived(msg, Cut(m)) == m
    ensures RunBlocks(msg, Cut(m)) == BlockDigests(m, |m| / 64)
    decreases |m|
  {
    hide FoldBlocks, DigestBytes, RunReceived, OutFlit, RunBlocks, Cut, BlockOut;
    var init, last := m[..|m| - 32], m[|m| - 32..];
    if init != [] {
      BlocksInOrder(msg, init);
      assert m == init + last;
      BlockDigestsPrefix(init, last, |init| / 64);
    }
    NothingCut(msg);
    CutLast(msg, m);
    DigestsStep(m);
  }

  lemma WholeFlits(m: seq<Byte>)
    ensures |Padded(m)| % 32 == 0 && Padded(m) != []
  {
    hide PadZeros, LengthField, Zeros;
    assert |LengthField(|m|)| == 8;
    MultipleOf64(|Padded(m)|);
  }

  lemma MultipleOf64(n: nat)
    requires n % 64 == 0
    ensures n % 32 == 0
  {
    assert n == 32 * (2 * (n / 64));
  }

  /** What the element outputs when it is fed the padded message. */
  function BlockRun(msg: seq<Byte>, m: seq<Byte>): seq<Flit> {
    WholeFlits(m);
    RunBlocks(msg, Cut(Padded(m)))
  }

  /** Fed the padded message, the element's last output is the digest of the message. */
  lemma BlocksEndWithDigest(msg: seq<Byte>, m: seq<Byte>)
    ensures BlockRun(msg, m) != [] && |BlockRun(msg, m)| == |Padded(m)| / 64
    ensures BlockRun(msg, m)[|BlockRun(msg, m)| - 1] == OutFlit(Digest(m))
  {
    hide FoldBlocks, DigestBytes, Padded, OutFlit, RunBlocks, Cut, RunReceived;
    var p := Padded(m);
    WholeFlits(m);
    BlocksInOrder(msg, p);
    assert |p| >= 64;
  }
}
