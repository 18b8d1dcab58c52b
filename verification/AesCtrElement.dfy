/** The AES_CTR element: a counter that advances by two blocks a flit, so that a run of flits is one long message. */
module AesCtrElement {
  import opened Bytes
  import opened Flits
  import opened Aes
  import opened AesKeys
  import opened AesCtr

  /** The flit sent for f: its payload under the next two key-stream blocks, framed alike, its padding count dropped. */
  function CtrOut(rk: RoundKeys, ctr: Block, f: Flit): Flit {
    Flit(XCrypt(f.data, rk, ctr), f.sop, f.eop, 0)
  }

  /** A signal parameter's bytes, least significant first. */
  function ParamBytes(p: bv64): (s: seq<Byte>)
    ensures |s| == 8
  {
    [ParamByte(p), ParamByte(p >> 8), ParamByte(p >> 16), ParamByte(p >> 24),
     ParamByte(p >> 32), ParamByte(p >> 40), ParamByte(p >> 48), ParamByte(p >> 56)]
  }

  function ParamByte(p: bv64): Byte { (p & 0xff) as Byte }

  lemma JoinedHalf(b0: Byte, b1: Byte, b2: Byte, b3: Byte, b4: Byte, b5: Byte, b6: Byte, b7: Byte)
    ensures ((b7 as bv64 << 56) | (b6 as bv64 << 48) | (b5 as bv64 << 40) | (b4 as bv64 << 32)
             | (b3 as bv64 << 24) | (b2 as bv64 << 16) | (b1 as bv64 << 8) | (b0 as bv64)) as nat
         == b0 as nat + 0x100 * b1 as nat + 0x1_0000 * b2 as nat + 0x100_0000 * b3 as nat + 0x1_0000_0000 * b4 as nat
          + 0x100_0000_0000 * b5 as nat + 0x1_0000_0000_0000 * b6 as nat + 0x100_0000_0000_0000 * b7 as nat
  {
  }

  lemma SplitParam(p: bv64)
    ensures p == (ParamByte(p >> 56) as bv64 << 56) | (ParamByte(p >> 48) as bv64 << 48) | (ParamByte(p >> 40) as bv64 << 40)
               | (ParamByte(p >> 32) as bv64 << 32) | (ParamByte(p >> 24) as bv64 << 24) | (ParamByte(p >> 16) as bv64 << 16)
               | (ParamByte(p >> 8) as bv64 << 8) | (ParamByte(p) as bv64)
  {
  }

  /** A parameter is the sum of its i-th byte times 256^i. */
  lemma ParamValue(p: bv64)
    ensures var s := ParamBytes(p);
      p as nat == s[0] as nat + 0x100 * s[1] as nat + 0x1_0000 * s[2] as nat + 0x100_0000 * s[3] as nat + 0x1_0000_0000 * s[4] as nat
                + 0x100_0000_0000 * s[5] as nat + 0x1_0000_0000_0000 * s[6] as nat + 0x100_0000_0000_0000 * s[7] as nat
  {
    SplitParam(p);
    var s := ParamBytes(p);
    hide ParamByte;
    JoinedHalf(s[0], s[1], s[2], s[3], s[4], s[5], s[6], s[7]);
  }

  class AesCtrElement {
    const keyBytes: array<Byte>
    const counter: array<Byte>
    const roundKeys: array<Byte>

    ghost predicate Valid() {
      keyBytes.Length == 16 && counter.Length == 16 && roundKeys.Length == 176 && keyBytes != counter
    }

    constructor ()
      ensures Valid() && fresh(keyBytes) && fresh(counter) && fresh(roundKeys)
      ensures (forall i :: 0 <= i < 16 ==> counter[i] == 0) && roundKeys[..] == KeySchedule(seq(16, _ => 0))
    {
      keyBytes, counter, roundKeys := new Byte[16](_ => 0), new Byte[16](_ => 0), new Byte[176](_ => 0);
      new;
      assert keyBytes[..] == seq(16, _ => 0);
      KeyExpand(roundKeys, keyBytes);
    }

    /** The handler on an arriving flit. */
    method Handle(f: Flit) returns (o: Flit)
      requires Valid()
      modifies counter
      ensures o == CtrOut(roundKeys[..], old(counter[..]), f)
      ensures counter[..] == Counter(old(counter[..]), 2)
    {
      hide NextCounter, XCrypt;
      var pt, ct := new Byte[32], new Byte[32];
      for i := 0 to 32
        invariant pt[..i] == f.data[..i]
        invariant counter[..] == old(counter[..])
        invariant roundKeys[..] == old(roundKeys[..])
      {
        pt[i] := f.data[i];
      }
      assert pt[..32] == f.data;
      ghost var c := counter[..];
      CtrXCrypt(ct, pt, 32, roundKeys, counter);
      assert ct[..] == ct[..32];
      for rep := 0 to 2
        invariant counter[..] == Counter(c, rep)
        invariant ct[..] == XCrypt(f.data, roundKeys[..], c)
        invariant roundKeys[..] == old(roundKeys[..])
      {
        IncrementInPlace(counter);
      }
      o := Flit(ct[..], f.sop, f.eop, 0);
    }

    /** A run of flits, handled one after the other. */
    method Run(fs: seq<Flit>) returns (out: seq<Flit>)
      requires Valid()
      modifies counter
      ensures out == RunCtr(roundKeys[..], old(counter[..]), fs)
      ensures counter[..] == RunCounter(old(counter[..]), fs)
    {
      hide Counter, CtrOut;
      out := [];
      ghost var c, rk := counter[..], roundKeys[..];
      for i := 0 to |fs|
        invariant counter[..] == RunCounter(c, fs[..i]) && roundKeys[..] == rk
        invariant out == RunCtr(rk, c, fs[..i])
      {
        assert fs[..i + 1][..i] == fs[..i];
        var o := Handle(fs[i]);
        out := out + [o];
      }
      assert fs[..|fs|] == fs;
    }

    /** Signal 1 sets the key, signal 2 the counter; any other leaves both alone. */
    method Signal(cmd: int, p0: bv64, p1: bv64)
      requires Valid()
      modifies keyBytes, counter, roundKeys
      ensures roundKeys[..] == if cmd == 1 then KeySchedule(ParamBytes(p0) + ParamBytes(p1)) else old(roundKeys[..])
      ensures counter[..] == if cmd == 2 then ParamBytes(p0) + ParamBytes(p1) else old(counter[..])
    {
      hide ParamBytes;
      if cmd == 1 {
        Store(keyBytes, ParamBytes(p0), ParamBytes(p1));
        KeyExpand(roundKeys, keyBytes);
      } else if cmd == 2 {
        Store(counter, ParamBytes(p0), ParamBytes(p1));
      }
    }
  }

  method Store(a: array<Byte>, low: seq<Byte>, high: seq<Byte>)
    requires a.Length == 16 && |low| == 8 && |high| == 8
    modifies a
    ensures a[..] == low + high
  {
    for i := 0 to 8
      invariant a[..i] == low[..i]
    {
      a[i] := low[i];
    }
    for i := 0 to 8
      invariant a[..8 + i] == low + high[..i]
    {
      a[8 + i] := high[i];
    }
    assert a[..] == a[..16];
  }

  // ---- whole runs -----------------------------------------------------------------------------------

  /** The counter after a run of flits: two steps a flit. */
  function RunCounter(ctr: Block, fs: seq<Flit>): Block {
    if fs == [] then ctr else Counter(RunCounter(ctr, fs[..|fs| - 1]), 2)
  }

  /** The flits sent for a run of flits, each from the counter that the flits before it left. */
  function RunCtr(rk: RoundKeys, ctr: Block, fs: seq<Flit>): (out: seq<Flit>)
    ensures |out| == |fs|
  {
    if fs == [] then []
    else
      var init := fs[..|fs| - 1];
      RunCtr(rk, ctr, init) + [CtrOut(rk, RunCounter(ctr, init), fs[|fs| - 1])]
  }

  /** The counter reached is block 2 k after k flits. */
  lemma {:induction false} RunCounterIs(ctr: Block, fs: seq<Flit>)
    ensures RunCounter(ctr, fs) == Counter(ctr, 2 * |fs|)
  {
    hide Counter;
    if fs == [] {
      CounterStep(ctr, 0);
    } else {
      var init := fs[..|fs| - 1];
      RunCounterIs(ctr, init);
      CounterAdd(ctr, 2 * |init|, 2);
    }
  }

  /**
   * Byte j of output flit k is byte j of input flit k plus a byte of the enciphered counter block 2 k, or 2 k + 1
   * for the second half of the payload.
   */
  lemma {:induction false} RunBytes(rk: RoundKeys, ctr: Block, fs: seq<Flit>, k: nat, j: nat, x: Byte, y: Byte)
    requires k < |fs| && j < 32 && x == fs[k].data[j] && y == Encrypt(Counter(ctr, 2 * k + j / 16), rk)[j % 16]
    ensures RunCtr(rk, ctr, fs)[k].data[j] == x ^ y
  {
    hide Encrypt, Counter, XCrypt;
    var init := fs[..|fs| - 1];
    if k < |init| {
      RunBytes(rk, ctr, init, k, j, x, y);
    } else {
      RunCounterIs(ctr, init);
      CounterAdd(ctr, 2 * k, j / 16);
      XCryptBytes(fs[k].data, rk, Counter(ctr, 2 * k), j, x, y);
    }
  }

  /** The outputs joined are the one-shot mode over the inputs joined. */
  lemma {:induction false} RunIsOneShot(rk: RoundKeys, ctr: Block, fs: seq<Flit>)
    ensures Payloads(RunCtr(rk, ctr, fs)) == XCrypt(Payloads(fs), rk, ctr)
  {
    hide XCrypt, Counter;
    if fs == [] {
      assert XCrypt([], rk, ctr) == [];
    } else {
      var k := |fs| - 1;
      var out := RunCtr(rk, ctr, fs);
      RunIsOneShot(rk, ctr, fs[..k]);
      PayloadsLength(fs[..k]);
      RunCounterIs(ctr, fs[..k]);
      XCryptAppend(Payloads(fs[..k]), fs[k].data, rk, ctr, 2 * k);
      assert out[..k] == RunCtr(rk, ctr, fs[..k]);
    }
  }

  lemma {:induction false} RunFrames(rk: RoundKeys, ctr: Block, fs: seq<Flit>, i: nat)
    requires i < |fs|
    ensures var o := RunCtr(rk, ctr, fs)[i]; o.sop == fs[i].sop && o.eop == fs[i].eop && o.pad == 0
  {
    hide XCrypt, Counter;
    if i < |fs| - 1 {
      RunFrames(rk, ctr, fs[..|fs| - 1], i);
    }
  }

  /** Two elements in series, with one key and one starting counter, hand every payload and frame through unchanged. */
  lemma SeriesIsIdentity(rk: RoundKeys, ctr: Block, fs: seq<Flit>)
    ensures RunCtr(rk, ctr, RunCtr(rk, ctr, fs)) == seq(|fs|, i requires 0 <= i < |fs| => fs[i].(pad := 0))
  {
    hide XCrypt, Counter, RunCtr, Payloads;
    var mid := RunCtr(rk, ctr, fs);
    var out := RunCtr(rk, ctr, mid);
    RunIsOneShot(rk, ctr, fs);
    RunIsOneShot(rk, ctr, mid);
    XCryptTwice(Payloads(fs), rk, ctr);
    forall i: nat | i < |fs|
      ensures out[i] == fs[i].(pad := 0)
    {
      PayloadsAt(fs, i);
      PayloadsAt(out, i);
      RunFrames(rk, ctr, fs, i);
      RunFrames(rk, ctr, mid, i);
    }
  }
}
