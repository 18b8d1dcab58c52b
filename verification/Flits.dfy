/** The 64-byte channel message: its payload, packet framing and padding count. */
module Flits {
  import opened Bytes

  type Payload = s: seq<Byte> | |s| == 32 witness seq(32, _ => 0)

  /** A count held in one byte. */
  type Count = n: nat | n < 256

  datatype Flit = Flit(data: Payload, sop: bool, eop: bool, pad: Count)

  /** The payloads of a run of flits, joined. */
  function Payloads(fs: seq<Flit>): seq<Byte> {
    if fs == [] then [] else Payloads(fs[..|fs| - 1]) + fs[|fs| - 1].data
  }

  lemma {:induction false} PayloadsLength(fs: seq<Flit>)
    ensures |Payloads(fs)| == 32 * |fs|
  {
    if fs != [] {
      PayloadsLength(fs[..|fs| - 1]);
    }
  }

  /** Bytes 32 i to 32 i + 31 are the payload of flit i. */
  lemma {:induction false} PayloadsAt(fs: seq<Flit>, i: nat)
    requires i < |fs|
    ensures 32 * i + 32 <= |Payloads(fs)| && Payloads(fs)[32 * i..32 * i + 32] == fs[i].data
  {
    var k := |fs| - 1;
    var init, last := Payloads(fs[..k]), fs[k].data;
    PayloadsLength(fs[..k]);
    assert Payloads(fs) == init + last;
    if i < k {
      PayloadsAt(fs[..k], i);
      assert (init + last)[32 * i..32 * i + 32] == init[32 * i..32 * i + 32];
    } else {
      assert (init + last)[|init|..|init| + 32] == last;
    }
  }
}
