/** Bytes, and the numbers they write in big-endian order. */
module Bytes {
  type Byte = bv8

  /** The number held by bytes, most significant first. */
  function BigEndian(s: seq<Byte>): nat {
    if s == [] then 0 else 256 * BigEndian(s[..|s| - 1]) + s[|s| - 1] as nat
  }

  lemma ByteValue0(x: nat)
    requires 0 <= x < 32
    ensures (x as Byte) as nat == x
  {
  }

  lemma ByteValue1(x: nat)
    requires 32 <= x < 64
    ensures (x as Byte) as nat == x
  {
  }

  lemma ByteValue2(x: nat)
    requires 64 <= x < 96
    ensures (x as Byte) as nat == x
  {
  }

  lemma ByteValue3(x: nat)
    requires 96 <= x < 128
    ensures (x as Byte) as nat == x
  {
  }

  lemma ByteValue4(x: nat)
    requires 128 <= x < 160
    ensures (x as Byte) as nat == x
  {
  }

  lemma ByteValue5(x: nat)
    requires 160 <= x < 192
    ensures (x as Byte) as nat == x
  {
  }

  lemma ByteValue6(x: nat)
    requires 192 <= x < 224
    ensures (x as Byte) as nat == x
  {
  }

  lemma ByteValue7(x: nat)
    requires 224 <= x < 256
    ensures (x as Byte) as nat == x
  {
  }

  /** A number below 256 survives the conversion to a byte and back; one lemma a range keeps each query small. */
  lemma ByteValue(x: nat)
    requires x < 256
    ensures (x as Byte) as nat == x
  {
    match x / 32
    case 0 => ByteValue0(x);
    case 1 => ByteValue1(x);
    case 2 => ByteValue2(x);
    case 3 => ByteValue3(x);
    case 4 => ByteValue4(x);
    case 5 => ByteValue5(x);
    case 6 => ByteValue6(x);
    case _ => ByteValue7(x);
  }

  function Pow256(i: nat): (p: nat)
    ensures p > 0
  {
    if i == 0 then 1 else 256 * Pow256(i - 1)
  }

  function Zeros(k: nat): (z: seq<Byte>)
    ensures |z| == k
  {
    seq(k, _ => 0 as Byte)
  }
}
