/** SHA-1: the compression function, incremental hashing and its padding (FIPS 180-4). */
module Sha1 {

  import opened Bytes

  type Word = bv32

  // ---- section 6.1.2 of FIPS 180-4 ---------------------------------------------

  function Ch(x: Word, y: Word, z: Word): Word { (x & y) ^ (!x & z) }
  function Parity(x: Word, y: Word, z: Word): Word { x ^ y ^ z }
  function Maj(x: Word, y: Word, z: Word): Word { (x & y) ^ (x & z) ^ (y & z) }

  function Rotate(x: Word, n: nat): Word
    requires n <= 32
  {
    x.RotateLeft(n)
  }

  function F(t: nat, x: Word, y: Word, z: Word): Word {
    if t < 20 then Ch(x, y, z) else if t < 40 then Parity(x, y, z) else if t < 60 then Maj(x, y, z) else Parity(x, y, z)
  }

  function K(t: nat): Word {
    if t < 20 then 0x5A827999 else if t < 40 then 0x6ED9EBA1 else if t < 60 then 0x8F1BBCDC else 0xCA62C1D6
  }

  function WordOf(b0: Byte, b1: Byte, b2: Byte, b3: Byte): Word {
    (b0 as Word << 24) | (b1 as Word << 16) | (b2 as Word << 8) | (b3 as Word)
  }

  function Xor4(x: Word, y: Word, z: Word, v: Word): Word { x ^ y ^ z ^ v }

  /** The message schedule. */
  function W(block: seq<Byte>, t: nat): Word
    requires |block| == 64
  {
    if t < 16 then WordOf(block[4 * t], block[4 * t + 1], block[4 * t + 2], block[4 * t + 3])
    else Rotate(Xor4(W(block, t - 3), W(block, t - 8), W(block, t - 14), W(block, t - 16)), 1)
  }

  datatype Regs = Regs(a: Word, b: Word, c: Word, d: Word, e: Word)

  function Sum(r: Word, f: Word, e: Word, k: Word, w: Word): Word { r + f + e + k + w }

  /** The working variables after t rounds. */
  function Rounds(r: Regs, block: seq<Byte>, t: nat): Regs
    requires |block| == 64
  {
    if t == 0 then r
    else
      var p := Rounds(r, block, t - 1);
      Regs(Sum(Rotate(p.a, 5), F(t - 1, p.b, p.c, p.d), p.e, K(t - 1), W(block, t - 1)),
           p.a, Rotate(p.b, 30), p.c, p.d)
  }

  function RegsOf(h: seq<Word>): Regs
    requires |h| == 5
  {
    Regs(h[0], h[1], h[2], h[3], h[4])
  }

  function Plus(x: Word, y: Word): Word { x + y }

  /** The hash value after one more block. */
  function Compressed(h: seq<Word>, block: seq<Byte>): (h': seq<Word>)
    requires |h| == 5 && |block| == 64
    ensures |h'| == 5
  {
    var r := Rounds(RegsOf(h), block, 80);
    [Plus(h[0], r.a), Plus(h[1], r.b), Plus(h[2], r.c), Plus(h[3], r.d), Plus(h[4], r.e)]
  }

  // ---- the compression function as coded ---------------------------------------------

  function Rotl32(x: Word, n: nat): Word
    requires n <= 32
  {
    (x << n) | (x >> (32 - n))
  }

  lemma RotlIsRotation(x: Word)
    ensures Rotl32(x, 1) == Rotate(x, 1) && Rotl32(x, 5) == Rotate(x, 5) && Rotl32(x, 30) == Rotate(x, 30)
  {
  }

  function ChCoded(x: Word, y: Word, z: Word): Word { (x & y) | (!x & z) }
  function MajCoded(x: Word, y: Word, z: Word): Word { (x & y) | (x & z) | (y & z) }

  /** The disjunctions in the code are the exclusive disjunctions of the standard. */
  lemma ChoiceAndMajority(x: Word, y: Word, z: Word)
    ensures ChCoded(x, y, z) == Ch(x, y, z) && MajCoded(x, y, z) == Maj(x, y, z)
  {
    ChoiceBits(x, y, z);
    MajorityBits(x, y, z);
  }

  lemma ChoiceBits(x: Word, y: Word, z: Word)
    ensures (x & y) | (!x & z) == (x & y) ^ (!x & z)
  {
  }

  lemma MajorityBits(x: Word, y: Word, z: Word)
    ensures (x & y) | (x & z) | (y & z) == (x & y) ^ (x & z) ^ (y & z)
  {
  }

  /** The round function as the code computes it. */
  function CodedF(t: nat, b: Word, c: Word, d: Word): Word {
    if t < 20 then ChCoded(b, c, d) else if t < 40 then Parity(b, c, d)
    else if t < 60 then MajCoded(b, c, d) else Parity(b, c, d)
  }

  lemma CodedFIsF(t: nat, b: Word, c: Word, d: Word)
    ensures CodedF(t, b, c, d) == F(t, b, c, d)
  {
    ChoiceAndMajority(b, c, d);
    hide Ch, Maj, ChCoded, MajCoded, Parity;
  }

  method Schedule(block: seq<Byte>) returns (ws: seq<Word>)
    requires |block| == 64
    ensures |ws| == 80 && forall t :: 0 <= t < 80 ==> ws[t] == W(block, t)
  {
    hide W, Rotl32, WordOf, Xor4;
    var w := new Word[80](_ => 0);
    for i := 0 to 16
      invariant forall t :: 0 <= t < i ==> w[t] == W(block, t)
    {
      FirstWords(block, i);
      w[i] := WordOf(block[i * 4], block[i * 4 + 1], block[i * 4 + 2], block[i * 4 + 3]);
    }
    for i := 16 to 80
      invariant forall t :: 0 <= t < i ==> w[t] == W(block, t)
    {
      LaterWords(block, i);
      w[i] := Rotl32(Xor4(w[i - 3], w[i - 8], w[i - 14], w[i - 16]), 1);
    }
    ws := w[..];
  }

  /** The eighty rounds, from the registers r. */
  method RunRounds(r: Regs, w: seq<Word>, ghost block: seq<Byte>) returns (r': Regs)
    requires |block| == 64 && |w| == 80 && forall t :: 0 <= t < 80 ==> w[t] == W(block, t)
    ensures r' == Rounds(r, block, 80)
  {
    hide W, Rounds, CodedF, K, Rotl32, Sum;
    var a, b, c, d, e := r.a, r.b, r.c, r.d, r.e;
    NoRounds(r, block);
    for i := 0 to 80
      invariant Regs(a, b, c, d, e) == Rounds(r, block, i)
    {
      RoundStep(r, block, i);
      var t := Sum(Rotl32(a, 5), CodedF(i, b, c, d), e, K(i), w[i]);
      e, d, c, b, a := d, c, Rotl32(b, 30), a, t;
    }
    r' := Regs(a, b, c, d, e);
  }

  /** Eighty rounds on the hash value, then add the result to it. */
  method Compress(h: array<Word>, block: seq<Byte>)
    requires h.Length == 5 && |block| == 64
    modifies h
    ensures h[..] == Compressed(old(h[..]), block)
  {
    hide W, Rounds, Plus;
    var w := Schedule(block);
    var r := RunRounds(Regs(h[0], h[1], h[2], h[3], h[4]), w, block);
    h[0], h[1], h[2] := Plus(h[0], r.a), Plus(h[1], r.b), Plus(h[2], r.c);
    h[3], h[4] := Plus(h[3], r.d), Plus(h[4], r.e);
  }

  lemma FirstWords(block: seq<Byte>, t: nat)
    requires |block| == 64 && t < 16
    ensures W(block, t) == WordOf(block[t * 4], block[t * 4 + 1], block[t * 4 + 2], block[t * 4 + 3])
  {
  }

  lemma LaterWords(block: seq<Byte>, t: nat)
    requires |block| == 64 && 16 <= t
    ensures W(block, t) == Rotl32(Xor4(W(block, t - 3), W(block, t - 8), W(block, t - 14), W(block, t - 16)), 1)
  {
    hide Rotl32, Xor4;
    RotlIsRotation(Xor4(W(block, t - 3), W(block, t - 8), W(block, t - 14), W(block, t - 16)));
  }

  lemma NoRounds(r: Regs, block: seq<Byte>)
    requires |block| == 64
    ensures Rounds(r, block, 0) == r
  {
  }

  lemma RoundStep(r: Regs, block: seq<Byte>, t: nat)
    requires |block| == 64
    ensures var p := Rounds(r, block, t);
      Rounds(r, block, t + 1)
      == Regs(Sum(Rotl32(p.a, 5), CodedF(t, p.b, p.c, p.d), p.e, K(t), W(block, t)), p.a, Rotl32(p.b, 30), p.c, p.d)
  {
    hide Rotl32, Rotate, F, CodedF, W, K, Sum;
    var p := Rounds(r, block, t);
    RotlIsRotation(p.a);
    RotlIsRotation(p.b);
    CodedFIsF(t, p.b, p.c, p.d);
  }
}
