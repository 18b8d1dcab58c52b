/** Incremental SHA-1 hashing: any way of feeding a message gives the hash of the padded message. */
module Sha1Stream {
  import opened Arith
  import opened Bytes
  import opened Sha1

  const H0: seq<Word> := [0x67452301, 0xEFCDAB89, 0x98BADCFE, 0x10325476, 0xC3D2E1F0]

  /** The hash value after the first k blocks of m. */
  function FoldBlocks(m: seq<Byte>, k: nat): (h: seq<Word>)
    requires 64 * k <= |m|
    ensures |h| == 5
  {
    if k == 0 then H0 else Compressed(FoldBlocks(m, k - 1), m[64 * (k - 1)..64 * k])
  }

  /** The hash value after all whole blocks of m. */
  function Fold(m: seq<Byte>): (h: seq<Word>)
    ensures |h| == 5
  {
    FoldBlocks(m, |m| / 64)
  }

  /** The bytes after the last whole block. */
  function Tail(m: seq<Byte>): (t: seq<Byte>)
    ensures |t| == |m| % 64
  {
    m[64 * (|m| / 64)..]
  }

  lemma {:induction false} FoldPrefix(m: seq<Byte>, d: seq<Byte>, k: nat)
    requires 64 * k <= |m|
    ensures FoldBlocks(m + d, k) == FoldBlocks(m, k)
  {
    hide Compressed;
    if k > 0 {
      FoldPrefix(m, d, k - 1);
      assert (m + d)[64 * (k - 1)..64 * k] == m[64 * (k - 1)..64 * k];
    }
  }

  /** Bytes that do not complete a block only lengthen the tail. */
  lemma AppendPart(m: seq<Byte>, d: seq<Byte>)
    requires |Tail(m)| + |d| < 64
    ensures Fold(m + d) == Fold(m) && Tail(m + d) == Tail(m) + d
  {
    FoldPrefix(m, d, |m| / 64);
    hide FoldBlocks;
  }

  /** Bytes that complete the block are compressed together with the tail. */
  lemma AppendWhole(m: seq<Byte>, d: seq<Byte>)
    requires |Tail(m)| + |d| == 64
    ensures Fold(m + d) == Compressed(Fold(m), Tail(m) + d) && Tail(m + d) == []
  {
    var k := |m| / 64;
    FoldPrefix(m, d, k);
    hide Compressed;
    assert |m + d| / 64 == k + 1;
    assert (m + d)[64 * k..64 * (k + 1)] == Tail(m) + d;
  }

  // ---- section 5.1.1 of FIPS 180-4 ---------------------------------------------------

  /** n bytes, the end mark and k zeros leave room for exactly the 64-bit length. */
  predicate LeavesLengthField(n: nat, k: nat) {
    (n + 1 + k) % 64 == 56
  }

  /** The fewest zero bytes that leave room for exactly the length. */
  function PadZeros(n: nat): (k: nat)
    ensures LeavesLengthField(n, k)
    ensures forall j: nat :: j < k ==> !LeavesLengthField(n, j)
  {
    (55 - n) % 64
  }

  /** The i-th most significant byte of a 64-bit number. */
  function LengthByte(bits: nat, i: nat): Byte
    requires i < 8
  {
    ((bits / Pow256(7 - i)) % 256) as Byte
  }

  /** The message length in bits, as 64 bits, most significant byte first. */
  function LengthField(n: nat): (f: seq<Byte>)
    ensures |f| == 8
  {
    seq(8, i requires 0 <= i < 8 => LengthByte(8 * n % 0x1_0000_0000_0000_0000, i))
  }

  function Padded(m: seq<Byte>): (p: seq<Byte>)
    ensures |p| % 64 == 0
  {
    m + [0x80] + Zeros(PadZeros(|m|)) + LengthField(|m|)
  }

  function WordBytes(w: Word): seq<Byte> {
    [(w >> 24) as Byte, ((w >> 16) & 0xFF) as Byte, ((w >> 8) & 0xFF) as Byte, (w & 0xFF) as Byte]
  }

  function DigestBytes(h: seq<Word>): (d: seq<Byte>)
    requires |h| == 5
    ensures |d| == 20
  {
    WordBytes(h[0]) + WordBytes(h[1]) + WordBytes(h[2]) + WordBytes(h[3]) + WordBytes(h[4])
  }

  /** The SHA-1 digest of m: compress the blocks of the padded message one after the other. */
  function Digest(m: seq<Byte>): (d: seq<Byte>)
    ensures |d| == 20
  {
    DigestBytes(Fold(Padded(m)))
  }

  lemma {:induction false} LengthFieldPrefix(n: nat, i: nat)
    requires i <= 8
    ensures BigEndian(LengthField(n)[..i]) == (8 * n % 0x1_0000_0000_0000_0000) / Pow256(8 - i)
  {
    var bits := 8 * n % 0x1_0000_0000_0000_0000;
    var f := LengthField(n);
    if i == 0 {
      assert Pow256(8) == 0x1_0000_0000_0000_0000;
    } else {
      LengthFieldPrefix(n, i - 1);
      assert f[..i][..i - 1] == f[..i - 1];
      ByteValue((bits / Pow256(8 - i)) % 256);
      var p := Pow256(8 - i);
      DivTwice(bits, p, 256);
    }
  }

  lemma DivTwice(x: nat, p: nat, q: nat)
    requires p > 0 && q > 0
    ensures q * p > 0 && x / (q * p) == (x / p) / q
  {
    var a, b := x / p, x % p;
    var c, d := a / q, a % q;
    assert x == a * p + b && a == c * q + d;
    MulAssoc(c, q, p);
    assert (c * q + d) * p == (c * q) * p + d * p;
    MulMono(1, q, 1, p);
    MulMono(d + 1, q, p, p);
    assert (d + 1) * p == d * p + p;
    DivModUnique(x, c, d * p + b, q * p);
  }

  /** The length field holds the length in bits exactly when the message is shorter than 2^61 bytes. */
  lemma LengthFieldExact(n: nat)
    ensures BigEndian(LengthField(n)) == 8 * n <==> n < 0x2000_0000_0000_0000
  {
    LengthFieldPrefix(n, 8);
    assert LengthField(n)[..8] == LengthField(n);
    assert Pow256(0) == 1;
    hide LengthField, BigEndian;
  }

  // ---- the incremental context -----------------------------------------------------------

  class Ctx {
    const h: array<Word>
    const buf: array<Byte>
    var bufLen: int
    var totalBytes: int
    /** Everything fed since the last Init. */
    ghost var msg: seq<Byte>

    ghost predicate Valid()
      reads this, h, buf
    {
      && h.Length == 5 && buf.Length == 64
      && 0 <= bufLen < 64
      && h[..] == Fold(msg)
      && buf[..bufLen] == Tail(msg)
      && totalBytes == |msg| % 0x1_0000_0000_0000_0000
    }

    constructor ()
      ensures Valid() && msg == [] && fresh(h) && fresh(buf)
    {
      h, buf := new Word[5](_ => 0), new Byte[64](_ => 0);
      bufLen, totalBytes := 0, 0;
      msg := [];
      new;
      Init();
    }

    method Init()
      requires h.Length == 5 && buf.Length == 64
      modifies this, h
      ensures Valid() && msg == []
    {
      EmptyFold();
      hide Fold, Tail;
      h[0], h[1], h[2], h[3], h[4] := H0[0], H0[1], H0[2], H0[3], H0[4];
      totalBytes := 0;
      bufLen := 0;
      msg := [];
      assert h[..] == H0;
    }

    /** Copy as much of data as fits into the current block; compress the block when it is full. */
    method Absorb(data: seq<Byte>) returns (take: nat)
      requires h.Length == 5 && buf.Length == 64 && 0 <= bufLen < 64 && data != []
      requires h[..] == Fold(msg) && buf[..bufLen] == Tail(msg)
      modifies this`bufLen, this`msg, h, buf
      ensures 0 < take <= |data| && msg == old(msg) + data[..take]
      ensures 0 <= bufLen < 64 && h[..] == Fold(msg) && buf[..bufLen] == Tail(msg)
    {
      hide Compressed, Fold, Tail;
      take := 64 - bufLen;
      if take > |data| { take := |data|; }
      ghost var before := buf[..bufLen];
      for i := 0 to take
        invariant h[..] == old(h[..]) && bufLen == old(bufLen) && msg == old(msg)
        invariant buf[..bufLen] == before
        invariant buf[bufLen..bufLen + i] == data[..i]
      {
        buf[bufLen + i] := data[i];
      }
      bufLen := bufLen + take;
      assert buf[..bufLen] == before + data[..take];
      if bufLen == 64 {
        AppendWhole(msg, data[..take]);
        assert buf[..] == before + data[..take];
        Compress(h, buf[..]);
        bufLen := 0;
      } else {
        AppendPart(msg, data[..take]);
      }
      msg := msg + data[..take];
    }

    method Update(data: seq<Byte>)
      requires Valid()
      modifies this, h, buf
      ensures Valid() && msg == old(msg) + data
    {
      hide Fold, Tail;
      totalBytes := (totalBytes + |data|) % 0x1_0000_0000_0000_0000;
      var rest := data;
      while rest != []
        invariant 0 <= bufLen < 64 && h[..] == Fold(msg) && buf[..bufLen] == Tail(msg)
        invariant totalBytes == (old(|msg|) + |data|) % 0x1_0000_0000_0000_0000
        invariant msg + rest == old(msg) + data
        decreases |rest|
      {
        ghost var m := msg;
        var take := Absorb(rest);
        assert m + rest == m + rest[..take] + rest[take..];
        rest := rest[take..];
      }
      assert msg + rest == msg;
    }

    /** Feed the end mark, and zeros until only the length field is missing from the block. */
    method Pad()
      requires Valid()
      modifies this, h, buf
      ensures Valid() && msg == old(msg) + [0x80] + Zeros(PadZeros(|old(msg)|))
    {
      hide Fold, Tail;
      ghost var m := msg;
      Update([0x80]);
      ghost var z := 0;
      while bufLen != 56
        invariant Valid() && z <= PadZeros(|m|) && msg == m + [0x80] + Zeros(z)
        decreases PadZeros(|m|) - z
      {
        TailLength(msg);
        assert z < PadZeros(|m|);
        Update([0]);
        z := z + 1;
        assert Zeros(z) == Zeros(z - 1) + [0];
      }
      TailLength(msg);
      assert LeavesLengthField(|m|, z);
    }

    method FinalDigest() returns (out: seq<Byte>)
      requires Valid()
      modifies this, h, buf
      ensures out == Digest(old(msg))
      ensures h.Length == 5 && buf.Length == 64
    {
      hide Fold, Tail, WordBytes, LengthByte, PadZeros, Zeros;
      ghost var m := msg;
      var totalBits := (totalBytes * 8) % 0x1_0000_0000_0000_0000;
      TotalBits(|m|, totalBytes);
      Pad();
      var lengthBE := seq(8, i requires 0 <= i < 8 => LengthByte(totalBits, i));
      assert lengthBE == LengthField(|m|);
      Update(lengthBE);
      out := [];
      for i := 0 to 5
        invariant h[..] == Fold(Padded(m))
        invariant out == (if i > 0 then WordBytes(h[0]) else []) + (if i > 1 then WordBytes(h[1]) else [])
                       + (if i > 2 then WordBytes(h[2]) else []) + (if i > 3 then WordBytes(h[3]) else [])
                       + (if i > 4 then WordBytes(h[4]) else [])
      {
        out := out + WordBytes(h[i]);
      }
    }
  }

  lemma EmptyFold()
    ensures Fold([]) == H0 && Tail([]) == []
  {
  }

  lemma TotalBits(n: nat, total: nat)
    requires total == n % 0x1_0000_0000_0000_0000
    ensures (total * 8) % 0x1_0000_0000_0000_0000 == 8 * n % 0x1_0000_0000_0000_0000
  {
  }

  lemma TailLength(m: seq<Byte>)
    ensures |Tail(m)| == |m| % 64
  {
  }

  /** The one-shot hash. */
  method Hash(data: seq<Byte>) returns (out: seq<Byte>)
    ensures out == Digest(data)
  {
    var s := new Ctx();
    s.Update(data);
    out := s.FinalDigest();
    assert [] + data == data;
  }

  function Concat(pieces: seq<seq<Byte>>): seq<Byte> {
    if pieces == [] then [] else Concat(pieces[..|pieces| - 1]) + pieces[|pieces| - 1]
  }

  /** However the message is cut into updates, the digest is that of the whole message. */
  method HashPieces(pieces: seq<seq<Byte>>) returns (out: seq<Byte>)
    ensures out == Digest(Concat(pieces))
  {
    hide Digest, Fold, Tail;
    var s := new Ctx();
    for i := 0 to |pieces|
      invariant s.Valid() && fresh(s) && fresh(s.h) && fresh(s.buf)
      invariant s.msg == Concat(pieces[..i])
    {
      s.Update(pieces[i]);
      assert pieces[..i + 1][..i] == pieces[..i];
    }
    assert pieces[..|pieces|] == pieces;
    out := s.FinalDigest();
  }
}
