/** The compression function as one sequence of words, written out on bits (section 6.1.2 of FIPS 180-4). */
module Sha1Recurrence {
  import opened Bytes
  import opened Sha1
  import opened Sha1Stream

  // ---- words and their bytes ------------------------------------------------------------------

  lemma JoinedBits(w: Word, b0: Byte, b1: Byte, b2: Byte, b3: Byte)
    requires w == (b0 as Word << 24) | (b1 as Word << 16) | (b2 as Word << 8) | (b3 as Word)
    ensures w as nat == 0x100_0000 * b0 as nat + 0x1_0000 * b1 as nat + 0x100 * b2 as nat + b3 as nat
  {
    assert ((b0 as Word << 24) | (b1 as Word << 16) | (b2 as Word << 8) | (b3 as Word)) as nat
        == 0x100_0000 * b0 as nat + 0x1_0000 * b1 as nat + 0x100 * b2 as nat + b3 as nat;
  }

  lemma JoinedBytes(b0: Byte, b1: Byte, b2: Byte, b3: Byte)
    ensures WordOf(b0, b1, b2, b3) as nat == 0x100_0000 * b0 as nat + 0x1_0000 * b1 as nat + 0x100 * b2 as nat + b3 as nat
  {
    JoinedBits(WordOf(b0, b1, b2, b3), b0, b1, b2, b3);
  }

  lemma FourBytes(b0: Byte, b1: Byte, b2: Byte, b3: Byte)
    ensures BigEndian([b0, b1, b2, b3]) == 0x100_0000 * b0 as nat + 0x1_0000 * b1 as nat + 0x100 * b2 as nat + b3 as nat
  {
    assert [b0, b1, b2, b3][..3] == [b0, b1, b2];
    assert [b0, b1, b2][..2] == [b0, b1];
    assert [b0, b1][..1] == [b0];
    assert [b0][..0] == [];
    assert BigEndian([b0]) == b0 as nat;
    assert BigEndian([b0, b1]) == 0x100 * BigEndian([b0]) + b1 as nat;
    assert BigEndian([b0, b1, b2]) == 0x100 * BigEndian([b0, b1]) + b2 as nat;
  }

  lemma BytesOfWord(w: Word)
    ensures WordOf((w >> 24) as Byte, ((w >> 16) & 0xFF) as Byte, ((w >> 8) & 0xFF) as Byte, (w & 0xFF) as Byte) == w
  {
  }

  /** The four bytes of a word, as a big-endian number, are the word. */
  lemma WordNumber(w: Word)
    ensures |WordBytes(w)| == 4 && BigEndian(WordBytes(w)) == w as nat
  {
    var s := WordBytes(w);
    BytesOfWord(w);
    hide WordOf, BigEndian;
    JoinedBytes(s[0], s[1], s[2], s[3]);
    FourBytes(s[0], s[1], s[2], s[3]);
  }

  /** Bytes 4 i to 4 i + 3 of a digest are the i-th word of the hash value, most significant byte first. */
  lemma DigestNumbers(h: seq<Word>, i: nat)
    requires |h| == 5 && i < 5
    ensures BigEndian(DigestBytes(h)[4 * i..4 * i + 4]) == h[i] as nat
  {
    WordNumber(h[0]);
    WordNumber(h[1]);
    WordNumber(h[2]);
    WordNumber(h[3]);
    WordNumber(h[4]);
    hide WordBytes, BigEndian;
    var ws := [WordBytes(h[0]), WordBytes(h[1]), WordBytes(h[2]), WordBytes(h[3]), WordBytes(h[4])];
    GroupOfFour(ws, i);
  }

  lemma GroupOfFour(ws: seq<seq<Byte>>, i: nat)
    requires |ws| == 5 && |ws[0]| == |ws[1]| == |ws[2]| == |ws[3]| == |ws[4]| == 4 && i < 5
    ensures (ws[0] + ws[1] + ws[2] + ws[3] + ws[4])[4 * i..4 * i + 4] == ws[i]
  {
    var d := ws[0] + ws[1] + ws[2] + ws[3] + ws[4];
    forall j | 0 <= j < 4
      ensures d[4 * i + j] == ws[i][j]
    {
      assert i == 0 || i == 1 || i == 2 || i == 3 || i == 4;
    }
  }

  /** The initial words hold, least significant byte first, 01 23 45 67 89 AB CD EF, the same backwards, and F0 E1 D2 C3. */
  lemma InitialWords(i: nat)
    requires i < 5
    ensures H0[i] as nat == if i < 2 then InitialWord(0x01 + 0x88 * i, 0x22) else if i < 4 then InitialWord(0xFE - 0x88 * (i - 2), -0x22) else InitialWord(0xF0, -0x0F)
  {
    assert i == 0 || i == 1 || i == 2 || i == 3 || i == 4;
  }

  /** The number whose bytes, least significant first, are first, first + step, first + 2 step and first + 3 step. */
  function InitialWord(first: int, step: int): int {
    first + 0x100 * (first + step) + 0x1_0000 * (first + 2 * step) + 0x100_0000 * (first + 3 * step)
  }

  // ---- constants and schedule -------------------------------------------------------------------

  /** The constant of each range is the integer part of 2^30 times the square root of 2, 3, 5 or 10. */
  lemma ConstantsAreRoots(t: nat)
    requires t < 80
    ensures var c, k := if t < 20 then 2 else if t < 40 then 3 else if t < 60 then 5 else 10, K(t) as nat;
      k * k <= c * 0x1000_0000_0000_0000 < (k + 1) * (k + 1)
  {
  }

  /** The first sixteen words of the schedule are those of the block. */
  lemma ScheduleStarts(block: seq<Byte>, t: nat)
    requires |block| == 64 && t < 16
    ensures W(block, t) as nat == BigEndian(block[4 * t..4 * t + 4])
  {
    hide WordOf, BigEndian;
    var b0, b1, b2, b3 := block[4 * t], block[4 * t + 1], block[4 * t + 2], block[4 * t + 3];
    assert block[4 * t..4 * t + 4] == [b0, b1, b2, b3];
    JoinedBytes(b0, b1, b2, b3);
    FourBytes(b0, b1, b2, b3);
  }

  /** Every later word is the sum of four earlier ones, rotated left by one. */
  lemma ScheduleContinues(block: seq<Byte>, t: nat, x: Word, y: Word, z: Word, v: Word)
    requires |block| == 64 && 16 <= t
    requires x == W(block, t - 3) && y == W(block, t - 8) && z == W(block, t - 14) && v == W(block, t - 16)
    ensures W(block, t) == ((x ^ y ^ z ^ v) << 1) | ((x ^ y ^ z ^ v) >> 31)
  {
    LaterWords(block, t);
    TurnedSum(x, y, z, v);
    hide W, Rotl32, Xor4;
  }

  lemma TurnedSum(x: Word, y: Word, z: Word, v: Word)
    ensures Rotl32(Xor4(x, y, z, v), 1) == ((x ^ y ^ z ^ v) << 1) | ((x ^ y ^ z ^ v) >> 31)
  {
  }

  // ---- the rounds as one sequence -------------------------------------------------------------------

  // the operations, on bits
  function Left5(x: Word): Word { (x << 5) | (x >> 27) }
  function Left30(x: Word): Word { (x << 30) | (x >> 2) }
  function Right30(x: Word): Word { (x << 2) | (x >> 30) }

  function Choice(b: Word, c: Word, d: Word): Word { (b & c) | (!b & d) }
  function Odd(b: Word, c: Word, d: Word): Word { b ^ c ^ d }
  function Most(b: Word, c: Word, d: Word): Word { (b & c) | (b & d) | (c & d) }

  function Mixed(t: int, b: Word, c: Word, d: Word): Word {
    if t < 20 then Choice(b, c, d) else if t < 40 then Odd(b, c, d) else if t < 60 then Most(b, c, d) else Odd(b, c, d)
  }

  function Total(v: Word, w: Word, x: Word, y: Word, z: Word): Word { v + w + x + y + z }

  /** The first register after i rounds; the other registers start the sequence at -1 to -4, the last three turned back. */
  function A(r: Regs, block: seq<Byte>, i: int): Word
    requires |block| == 64 && i >= -4
    decreases i + 4
  {
    if i == -4 then Right30(r.e)
    else if i == -3 then Right30(r.d)
    else if i == -2 then Right30(r.c)
    else if i == -1 then r.b
    else if i == 0 then r.a
    else
      var t := i - 1;
      var c, d, e := Left30(A(r, block, t - 2)), Left30(A(r, block, t - 3)), Left30(A(r, block, t - 4));
      Total(Left5(A(r, block, t)), Mixed(t, A(r, block, t - 1), c, d), e, K(t), W(block, t))
  }

  lemma TurnedBack(x: Word)
    ensures Left30(Right30(x)) == x
  {
  }

  lemma RotationsAreShifts(x: Word)
    ensures Rotl32(x, 5) == Left5(x) && Rotl32(x, 30) == Left30(x)
  {
  }

  lemma MixedIsCoded(t: nat, b: Word, c: Word, d: Word)
    ensures CodedF(t, b, c, d) == Mixed(t, b, c, d)
  {
    ChoiceIs(b, c, d);
    OddIs(b, c, d);
    MostIs(b, c, d);
    hide Choice, Odd, Most, ChCoded, Parity, MajCoded;
  }

  lemma ChoiceIs(b: Word, c: Word, d: Word)
    ensures ChCoded(b, c, d) == Choice(b, c, d)
  {
  }

  lemma OddIs(b: Word, c: Word, d: Word)
    ensures Parity(b, c, d) == Odd(b, c, d)
  {
  }

  lemma MostIs(b: Word, c: Word, d: Word)
    ensures MajCoded(b, c, d) == Most(b, c, d)
  {
  }

  lemma TotalIsSum(v: Word, w: Word, x: Word, y: Word, z: Word)
    ensures Sum(v, w, x, y, z) == Total(v, w, x, y, z)
  {
  }

  /** The working variables after t rounds are five consecutive terms of the sequence, the last three rotated by 30. */
  lemma {:induction false} RoundsAreTerms(r: Regs, block: seq<Byte>, t: nat)
    requires |block| == 64
    ensures Rounds(r, block, t)
         == Regs(A(r, block, t), A(r, block, t - 1), Left30(A(r, block, t - 2)), Left30(A(r, block, t - 3)), Left30(A(r, block, t - 4)))
  {
    hide Left5, Left30, Right30, Mixed, Total, Sum, CodedF, Rotl32, Rounds, K, W;
    if t == 0 {
      TurnedBack(r.c);
      TurnedBack(r.d);
      TurnedBack(r.e);
      NoRounds(r, block);
    } else {
      RoundsAreTerms(r, block, t - 1);
      RoundStep(r, block, t - 1);
      var p := Rounds(r, block, t - 1);
      RotationsAreShifts(p.a);
      RotationsAreShifts(p.b);
      MixedIsCoded(t - 1, p.b, p.c, p.d);
      TotalIsSum(Left5(p.a), Mixed(t - 1, p.b, p.c, p.d), p.e, K(t - 1), W(block, t - 1));
    }
  }

  function Added(x: Word, y: Word): Word { x + y }

  lemma PlusIsAdded(x: Word, y: Word)
    ensures Plus(x, y) == Added(x, y)
  {
  }

  /** Compression adds the last five terms, the last three rotated by 30, to the hash value. */
  lemma CompressedIsSum(h: seq<Word>, block: seq<Byte>)
    requires |h| == 5 && |block| == 64
    ensures var r := Regs(h[0], h[1], h[2], h[3], h[4]);
      Compressed(h, block) == [Added(h[0], A(r, block, 80)), Added(h[1], A(r, block, 79)), Added(h[2], Left30(A(r, block, 78))),
                               Added(h[3], Left30(A(r, block, 77))), Added(h[4], Left30(A(r, block, 76)))]
  {
    hide A, Rounds, Plus, Left30, W, Added;
    var r := RegsOf(h);
    RoundsAreTerms(r, block, 80);
    PlusIsAdded(h[0], A(r, block, 80));
    PlusIsAdded(h[1], A(r, block, 79));
    PlusIsAdded(h[2], Left30(A(r, block, 78)));
    PlusIsAdded(h[3], Left30(A(r, block, 77)));
    PlusIsAdded(h[4], Left30(A(r, block, 76)));
  }

  // ---- the padded message -----------------------------------------------------------------------------

  /**
   * The padded message is the message, the byte 0x80, fewer than 64 zeros and the bit length as a 64-bit
   * big-endian number, and fills its blocks.
   */
  lemma PaddedIs(m: seq<Byte>)
    ensures var p, n := Padded(m), |m|;
      && |p| % 64 == 0 && n + 9 <= |p| < n + 73 && p[..n] == m && p[n] == 0x80
      && (forall i :: n < i < |p| - 8 ==> p[i] == 0)
      && BigEndian(p[|p| - 8..]) == 8 * n % 0x1_0000_0000_0000_0000
  {
    LengthFieldPrefix(|m|, 8);
    hide BigEndian, LengthField;
    var p, f := Padded(m), LengthField(|m|);
    assert f[..8] == f && p[|p| - 8..] == f;
    assert Pow256(0) == 1;
  }

  /** The digest is the last hash value: from the initial words, compression of each block of the padded message in turn. */
  lemma DigestIs(m: seq<Byte>, hs: seq<seq<Word>>)
    requires var p := Padded(m); |hs| == |p| / 64 + 1 && hs[0] == H0
    requires forall k :: 0 <= k < |hs| ==> |hs[k]| == 5
    requires forall k :: 0 < k < |hs| ==> hs[k] == Compressed(hs[k - 1], Padded(m)[64 * (k - 1)..64 * k])
    ensures forall i :: 0 <= i < 5 ==> BigEndian(Digest(m)[4 * i..4 * i + 4]) == hs[|hs| - 1][i] as nat
  {
    hide BigEndian, Compressed, Padded, DigestBytes;
    var p := Padded(m);
    FoldsAre(p, hs, |p| / 64);
    forall i | 0 <= i < 5
      ensures BigEndian(Digest(m)[4 * i..4 * i + 4]) == hs[|hs| - 1][i] as nat
    {
      DigestNumbers(hs[|hs| - 1], i);
    }
  }

  lemma {:induction false} FoldsAre(p: seq<Byte>, hs: seq<seq<Word>>, k: nat)
    requires k < |hs| && 64 * (|hs| - 1) <= |p| && hs[0] == H0
    requires forall k :: 0 <= k < |hs| ==> |hs[k]| == 5
    requires forall k :: 0 < k < |hs| ==> hs[k] == Compressed(hs[k - 1], p[64 * (k - 1)..64 * k])
    ensures FoldBlocks(p, k) == hs[k]
  {
    hide Compressed;
    if k > 0 {
      FoldsAre(p, hs, k - 1);
    }
  }
}
