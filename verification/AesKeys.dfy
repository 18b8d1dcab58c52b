/** The AES-128 key schedule (section 5.2 of FIPS 197). */
module AesKeys {
  import opened Bytes
  import opened AesTables
  import opened AesColumns
  import opened Aes

  /** The round constant of round r >= 1: the field power x^(r-1). */
  function Rcon(r: nat): Byte {
    if r <= 1 then 1 else Xtime(Rcon(r - 1))
  }

  const RCON: seq<Byte> := [0x00, 0x01, 0x02, 0x04, 0x08, 0x10, 0x20, 0x40, 0x80, 0x1b, 0x36]

  lemma {:induction false} RconTable(r: nat)
    requires 1 <= r <= 10
    ensures RCON[r] == Rcon(r)
  {
    if r > 1 {
      RconTable(r - 1);
      assert RCON[r] == Xtime(RCON[r - 1]) by {
        assert r == 2 || r == 3 || r == 4 || r == 5 || r == 6 || r == 7 || r == 8 || r == 9 || r == 10;
      }
    }
  }

  datatype Word = Word(b0: Byte, b1: Byte, b2: Byte, b3: Byte)

  function RotWord(w: Word): Word { Word(w.b1, w.b2, w.b3, w.b0) }
  function SubWord(w: Word): Word { Word(SBox(w.b0), SBox(w.b1), SBox(w.b2), SBox(w.b3)) }

  /** What is added to the word four places back: the previous word, transformed at the start of a round key. */
  function Addend(last: Word, at: nat): Word {
    if at % 16 == 0 then
      var s := SubWord(RotWord(last));
      Word(Xor(s.b0, Rcon(at / 16)), s.b1, s.b2, s.b3)
    else last
  }

  function WordAt(s: seq<Byte>, i: nat): Word
    requires i + 4 <= |s|
  {
    Word(s[i], s[i + 1], s[i + 2], s[i + 3])
  }

  function NextWord(s: seq<Byte>): (w: seq<Byte>)
    requires |s| >= 16
    ensures |w| == 4
  {
    var t := Addend(WordAt(s, |s| - 4), |s|);
    var p := WordAt(s, |s| - 16);
    [Xor(p.b0, t.b0), Xor(p.b1, t.b1), Xor(p.b2, t.b2), Xor(p.b3, t.b3)]
  }

  /** The key followed by the first w words derived from it. */
  function Expand(key: Block, w: nat): (s: seq<Byte>)
    ensures |s| == 16 + 4 * w
  {
    if w == 0 then key
    else Expand(key, w - 1) + NextWord(Expand(key, w - 1))
  }

  function KeySchedule(key: Block): RoundKeys { Expand(key, 40) }

  /** What the schedule adds at byte i, from the word just before it. */
  method AddendFor(out: array<Byte>, i: nat) returns (t0: Byte, t1: Byte, t2: Byte, t3: Byte)
    requires out.Length == 176 && 16 <= i < 176 && i % 4 == 0
    ensures Word(t0, t1, t2, t3) == Addend(WordAt(out[..i], i - 4), i)
  {
    hide Xor, SBox, Rcon;
    t0, t1, t2, t3 := out[i - 4], out[i - 3], out[i - 2], out[i - 1];
    if i % 16 == 0 {
      var s0, s1, s2, s3 := t1, t2, t3, t0;
      t0, t1, t2, t3 := SBox(s0), SBox(s1), SBox(s2), SBox(s3);
      RconTable(i / 16);
      t0 := Xor(t0, RCON[i / 16]);
    }
  }

  lemma Extended(p: seq<Byte>, q: seq<Byte>, t: Word)
    requires |q| == |p| + 4 && |p| >= 16 && t == Addend(WordAt(p, |p| - 4), |p|)
    requires forall j :: 0 <= j < |p| ==> q[j] == p[j]
    requires var o := WordAt(p, |p| - 16);
      WordAt(q, |p|) == Word(Xor(o.b0, t.b0), Xor(o.b1, t.b1), Xor(o.b2, t.b2), Xor(o.b3, t.b3))
    ensures q == p + NextWord(p)
  {
    hide Xor, Addend;
  }

  /** One turn of the schedule's loop: the word at i from the sixteen bytes before it. */
  method AppendWord(out: array<Byte>, i: nat)
    requires out.Length == 176 && 16 <= i < 176 && i % 4 == 0
    modifies out
    ensures out[..i + 4] == old(out[..i]) + NextWord(old(out[..i]))
  {
    hide Xor, Addend, NextWord;
    ghost var p := out[..i];
    var t0, t1, t2, t3 := AddendFor(out, i);
    out[i] := Xor(out[i - 16], t0);
    out[i + 1] := Xor(out[i - 15], t1);
    out[i + 2] := Xor(out[i - 14], t2);
    out[i + 3] := Xor(out[i - 13], t3);
    Extended(p, out[..i + 4], Word(t0, t1, t2, t3));
  }

  lemma ExpandStep(key: Block, w: nat, s: seq<Byte>)
    requires s == Expand(key, w)
    ensures s + NextWord(s) == Expand(key, w + 1)
  {
    hide NextWord;
  }

  method FirstKey(out: array<Byte>, key: array<Byte>)
    requires out.Length == 176 && key.Length == 16 && out != key
    modifies out
    ensures out[..16] == Expand(key[..], 0)
  {
    for i := 0 to 16
      invariant out[..i] == key[..i]
    {
      out[i] := key[i];
    }
    assert key[..16] == key[..];
  }

  method KeyExpand(out: array<Byte>, key: array<Byte>)
    requires out.Length == 176 && key.Length == 16 && out != key
    modifies out
    ensures out[..] == KeySchedule(key[..])
  {
    hide NextWord, Expand;
    ghost var k: Block := key[..];
    FirstKey(out, key);
    ghost var w := 0;
    var i := 16;
    while i < 176
      invariant i == 16 + 4 * w <= 176
      invariant out[..i] == Expand(k, w)
    {
      AppendWord(out, i);
      ExpandStep(k, w, Expand(k, w));
      i, w := i + 4, w + 1;
    }
    assert out[..] == out[..176];
  }

  // ---- one round key determines the whole schedule ----------------------------------------------

  function LastFour(s: seq<Byte>): Block
    requires |s| >= 16
  {
    s[|s| - 16..]
  }

  /** A derived word and its predecessor give back the word four places earlier. */
  lemma Recovered(p: seq<Byte>)
    requires |p| >= 16
    ensures var t, w := Addend(WordAt(p, |p| - 4), |p|), NextWord(p);
      WordAt(p, |p| - 16) == Word(Xor(w[0], t.b0), Xor(w[1], t.b1), Xor(w[2], t.b2), Xor(w[3], t.b3))
  {
    hide Xor, Addend;
    var t, o := Addend(WordAt(p, |p| - 4), |p|), WordAt(p, |p| - 16);
    XorLaws(o.b0, t.b0);
    XorLaws(o.b1, t.b1);
    XorLaws(o.b2, t.b2);
    XorLaws(o.b3, t.b3);
  }

  lemma SamePrevious(p: seq<Byte>, q: seq<Byte>)
    requires |p| == |q| >= 16
    requires LastFour(p + NextWord(p)) == LastFour(q + NextWord(q))
    ensures LastFour(p) == LastFour(q)
  {
    hide Xor, Addend, NextWord;
    Recovered(p);
    Recovered(q);
    var n := |p|;
    var x, y := LastFour(p + NextWord(p)), LastFour(q + NextWord(q));
    forall j | n - 12 <= j < n
      ensures p[j] == q[j]
    {
      assert x[j - (n - 12)] == p[j] && y[j - (n - 12)] == q[j];
    }
    assert WordAt(p, n - 4) == WordAt(q, n - 4);
    forall j | 0 <= j < 4
      ensures NextWord(p)[j] == NextWord(q)[j]
    {
      assert x[12 + j] == NextWord(p)[j] && y[12 + j] == NextWord(q)[j];
    }
    assert WordAt(p, n - 16) == WordAt(q, n - 16);
    var a, b := LastFour(p), LastFour(q);
    assert a[0] == b[0] && a[1] == b[1] && a[2] == b[2] && a[3] == b[3];
    forall j | 4 <= j < 16
      ensures a[j] == b[j]
    {
      assert a[j] == p[n - 16 + j] && b[j] == q[n - 16 + j];
    }
  }

  lemma {:induction false} SameKey(k1: Block, k2: Block, w: nat)
    requires LastFour(Expand(k1, w)) == LastFour(Expand(k2, w))
    ensures k1 == k2
  {
    if w > 0 {
      hide NextWord;
      SamePrevious(Expand(k1, w - 1), Expand(k2, w - 1));
      SameKey(k1, k2, w - 1);
    }
  }

  lemma {:induction false} ExpandPrefix(key: Block, w: nat, v: nat)
    requires w <= v
    ensures Expand(key, v)[..16 + 4 * w] == Expand(key, w)
  {
    if w < v {
      hide NextWord;
      ExpandPrefix(key, w, v - 1);
    }
  }

  /** Round key 0 is the key itself, and every round key is the block of four words derived in its round. */
  lemma RoundKeyIs(key: Block, r: nat)
    requires r <= 10
    ensures RoundKey(KeySchedule(key), r) == LastFour(Expand(key, 4 * r))
  {
    ExpandPrefix(key, 4 * r, 40);
  }

  /** The schedule is reversible from any round: keys that agree on one round key are equal. */
  lemma OneRoundKeyDeterminesTheKey(k1: Block, k2: Block, r: nat)
    requires r <= 10
    ensures RoundKey(KeySchedule(k1), r) == RoundKey(KeySchedule(k2), r) <==> k1 == k2
  {
    if RoundKey(KeySchedule(k1), r) == RoundKey(KeySchedule(k2), r) {
      RoundKeyIs(k1, r);
      RoundKeyIs(k2, r);
      SameKey(k1, k2, 4 * r);
    }
  }
}
