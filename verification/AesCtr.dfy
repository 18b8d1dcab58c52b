/** Counter mode (section 6.5 of SP 800-38A) over AES-128, in one shot and flit by flit. */
module AesCtr {
  import opened Arith
  import opened Bytes
  import opened AesColumns
  import opened Aes

  // ---- the counter --------------------------------------------------------------------------------

  /** Adding one to a big-endian number of fixed width, carrying from the last byte. */
  function Increment(s: seq<Byte>): (t: seq<Byte>)
    ensures |t| == |s|
  {
    if s == [] then []
    else
      var last := s[|s| - 1] + 1;
      if last != 0 then s[..|s| - 1] + [last] else Increment(s[..|s| - 1]) + [0]
  }

  function NextCounter(c: Block): Block { c[..8] + Increment(c[8..]) }

  /** The k-th counter block: the high eight bytes stay, the low eight count. */
  function Counter(iv: Block, k: nat): Block {
    if k == 0 then iv else NextCounter(Counter(iv, k - 1))
  }

  lemma ByteIncrement(b: Byte)
    ensures if b + 1 == 0 then b as nat == 255 else (b + 1) as nat == b as nat + 1
  {
  }

  lemma {:induction false} BigEndianBound(s: seq<Byte>)
    ensures BigEndian(s) < Pow256(|s|)
  {
    if s != [] {
      BigEndianBound(s[..|s| - 1]);
    }
  }

  lemma {:induction false} BigEndianInjective(s: seq<Byte>, t: seq<Byte>)
    requires |s| == |t| && BigEndian(s) == BigEndian(t)
    ensures s == t
  {
    if s != [] {
      var n := |s| - 1;
      var x, y := s[n] as nat, t[n] as nat;
      SplitLow(BigEndian(s[..n]), x, BigEndian(t[..n]), y);
      BigEndianInjective(s[..n], t[..n]);
      assert s[n] == t[n] by {
        SameByte(s[n], t[n]);
      }
      assert s == s[..n] + [s[n]] && t == t[..n] + [t[n]];
    }
  }

  lemma SameByte(a: Byte, b: Byte)
    requires a as nat == b as nat
    ensures a == b
  {
  }

  lemma SplitLow(a: nat, x: nat, b: nat, y: nat)
    requires x < 256 && y < 256 && 256 * a + x == 256 * b + y
    ensures a == b && x == y
  {
  }

  /** The carry loop adds one, modulo the width. */
  lemma {:induction false} IncrementValue(s: seq<Byte>)
    ensures BigEndian(Increment(s)) == (BigEndian(s) + 1) % Pow256(|s|)
  {
    if s != [] {
      var init, b := s[..|s| - 1], s[|s| - 1];
      var m := Pow256(|init|);
      ByteIncrement(b);
      BigEndianBound(s);
      BigEndianBound(init);
      if b + 1 != 0 {
        assert Increment(s)[..|s| - 1] == init;
        NoWrap(BigEndian(init), b as nat, m);
      } else {
        IncrementValue(init);
        assert Increment(s)[..|s| - 1] == Increment(init);
        Wrap(BigEndian(init), m);
      }
    }
  }

  lemma NoWrap(a: nat, x: nat, m: nat)
    requires a < m && x < 255
    ensures (256 * a + x + 1) % (256 * m) == 256 * a + x + 1
  {
    ModBelow(256 * a + x + 1, 256 * m);
  }

  lemma Wrap(a: nat, m: nat)
    requires a < m
    ensures (256 * a + 255 + 1) % (256 * m) == 256 * ((a + 1) % m)
  {
    if a + 1 == m {
      DivModUnique(256 * m, 1, 0, 256 * m);
      DivModUnique(m, 1, 0, m);
    } else {
      ModBelow(256 * a + 256, 256 * m);
      ModBelow(a + 1, m);
    }
  }

  lemma ModStep(a: nat, k: nat, m: nat)
    requires m > 0
    ensures ((a + k) % m + 1) % m == (a + (k + 1)) % m
  {
    var q, r := (a + k) / m, (a + k) % m;
    Quotient(a + k, m);
    if r + 1 == m {
      DivModUnique(m, 1, 0, m);
      Distribute(q, m);
      DivModUnique(a + (k + 1), q + 1, 0, m);
    } else {
      ModBelow(r + 1, m);
      DivModUnique(a + (k + 1), q, r + 1, m);
    }
  }

  lemma Quotient(x: nat, m: nat)
    requires m > 0
    ensures x == x / m * m + x % m && 0 <= x % m < m
  {
  }

  lemma Distribute(q: nat, m: nat)
    ensures (q + 1) * m == q * m + m
  {
  }

  /** Block k is exactly the block with the high half of iv and the low half low64(iv) + k mod 2^64. */
  lemma {:induction false} CounterValue(iv: Block, k: nat)
    ensures Counter(iv, k)[..8] == iv[..8]
    ensures BigEndian(Counter(iv, k)[8..]) == (BigEndian(iv[8..]) + k) % Pow256(8)
  {
    hide BigEndian, Increment, Pow256;
    if k == 0 {
      BigEndianBound(iv[8..]);
      ModBelow(BigEndian(iv[8..]), Pow256(8));
    } else {
      CounterValue(iv, k - 1);
      var c := Counter(iv, k - 1);
      IncrementValue(c[8..]);
      ModStep(BigEndian(iv[8..]), k - 1, Pow256(8));
      assert NextCounter(c)[..8] == c[..8] && NextCounter(c)[8..] == Increment(c[8..]);
    }
  }

  lemma CounterIs(iv: Block, k: nat, b: Block)
    ensures b == Counter(iv, k)
       <==> b[..8] == iv[..8] && BigEndian(b[8..]) == (BigEndian(iv[8..]) + k) % Pow256(8)
  {
    CounterValue(iv, k);
    var c := Counter(iv, k);
    if b[..8] == iv[..8] && BigEndian(b[8..]) == BigEndian(c[8..]) {
      BigEndianInjective(b[8..], c[8..]);
      assert b == b[..8] + b[8..] && c == c[..8] + c[8..];
    }
  }

  lemma CounterStep(iv: Block, k: nat)
    ensures Counter(iv, 0) == iv && Counter(iv, k + 1) == NextCounter(Counter(iv, k))
  {
    hide NextCounter;
  }

  lemma {:induction false} CounterAdd(iv: Block, j: nat, k: nat)
    ensures Counter(Counter(iv, j), k) == Counter(iv, j + k)
  {
    hide Counter, NextCounter;
    if k == 0 {
      CounterStep(Counter(iv, j), 0);
    } else {
      CounterAdd(iv, j, k - 1);
      CounterStep(Counter(iv, j), k - 1);
      CounterStep(iv, j + k - 1);
    }
  }

  /** Within 2^64 blocks no counter block repeats, and after 2^64 the first one comes back. */
  lemma CountersDistinct(iv: Block, j: nat, k: nat)
    ensures Counter(iv, j) == Counter(iv, k) <==> (j - k) % Pow256(8) == 0
  {
    hide Counter, BigEndian, Pow256;
    CounterValue(iv, j);
    CounterIs(iv, k, Counter(iv, j));
    var a, m := BigEndian(iv[8..]), Pow256(8);
    SameResidue(a + j, a + k, m);
  }

  lemma SameResidue(x: nat, y: nat, m: nat)
    requires m > 0
    ensures x % m == y % m <==> (x - y) % m == 0
  {
    Quotient(x, m);
    Quotient(y, m);
    var p, q, r, s := x / m, y / m, x % m, y % m;
    var d := p - q;
    assert x - y == d * m + (r - s) by {
      DistributeMinus(p, q, m);
    }
    if r >= s {
      DivModUnique(x - y, d, r - s, m);
    } else {
      assert x - y == (d - 1) * m + (m + r - s) by {
        DistributeMinus(d, 1, m);
      }
      DivModUnique(x - y, d - 1, m + r - s, m);
    }
  }

  lemma DistributeMinus(p: int, q: int, m: int)
    ensures (p - q) * m == p * m - q * m
  {
  }

  // ---- the mode -------------------------------------------------------------------------------------

  /** Byte i of the key stream. */
  function KeyStream(rk: RoundKeys, iv: Block, i: nat): Byte {
    Encrypt(Counter(iv, i / 16), rk)[i % 16]
  }

  function XCrypt(data: seq<Byte>, rk: RoundKeys, iv: Block): (r: seq<Byte>)
    ensures |r| == |data|
  {
    seq(|data|, i requires 0 <= i < |data| => Xor(data[i], KeyStream(rk, iv, i)))
  }

  lemma XorBits(a: Byte, b: Byte)
    ensures Xor(a, b) == a ^ b
  {
  }

  /** Byte i of the output is byte i of the input plus byte i mod 16 of the enciphered counter block i / 16. */
  lemma XCryptBytes(data: seq<Byte>, rk: RoundKeys, iv: Block, i: nat, x: Byte, k: Byte)
    requires i < |data| && x == data[i] && k == Encrypt(Counter(iv, i / 16), rk)[i % 16]
    ensures |XCrypt(data, rk, iv)| == |data| && XCrypt(data, rk, iv)[i] == x ^ k
  {
    hide Xor, Encrypt, Counter;
    XorBits(x, k);
  }

  /** Applying the mode twice is the identity, for every length. */
  lemma XCryptTwice(data: seq<Byte>, rk: RoundKeys, iv: Block)
    ensures XCrypt(XCrypt(data, rk, iv), rk, iv) == data
  {
    hide Xor, KeyStream;
    forall i | 0 <= i < |data|
      ensures Xor(Xor(data[i], KeyStream(rk, iv, i)), KeyStream(rk, iv, i)) == data[i]
    {
      XorLaws(data[i], KeyStream(rk, iv, i));
    }
  }

  lemma BlockOffset(n: nat, i: nat)
    ensures (16 * n + i) / 16 == n + i / 16 && (16 * n + i) % 16 == i % 16
  {
  }

  lemma KeyStreamLater(rk: RoundKeys, iv: Block, n: nat, i: nat)
    ensures KeyStream(rk, iv, 16 * n + i) == KeyStream(rk, Counter(iv, n), i)
  {
    hide Counter, Encrypt;
    BlockOffset(n, i);
    CounterAdd(iv, n, i / 16);
  }

  /** A message can be cut at any block boundary, the rest continuing with the counter reached. */
  lemma XCryptAppend(a: seq<Byte>, b: seq<Byte>, rk: RoundKeys, iv: Block, n: nat)
    requires |a| == 16 * n
    ensures XCrypt(a + b, rk, iv) == XCrypt(a, rk, iv) + XCrypt(b, rk, Counter(iv, n))
  {
    hide Xor, KeyStream, Counter;
    forall i | 0 <= i < |b|
      ensures KeyStream(rk, iv, |a| + i) == KeyStream(rk, Counter(iv, n), i)
    {
      KeyStreamLater(rk, iv, n, i);
    }
  }

  /** Two key-stream blocks of one message differ unless their counters are 2^64 apart. */
  lemma KeyStreamBlocksDistinct(rk: RoundKeys, iv: Block, j: nat, k: nat)
    ensures Encrypt(Counter(iv, j), rk) == Encrypt(Counter(iv, k), rk) <==> (j - k) % Pow256(8) == 0
  {
    hide Counter, Encrypt, Decrypt, Pow256;
    DecryptEncrypt(Counter(iv, j), rk);
    DecryptEncrypt(Counter(iv, k), rk);
    CountersDistinct(iv, j, k);
  }

  // ---- the loops -------------------------------------------------------------------------------------

  lemma IncrementCarries(s: seq<Byte>, i: nat)
    requires i < |s|
    ensures s[i] + 1 != 0 ==> Increment(s[..i + 1]) == s[..i] + [s[i] + 1]
    ensures s[i] + 1 == 0 ==> Increment(s[..i + 1]) == Increment(s[..i]) + [0]
  {
    assert s[..i + 1][..i] == s[..i];
  }

  method IncrementInPlace(ctr: array<Byte>)
    requires ctr.Length == 16
    modifies ctr
    ensures ctr[..] == NextCounter(old(ctr[..]))
  {
    hide Increment;
    ghost var was := ctr[..];
    ghost var low := was[8..];
    assert low[..8] == low;
    for i := 16 downto 8
      invariant ctr[..i] == was[..i]
      invariant Increment(low) == Increment(low[..i - 8]) + ctr[i..]
    {
      ghost var rest := ctr[i + 1..];
      assert ctr[i] == was[i] == low[i - 8];
      IncrementCarries(low, i - 8);
      ctr[i] := ctr[i] + 1;
      assert ctr[i..] == [ctr[i]] + rest;
      if ctr[i] != 0 {
        Joined(low[..i - 8], [ctr[i]], rest);
        assert ctr[..] == ctr[..i] + ctr[i..];
        HighThenLow(was, i);
        Joined(was[..8], low[..i - 8], ctr[i..]);
        return;
      }
      Joined(Increment(low[..i - 8]), [0], rest);
    }
    assert low[..0] == [];
  }

  lemma HighThenLow(c: Block, i: nat)
    requires 8 <= i <= 16
    ensures c[..i] == c[..8] + c[8..][..i - 8]
  {
  }

  lemma Joined(a: seq<Byte>, b: seq<Byte>, c: seq<Byte>)
    ensures (a + b) + c == a + (b + c)
  {
  }

  /** The inner loop: one block's worth of bytes, or what is left. */
  method XorChunk(out: array<Byte>, input: array<Byte>, ks: array<Byte>, off: nat, chunk: nat)
    requires ks.Length == 16 && chunk <= 16 && off + chunk <= input.Length && off + chunk <= out.Length && out != ks
    modifies out
    ensures forall j :: off <= j < off + chunk ==> out[j] == Xor(old(input[j]), ks[j - off])
    ensures forall j :: 0 <= j < out.Length && !(off <= j < off + chunk) ==> out[j] == old(out[j])
  {
    hide Xor;
    for i := 0 to chunk
      invariant forall j :: off <= j < off + i ==> out[j] == Xor(old(input[j]), ks[j - off])
      invariant forall j :: 0 <= j < out.Length && !(off <= j < off + i) ==> out[j] == old(out[j])
    {
      out[off + i] := Xor(input[off + i], ks[i]);
    }
  }

  lemma ChunkIs(rk: RoundKeys, iv: Block, k: nat, j: nat)
    requires 16 * k <= j < 16 * k + 16
    ensures KeyStream(rk, iv, j) == Encrypt(Counter(iv, k), rk)[j - 16 * k]
  {
    assert j / 16 == k;
  }

  /** The mode may run in place: out and input may be the same bytes. */
  method CtrXCrypt(out: array<Byte>, input: array<Byte>, len: nat, rk: array<Byte>, iv: array<Byte>)
    requires len <= input.Length && len <= out.Length && rk.Length == 176 && iv.Length == 16 && out != rk && out != iv
    modifies out
    ensures out[..len] == XCrypt(old(input[..len]), rk[..], iv[..])
    ensures forall j :: len <= j < out.Length ==> out[j] == old(out[j])
  {
    hide Xor, KeyStream, Encrypt, NextCounter;
    ghost var was := input[..len];
    ghost var keys, start := rk[..], iv[..];
    var ctr, ks := new Byte[16], new Byte[16];
    CopyBlock(ctr, iv);
    var off := 0;
    ghost var k := 0;
    while off < len
      invariant off <= len && (off == 16 * k || off == len)
      invariant rk[..] == keys && ctr[..] == Counter(start, k)
      invariant forall j :: 0 <= j < off ==> out[j] == Xor(was[j], KeyStream(keys, start, j))
      invariant forall j :: off <= j < len ==> input[j] == was[j]
      invariant forall j :: len <= j < out.Length ==> out[j] == old(out[j])
    {
      EncryptBlock(ks, ctr, rk);
      var chunk := if len - off < 16 then len - off else 16;
      XorChunk(out, input, ks, off, chunk);
      forall j | off <= j < off + chunk
        ensures out[j] == Xor(was[j], KeyStream(keys, start, j))
      {
        ChunkIs(keys, start, k, j);
      }
      IncrementInPlace(ctr);
      off, k := off + chunk, k + 1;
    }
  }
}
