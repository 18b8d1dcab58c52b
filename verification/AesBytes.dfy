/** The cipher, its inverse and the key schedule byte by byte (sections 5.1 to 5.3 of FIPS 197). */
module AesBytes {
  import opened Bytes
  import opened AesTables
  import opened AesColumns
  import opened AesField
  import opened Aes
  import opened AesKeys

  // the exclusive disjunction of two to five bytes
  function Both(a: Byte, b: Byte): Byte { a ^ b }
  function Three(a: Byte, b: Byte, c: Byte): Byte { a ^ b ^ c }
  function Four(a: Byte, b: Byte, c: Byte, d: Byte): Byte { a ^ b ^ c ^ d }
  function Five(a: Byte, b: Byte, c: Byte, d: Byte, e: Byte): Byte { a ^ b ^ c ^ d ^ e }

  lemma XorIsBoth(a: Byte, b: Byte)
    ensures Xor(a, b) == Both(a, b)
  {
  }

  lemma XorIsThree(a: Byte, b: Byte, c: Byte)
    ensures Xor(a, Xor(b, c)) == Three(a, b, c)
  {
  }

  lemma SumIsFour(a: Byte, b: Byte, c: Byte, d: Byte)
    ensures Sum(a, b, c, d) == Four(a, b, c, d)
  {
  }

  lemma XorIsFive(a: Byte, b: Byte, c: Byte, d: Byte, k: Byte)
    ensures Xor(Sum(a, b, c, d), k) == Five(a, b, c, d, k)
  {
  }

  lemma XorIsSum(a: Byte, b: Byte)
    ensures Xor(a, b) == a ^ b
  {
  }

  /** Adding round key r to a state adds bytes 16 r to 16 r + 15 of the schedule. */
  lemma KeyAdded(s: Block, rk: RoundKeys, r: nat, i: nat, x: Byte, k: Byte)
    requires r <= 10 && i < 16 && x == s[i] && k == rk[16 * r + i]
    ensures AddRoundKey(s, RoundKey(rk, r))[i] == x ^ k
  {
    hide Xor;
    XorIsSum(x, k);
  }

  /** The first state is the block with the first sixteen bytes of the schedule added. */
  lemma FirstState(b: Block, rk: RoundKeys, i: nat, x: Byte, k: Byte)
    requires i < 16 && x == b[i] && k == rk[i]
    ensures AfterRounds(b, rk, 0)[i] == x ^ k
  {
    hide AddRoundKey, RoundKey;
    KeyAdded(b, rk, 0, i, x, k);
  }

  /** Row j of column c of a row-shifted state comes from column c + j, and of an inversely shifted one from column c - j. */
  lemma ShiftedByte(s: Block, c: nat, j: nat, d: nat)
    requires c < 4 && j < 4 && d == (c + j) % 4
    ensures ShiftRows(s)[4 * c + j] == s[4 * d + j]
  {
    hide LeftOf, RightOf;
    PositionsOf(c, j);
  }

  lemma InvShiftedByte(s: Block, c: nat, j: nat, d: nat)
    requires c < 4 && j < 4 && d == (c + 4 - j) % 4
    ensures InvShiftRows(s)[4 * c + j] == s[4 * d + j]
  {
    hide LeftOf, RightOf;
    PositionsOf(c, j);
  }

  lemma MixedBytes(s: Block, c: nat)
    requires c < 4
    ensures ColumnAt(MixColumns(s), c) == MixColumn(ColumnAt(s, c)) && ColumnAt(InvMixColumns(s), c) == InvMixColumn(ColumnAt(s, c))
  {
    hide MixColumn, InvMixColumn, FromColumns, ColumnAt;
    ColumnsOfColumns(MixColumn(ColumnAt(s, 0)), MixColumn(ColumnAt(s, 1)), MixColumn(ColumnAt(s, 2)), MixColumn(ColumnAt(s, 3)));
    ColumnsOfColumns(InvMixColumn(ColumnAt(s, 0)), InvMixColumn(ColumnAt(s, 1)), InvMixColumn(ColumnAt(s, 2)), InvMixColumn(ColumnAt(s, 3)));
    assert c == 0 || c == 1 || c == 2 || c == 3;
  }

  /** The four bytes of column c of a key-added state. */
  lemma ColumnAdded(s: Block, rk: RoundKeys, r: nat, c: nat, m: Column, k: Column)
    requires r <= 10 && c < 4 && m == ColumnAt(s, c)
    requires k == Column(rk[16 * r + 4 * c], rk[16 * r + 4 * c + 1], rk[16 * r + 4 * c + 2], rk[16 * r + 4 * c + 3])
    ensures ColumnAt(AddRoundKey(s, RoundKey(rk, r)), c) == Plus(m, k)
  {
    hide Xor;
  }

  lemma Substituted(s: Block, i: nat)
    requires i < 16
    ensures SubBytes(s)[i] == SBox(s[i]) && InvSubBytes(s)[i] == InvSBox(s[i])
  {
    hide SBox, InvSBox;
  }

  /** What a column of substituted and row-shifted bytes is. */
  lemma SubstitutedColumn(s: Block, c: nat)
    requires c < 4
    ensures ColumnAt(ShiftRows(SubBytes(s)), c)
         == Column(SBox(s[4 * c]), SBox(s[4 * ((c + 1) % 4) + 1]), SBox(s[4 * ((c + 2) % 4) + 2]), SBox(s[4 * ((c + 3) % 4) + 3]))
  {
    hide SBox, ShiftRows, SubBytes;
    var t := SubBytes(s);
    SourceBytes(t, c, c, (c + 1) % 4, (c + 2) % 4, (c + 3) % 4);
    Substituted(s, 4 * c);
    Substituted(s, 4 * ((c + 1) % 4) + 1);
    Substituted(s, 4 * ((c + 2) % 4) + 2);
    Substituted(s, 4 * ((c + 3) % 4) + 3);
  }

  lemma SourceBytes(t: Block, c: nat, c0: nat, c1: nat, c2: nat, c3: nat)
    requires c < 4 && c0 == c && c1 == (c + 1) % 4 && c2 == (c + 2) % 4 && c3 == (c + 3) % 4
    ensures ColumnAt(ShiftRows(t), c) == Column(t[4 * c0], t[4 * c1 + 1], t[4 * c2 + 2], t[4 * c3 + 3])
  {
    hide ShiftRows;
    ShiftedByte(t, c, 0, c0);
    ShiftedByte(t, c, 1, c1);
    ShiftedByte(t, c, 2, c2);
    ShiftedByte(t, c, 3, c3);
  }

  lemma InvSourceBytes(t: Block, c: nat, c0: nat, c1: nat, c2: nat, c3: nat)
    requires c < 4 && c0 == c && c1 == (c + 1) % 4 && c2 == (c + 2) % 4 && c3 == (c + 3) % 4
    ensures ColumnAt(InvShiftRows(t), c) == Column(t[4 * c0], t[4 * c3 + 1], t[4 * c2 + 2], t[4 * c1 + 3])
  {
    hide InvShiftRows;
    InvShiftedByte(t, c, 0, c0);
    InvShiftedByte(t, c, 1, c3);
    InvShiftedByte(t, c, 2, c2);
    InvShiftedByte(t, c, 3, c1);
  }

  lemma InvSubstitutedColumn(s: Block, c: nat)
    requires c < 4
    ensures ColumnAt(InvSubBytes(InvShiftRows(s)), c)
         == Column(InvSBox(s[4 * c]), InvSBox(s[4 * ((c + 3) % 4) + 1]), InvSBox(s[4 * ((c + 2) % 4) + 2]), InvSBox(s[4 * ((c + 1) % 4) + 3]))
  {
    hide InvSBox, InvShiftRows, InvSubBytes;
    var t := InvShiftRows(s);
    InvSourceBytes(s, c, c, (c + 1) % 4, (c + 2) % 4, (c + 3) % 4);
    Substituted(t, 4 * c);
    Substituted(t, 4 * c + 1);
    Substituted(t, 4 * c + 2);
    Substituted(t, 4 * c + 3);
  }

  /** Column c of the schedule's round key r. */
  function KeyColumn(rk: RoundKeys, r: nat, c: nat): Column
    requires r <= 10 && c < 4
  {
    Column(rk[16 * r + 4 * c], rk[16 * r + 4 * c + 1], rk[16 * r + 4 * c + 2], rk[16 * r + 4 * c + 3])
  }

  /** The matrix of section 5.1.3 on four bytes, plus four bytes of a round key. */
  function RoundMatrix(x: Byte, y: Byte, z: Byte, w: Byte, k: Column): Column {
    Column(Five(Times(x, 2), Times(y, 3), z, w, k.a0), Five(x, Times(y, 2), Times(z, 3), w, k.a1),
           Five(x, y, Times(z, 2), Times(w, 3), k.a2), Five(Times(x, 3), y, z, Times(w, 2), k.a3))
  }

  lemma MatrixColumn(x: Byte, y: Byte, z: Byte, w: Byte, k: Column)
    ensures Plus(MixColumn(Column(x, y, z, w)), k) == RoundMatrix(x, y, z, w, k)
  {
    hide Times, MixColumn, Xor, Sum, Five;
    MixColumnIsMatrix(Column(x, y, z, w));
    XorIsFive(Times(x, 2), Times(y, 3), z, w, k.a0);
    XorIsFive(x, Times(y, 2), Times(z, 3), w, k.a1);
    XorIsFive(x, y, Times(z, 2), Times(w, 3), k.a2);
    XorIsFive(Times(x, 3), y, z, Times(w, 2), k.a3);
  }

  lemma RoundColumn(b: Block, rk: RoundKeys, r: nat, c: nat, x: Column)
    requires 1 <= r < 10 && c < 4
    requires var s := AfterRounds(b, rk, r - 1);
      x == Column(SBox(s[4 * c]), SBox(s[4 * ((c + 1) % 4) + 1]), SBox(s[4 * ((c + 2) % 4) + 2]), SBox(s[4 * ((c + 3) % 4) + 3]))
    ensures ColumnAt(AfterRounds(b, rk, r), c) == Plus(MixColumn(x), KeyColumn(rk, r, c))
  {
    hide SBox, MixColumn, MixColumns, ShiftRows, SubBytes, AddRoundKey, RoundKey, Plus, ColumnAt;
    var s := AfterRounds(b, rk, r - 1);
    SubstitutedColumn(s, c);
    var m := MixColumns(ShiftRows(SubBytes(s)));
    MixedBytes(ShiftRows(SubBytes(s)), c);
    ColumnAdded(m, rk, r, c, ColumnAt(m, c), KeyColumn(rk, r, c));
  }

  /**
   * Round r of the cipher, column c: x, y, z and w are the substituted bytes that the row shift brings into the
   * column, and each row is the matrix of section 5.1.3 of FIPS 197 on them, plus its byte of the round key.
   */
  lemma RoundBytes(b: Block, rk: RoundKeys, r: nat, c: nat, x: Byte, y: Byte, z: Byte, w: Byte)
    requires 1 <= r < 10 && c < 4
    requires var s := AfterRounds(b, rk, r - 1);
      && x == SBox(s[4 * c]) && y == SBox(s[4 * ((c + 1) % 4) + 1])
      && z == SBox(s[4 * ((c + 2) % 4) + 2]) && w == SBox(s[4 * ((c + 3) % 4) + 3])
    ensures var t := AfterRounds(b, rk, r);
      Column(t[4 * c], t[4 * c + 1], t[4 * c + 2], t[4 * c + 3]) == RoundMatrix(x, y, z, w, KeyColumn(rk, r, c))
  {
    hide SBox, RoundMatrix, MixColumn, Plus;
    RoundColumn(b, rk, r, c, Column(x, y, z, w));
    MatrixColumn(x, y, z, w, KeyColumn(rk, r, c));
    hide AfterRounds;
  }

  /** The ciphertext: the last state substituted and row-shifted, plus the last sixteen bytes of the schedule. */
  lemma EncryptBytes(b: Block, rk: RoundKeys, c: nat, j: nat, x: Byte, k: Byte)
    requires c < 4 && j < 4 && x == SBox(AfterRounds(b, rk, 9)[4 * ((c + j) % 4) + j]) && k == rk[160 + 4 * c + j]
    ensures Encrypt(b, rk)[4 * c + j] == x ^ k
  {
    hide SBox, ShiftRows, AddRoundKey, RoundKey, AfterRounds;
    var s := SubBytes(AfterRounds(b, rk, 9));
    ShiftedByte(s, c, j, (c + j) % 4);
    KeyAdded(ShiftRows(s), rk, 10, 4 * c + j, x, k);
  }

  // ---- the inverse cipher --------------------------------------------------------------------------

  lemma LastState(b: Block, rk: RoundKeys, i: nat, x: Byte, k: Byte)
    requires i < 16 && x == b[i] && k == rk[160 + i]
    ensures BeforeRound(b, rk, 10)[i] == x ^ k
  {
    hide AddRoundKey, RoundKey;
    KeyAdded(b, rk, 10, i, x, k);
  }

  /** The matrix of section 5.3.3. */
  function InvRoundMatrix(x: Byte, y: Byte, z: Byte, w: Byte): Column {
    Column(Four(Times(x, 14), Times(y, 11), Times(z, 13), Times(w, 9)), Four(Times(x, 9), Times(y, 14), Times(z, 11), Times(w, 13)),
           Four(Times(x, 13), Times(y, 9), Times(z, 14), Times(w, 11)), Four(Times(x, 11), Times(y, 13), Times(z, 9), Times(w, 14)))
  }

  lemma InvMatrixColumn(x: Byte, y: Byte, z: Byte, w: Byte)
    ensures InvMixColumn(Column(x, y, z, w)) == InvRoundMatrix(x, y, z, w)
  {
    hide Times, Gmul9, Gmul11, Gmul13, Gmul14, Sum, Four;
    ConstantProducts(x);
    ConstantProducts(y);
    ConstantProducts(z);
    ConstantProducts(w);
    SumIsFour(Times(x, 14), Times(y, 11), Times(z, 13), Times(w, 9));
    SumIsFour(Times(x, 9), Times(y, 14), Times(z, 11), Times(w, 13));
    SumIsFour(Times(x, 13), Times(y, 9), Times(z, 14), Times(w, 11));
    SumIsFour(Times(x, 11), Times(y, 13), Times(z, 9), Times(w, 14));
  }

  lemma PlusIsBoth(x: Column, k: Column)
    ensures Plus(x, k) == Column(Both(x.a0, k.a0), Both(x.a1, k.a1), Both(x.a2, k.a2), Both(x.a3, k.a3))
  {
    hide Xor, Both;
    XorIsBoth(x.a0, k.a0);
    XorIsBoth(x.a1, k.a1);
    XorIsBoth(x.a2, k.a2);
    XorIsBoth(x.a3, k.a3);
  }

  lemma InvRoundColumn(b: Block, rk: RoundKeys, r: nat, c: nat, u: Column)
    requires 1 <= r < 10 && c < 4
    requires var s := BeforeRound(b, rk, r + 1);
      u == Column(InvSBox(s[4 * c]), InvSBox(s[4 * ((c + 3) % 4) + 1]), InvSBox(s[4 * ((c + 2) % 4) + 2]), InvSBox(s[4 * ((c + 1) % 4) + 3]))
    ensures ColumnAt(BeforeRound(b, rk, r), c) == InvMixColumn(Plus(u, KeyColumn(rk, r, c)))
  {
    hide InvSBox, InvMixColumn, InvMixColumns, InvShiftRows, InvSubBytes, AddRoundKey, RoundKey, Plus, ColumnAt;
    var t := InvSubBytes(InvShiftRows(BeforeRound(b, rk, r + 1)));
    InvSubstitutedColumn(BeforeRound(b, rk, r + 1), c);
    ColumnAdded(t, rk, r, c, u, KeyColumn(rk, r, c));
    MixedBytes(AddRoundKey(t, RoundKey(rk, r)), c);
  }

  /**
   * Round r undone, column c: x, y, z and w are the bytes that the inverse row shift brings into the column,
   * substituted back and with their bytes of the round key added; each row is the matrix of section 5.3.3 on them.
   */
  lemma InvRoundBytes(b: Block, rk: RoundKeys, r: nat, c: nat, x: Byte, y: Byte, z: Byte, w: Byte)
    requires 1 <= r < 10 && c < 4
    requires var s := BeforeRound(b, rk, r + 1);
      && x == Both(InvSBox(s[4 * c]), rk[16 * r + 4 * c])
      && y == Both(InvSBox(s[4 * ((c + 3) % 4) + 1]), rk[16 * r + 4 * c + 1])
      && z == Both(InvSBox(s[4 * ((c + 2) % 4) + 2]), rk[16 * r + 4 * c + 2])
      && w == Both(InvSBox(s[4 * ((c + 1) % 4) + 3]), rk[16 * r + 4 * c + 3])
    ensures var t := BeforeRound(b, rk, r);
      Column(t[4 * c], t[4 * c + 1], t[4 * c + 2], t[4 * c + 3]) == InvRoundMatrix(x, y, z, w)
  {
    hide InvSBox, InvRoundMatrix, InvMixColumn, Plus, Both;
    var s := BeforeRound(b, rk, r + 1);
    var u := Column(InvSBox(s[4 * c]), InvSBox(s[4 * ((c + 3) % 4) + 1]), InvSBox(s[4 * ((c + 2) % 4) + 2]), InvSBox(s[4 * ((c + 1) % 4) + 3]));
    InvRoundColumn(b, rk, r, c, u);
    PlusIsBoth(u, KeyColumn(rk, r, c));
    InvMatrixColumn(x, y, z, w);
    hide BeforeRound;
  }

  lemma DecryptBytes(b: Block, rk: RoundKeys, c: nat, j: nat, x: Byte, k: Byte)
    requires c < 4 && j < 4 && x == InvSBox(BeforeRound(b, rk, 1)[4 * ((c + 4 - j) % 4) + j]) && k == rk[4 * c + j]
    ensures Decrypt(b, rk)[4 * c + j] == x ^ k
  {
    hide InvSBox, InvShiftRows, AddRoundKey, RoundKey, BeforeRound;
    var s := BeforeRound(b, rk, 1);
    InvShiftedByte(s, c, j, (c + 4 - j) % 4);
    KeyAdded(InvSubBytes(InvShiftRows(s)), rk, 0, 4 * c + j, x, k);
  }

  // ---- the key schedule ------------------------------------------------------------------------------

  /** The schedule starts with the key. */
  lemma ScheduleStarts(key: Block)
    ensures KeySchedule(key)[..16] == key
  {
    ExpandPrefix(key, 0, 40);
  }

  lemma DerivedWord(key: Block, w: nat)
    requires w < 40
    ensures var s, i := KeySchedule(key), 16 + 4 * w; s[i..i + 4] == NextWord(s[..i])
  {
    hide NextWord;
    ExpandPrefix(key, w, 40);
    ExpandPrefix(key, w + 1, 40);
    var s, i := KeySchedule(key), 16 + 4 * w;
    assert s[i..i + 4] == s[..i + 4][i..];
  }

  /** A word o, the word p before the one it makes, and the round constant r; first says whether a round key begins. */
  function DerivedBytes(o: Word, p: Word, r: Byte, first: bool): seq<Byte> {
    if first then [Three(o.b0, SBox(p.b1), r), Both(o.b1, SBox(p.b2)), Both(o.b2, SBox(p.b3)), Both(o.b3, SBox(p.b0))]
    else [Both(o.b0, p.b0), Both(o.b1, p.b1), Both(o.b2, p.b2), Both(o.b3, p.b3)]
  }

  lemma DerivedIs(s: seq<Byte>, o: Word, p: Word, r: Byte)
    requires |s| >= 16 && o == WordAt(s, |s| - 16) && p == WordAt(s, |s| - 4) && (|s| % 16 == 0 ==> r == Rcon(|s| / 16))
    ensures NextWord(s) == DerivedBytes(o, p, r, |s| % 16 == 0)
  {
    hide SBox, Rcon, Xor, Both, Three;
    if |s| % 16 == 0 {
      XorIsThree(o.b0, SBox(p.b1), r);
      XorIsBoth(o.b1, SBox(p.b2));
      XorIsBoth(o.b2, SBox(p.b3));
      XorIsBoth(o.b3, SBox(p.b0));
    } else {
      XorIsBoth(o.b0, p.b0);
      XorIsBoth(o.b1, p.b1);
      XorIsBoth(o.b2, p.b2);
      XorIsBoth(o.b3, p.b3);
    }
  }

  /**
   * The word at byte i of the schedule, byte by byte: the word sixteen bytes back plus the previous one, which is
   * rotated, substituted and given the round constant when i begins a round key.
   */
  lemma ScheduleBytes(key: Block, w: nat, o: Word, p: Word, r: Byte)
    requires w < 40
    requires var s, i := KeySchedule(key), 16 + 4 * w;
      && o == Word(s[i - 16], s[i - 15], s[i - 14], s[i - 13]) && p == Word(s[i - 4], s[i - 3], s[i - 2], s[i - 1])
      && r == RCON[i / 16]
    ensures KeySchedule(key)[16 + 4 * w..20 + 4 * w] == DerivedBytes(o, p, r, w % 4 == 0)
  {
    hide SBox, Rcon, KeySchedule, NextWord, DerivedBytes;
    DerivedWord(key, w);
    var s, i := KeySchedule(key), 16 + 4 * w;
    var before := s[..i];
    assert p == WordAt(before, i - 4) && o == WordAt(before, i - 16);
    if i % 16 == 0 {
      RconTable(i / 16);
    }
    hide RCON;
    DerivedIs(before, o, p, r);
  }
}
