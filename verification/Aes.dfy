/** AES-128: the cipher of section 5.1 of FIPS 197, its inverse of section 5.3, and the loops that compute them. */
module Aes {
  import opened Bytes
  import opened AesTables
  import opened AesColumns

  type Block = s: seq<Byte> | |s| == 16 witness seq(16, _ => 0)
  type RoundKeys = s: seq<Byte> | |s| == 176 witness seq(176, _ => 0)

  // ---- the round transformations, on a state whose row r of column c is byte 4*c + r --------

  function SubBytes(s: Block): Block { seq(16, i requires 0 <= i < 16 => SBox(s[i])) }
  function InvSubBytes(s: Block): Block { seq(16, i requires 0 <= i < 16 => InvSBox(s[i])) }

  /** Where a byte comes from when row r rotates left by r. */
  function LeftOf(i: nat): nat requires i < 16 { 4 * ((i / 4 + i % 4) % 4) + i % 4 }
  /** Where a byte comes from when row r rotates right by r. */
  function RightOf(i: nat): nat requires i < 16 { 4 * ((i / 4 + 4 - i % 4) % 4) + i % 4 }

  function ShiftRows(s: Block): Block { seq(16, i requires 0 <= i < 16 => s[LeftOf(i)]) }
  function InvShiftRows(s: Block): Block { seq(16, i requires 0 <= i < 16 => s[RightOf(i)]) }

  function ColumnAt(s: Block, c: nat): Column
    requires c < 4
  {
    Column(s[4 * c], s[4 * c + 1], s[4 * c + 2], s[4 * c + 3])
  }

  function Bytes4(c: Column): seq<Byte> { [c.a0, c.a1, c.a2, c.a3] }

  function FromColumns(c0: Column, c1: Column, c2: Column, c3: Column): Block {
    Bytes4(c0) + Bytes4(c1) + Bytes4(c2) + Bytes4(c3)
  }

  function MixColumns(s: Block): Block {
    FromColumns(MixColumn(ColumnAt(s, 0)), MixColumn(ColumnAt(s, 1)), MixColumn(ColumnAt(s, 2)), MixColumn(ColumnAt(s, 3)))
  }

  function InvMixColumns(s: Block): Block {
    FromColumns(InvMixColumn(ColumnAt(s, 0)), InvMixColumn(ColumnAt(s, 1)), InvMixColumn(ColumnAt(s, 2)), InvMixColumn(ColumnAt(s, 3)))
  }

  function RoundKey(rk: RoundKeys, r: nat): Block
    requires r <= 10
  {
    rk[16 * r..16 * r + 16]
  }

  function AddRoundKey(s: Block, k: Block): Block { seq(16, i requires 0 <= i < 16 => Xor(s[i], k[i])) }

  // ---- the cipher and its inverse -----------------------------------------------------------

  /** The state after the first key addition and r full rounds. */
  function AfterRounds(b: Block, rk: RoundKeys, r: nat): Block
    requires r < 10
  {
    if r == 0 then AddRoundKey(b, RoundKey(rk, 0))
    else AddRoundKey(MixColumns(ShiftRows(SubBytes(AfterRounds(b, rk, r - 1)))), RoundKey(rk, r))
  }

  function Encrypt(b: Block, rk: RoundKeys): Block {
    AddRoundKey(ShiftRows(SubBytes(AfterRounds(b, rk, 9))), RoundKey(rk, 10))
  }

  /** The state of the inverse cipher when rounds 9 down to r have been undone. */
  function BeforeRound(b: Block, rk: RoundKeys, r: nat): Block
    requires 1 <= r <= 10
    decreases 10 - r
  {
    if r == 10 then AddRoundKey(b, RoundKey(rk, 10))
    else InvMixColumns(AddRoundKey(InvSubBytes(InvShiftRows(BeforeRound(b, rk, r + 1))), RoundKey(rk, r)))
  }

  function Decrypt(b: Block, rk: RoundKeys): Block {
    AddRoundKey(InvSubBytes(InvShiftRows(BeforeRound(b, rk, 1))), RoundKey(rk, 0))
  }

  // ---- every transformation has its inverse ---------------------------------------------------

  lemma SubBytesInverse(s: Block)
    ensures InvSubBytes(SubBytes(s)) == s && SubBytes(InvSubBytes(s)) == s
  {
    hide SBox, InvSBox;
    forall i | 0 <= i < 16
      ensures InvSBox(SBox(s[i])) == s[i] && SBox(InvSBox(s[i])) == s[i]
    {
      SBoxesAreInverse(s[i]);
    }
  }

  lemma RotationsOf(c: nat, r: nat)
    requires c < 4 && r < 4
    ensures (((c + r) % 4) + 4 - r) % 4 == c && ((c + 4 - r) % 4 + r) % 4 == c
  {
  }

  lemma PositionsOf(c: nat, r: nat)
    requires c < 4 && r < 4
    ensures LeftOf(4 * c + r) == 4 * ((c + r) % 4) + r && RightOf(4 * c + r) == 4 * ((c + 4 - r) % 4) + r
  {
    assert (4 * c + r) / 4 == c && (4 * c + r) % 4 == r;
  }

  lemma RotationsCancel(i: nat)
    requires i < 16
    ensures LeftOf(i) < 16 && RightOf(i) < 16 && LeftOf(RightOf(i)) == i && RightOf(LeftOf(i)) == i
  {
    hide LeftOf, RightOf;
    var c, r := i / 4, i % 4;
    RotationsOf(c, r);
    PositionsOf(c, r);
    PositionsOf((c + r) % 4, r);
    PositionsOf((c + 4 - r) % 4, r);
  }

  lemma ShiftRowsInverse(s: Block)
    ensures InvShiftRows(ShiftRows(s)) == s && ShiftRows(InvShiftRows(s)) == s
  {
    forall i: nat | i < 16
      ensures s[LeftOf(RightOf(i))] == s[i] && s[RightOf(LeftOf(i))] == s[i]
    {
      RotationsCancel(i);
    }
  }

  lemma ColumnsOfColumns(c0: Column, c1: Column, c2: Column, c3: Column)
    ensures ColumnAt(FromColumns(c0, c1, c2, c3), 0) == c0 && ColumnAt(FromColumns(c0, c1, c2, c3), 1) == c1
    ensures ColumnAt(FromColumns(c0, c1, c2, c3), 2) == c2 && ColumnAt(FromColumns(c0, c1, c2, c3), 3) == c3
  {
  }

  lemma BlockOfColumns(s: Block)
    ensures FromColumns(ColumnAt(s, 0), ColumnAt(s, 1), ColumnAt(s, 2), ColumnAt(s, 3)) == s
  {
  }

  lemma MixColumnsInverse(s: Block)
    ensures InvMixColumns(MixColumns(s)) == s && MixColumns(InvMixColumns(s)) == s
  {
    var c0, c1, c2, c3 := ColumnAt(s, 0), ColumnAt(s, 1), ColumnAt(s, 2), ColumnAt(s, 3);
    BlockOfColumns(s);
    hide MixColumn, InvMixColumn, FromColumns, ColumnAt;
    MixColumnsAreInverse(c0);
    MixColumnsAreInverse(c1);
    MixColumnsAreInverse(c2);
    MixColumnsAreInverse(c3);
    ColumnsOfColumns(MixColumn(c0), MixColumn(c1), MixColumn(c2), MixColumn(c3));
    ColumnsOfColumns(InvMixColumn(c0), InvMixColumn(c1), InvMixColumn(c2), InvMixColumn(c3));
  }

  lemma AddRoundKeyTwice(s: Block, k: Block)
    ensures AddRoundKey(AddRoundKey(s, k), k) == s
  {
    hide Xor;
    forall i | 0 <= i < 16
      ensures Xor(Xor(s[i], k[i]), k[i]) == s[i]
    {
      XorLaws(s[i], k[i]);
    }
  }

  // ---- the round trips, by induction over the nine middle rounds -------------------------------

  /** Undoing rounds 9 down to r of a ciphertext leaves what the cipher had before it mixed columns in round r. */
  lemma {:induction false} Undone(b: Block, rk: RoundKeys, r: nat)
    requires 1 <= r <= 10
    ensures BeforeRound(Encrypt(b, rk), rk, r) == ShiftRows(SubBytes(AfterRounds(b, rk, r - 1)))
    decreases 10 - r
  {
    hide SubBytes, InvSubBytes, ShiftRows, InvShiftRows, MixColumns, InvMixColumns, AddRoundKey, RoundKey;
    var s := AfterRounds(b, rk, r - 1);
    var k := RoundKey(rk, r);
    if r == 10 {
      AddRoundKeyTwice(ShiftRows(SubBytes(s)), k);
    } else {
      Undone(b, rk, r + 1);
      var e := AfterRounds(b, rk, r);
      ShiftRowsInverse(SubBytes(e));
      SubBytesInverse(e);
      AddRoundKeyTwice(MixColumns(ShiftRows(SubBytes(s))), k);
      MixColumnsInverse(ShiftRows(SubBytes(s)));
    }
  }

  lemma {:induction false} DecryptEncrypt(b: Block, rk: RoundKeys)
    ensures Decrypt(Encrypt(b, rk), rk) == b
  {
    hide SubBytes, InvSubBytes, ShiftRows, InvShiftRows, AddRoundKey, RoundKey, Encrypt, BeforeRound;
    Undone(b, rk, 1);
    var e := AfterRounds(b, rk, 0);
    ShiftRowsInverse(SubBytes(e));
    SubBytesInverse(e);
    AddRoundKeyTwice(b, RoundKey(rk, 0));
  }

  /** Conversely, r rounds applied to a decrypted block restore what the inverse cipher had r rounds before its end. */
  lemma {:induction false} Redone(b: Block, rk: RoundKeys, r: nat)
    requires r < 10
    ensures AfterRounds(Decrypt(b, rk), rk, r) == InvSubBytes(InvShiftRows(BeforeRound(b, rk, r + 1)))
  {
    hide SubBytes, InvSubBytes, ShiftRows, InvShiftRows, MixColumns, InvMixColumns, AddRoundKey, RoundKey;
    var d := InvSubBytes(InvShiftRows(BeforeRound(b, rk, r + 1)));
    var k := RoundKey(rk, r);
    if r == 0 {
      AddRoundKeyTwice(d, k);
    } else {
      Redone(b, rk, r - 1);
      var p := BeforeRound(b, rk, r);
      SubBytesInverse(InvShiftRows(p));
      ShiftRowsInverse(p);
      MixColumnsInverse(AddRoundKey(d, k));
      AddRoundKeyTwice(d, k);
    }
  }

  lemma {:induction false} EncryptDecrypt(b: Block, rk: RoundKeys)
    ensures Encrypt(Decrypt(b, rk), rk) == b
  {
    hide SubBytes, InvSubBytes, ShiftRows, InvShiftRows, AddRoundKey, RoundKey, Decrypt, AfterRounds;
    Redone(b, rk, 9);
    var p := BeforeRound(b, rk, 10);
    SubBytesInverse(InvShiftRows(p));
    ShiftRowsInverse(p);
    AddRoundKeyTwice(b, RoundKey(rk, 10));
  }

  // ---- the loops ---------------------------------------------------------------------------------

  method AddKeyInPlace(s: array<Byte>, rk: array<Byte>, r: nat)
    requires s.Length == 16 && rk.Length == 176 && s != rk && r <= 10
    modifies s
    ensures s[..] == AddRoundKey(old(s[..]), RoundKey(rk[..], r))
  {
    hide Xor;
    for i := 0 to 16
      invariant forall j :: 0 <= j < i ==> s[j] == Xor(old(s[j]), rk[16 * r + j])
      invariant forall j :: i <= j < 16 ==> s[j] == old(s[j])
    {
      s[i] := Xor(s[i], rk[16 * r + i]);
    }
  }

  method SubstituteInto(t: array<Byte>, s: array<Byte>)
    requires s.Length == 16 && t.Length == 16 && s != t
    modifies t
    ensures t[..] == SubBytes(s[..])
  {
    hide SBox;
    for i := 0 to 16
      invariant forall j :: 0 <= j < i ==> t[j] == SBox(s[j])
    {
      t[i] := SBox(s[i]);
    }
  }

  method InvSubstituteInto(s: array<Byte>, t: array<Byte>)
    requires s.Length == 16 && t.Length == 16 && s != t
    modifies s
    ensures s[..] == InvSubBytes(t[..])
  {
    hide InvSBox;
    for i := 0 to 16
      invariant forall j :: 0 <= j < i ==> s[j] == InvSBox(t[j])
    {
      s[i] := InvSBox(t[i]);
    }
  }

  /** Row r of s is made of the four bytes of t at the given places. */
  ghost predicate RowFrom(s: Block, t: Block, r: nat, i0: nat, i1: nat, i2: nat, i3: nat)
    requires r < 4 && i0 < 16 && i1 < 16 && i2 < 16 && i3 < 16
  {
    s[r] == t[i0] && s[4 + r] == t[i1] && s[8 + r] == t[i2] && s[12 + r] == t[i3]
  }

  ghost predicate SameRow(s: Block, t: Block, r: nat)
    requires r < 4
  {
    s[r] == t[r] && s[4 + r] == t[4 + r] && s[8 + r] == t[8 + r] && s[12 + r] == t[12 + r]
  }

  lemma RowStays(s: Block, s': Block, t: Block, r: nat, i0: nat, i1: nat, i2: nat, i3: nat)
    requires r < 4 && i0 < 16 && i1 < 16 && i2 < 16 && i3 < 16
    requires RowFrom(s, t, r, i0, i1, i2, i3) && SameRow(s', s, r)
    ensures RowFrom(s', t, r, i0, i1, i2, i3)
  {
  }

  /** The four assignments of one row. */
  method AssignRow(s: array<Byte>, t: array<Byte>, r: nat, i0: nat, i1: nat, i2: nat, i3: nat)
    requires s.Length == 16 && t.Length == 16 && s != t
    requires r < 4 && i0 < 16 && i1 < 16 && i2 < 16 && i3 < 16
    modifies s
    ensures RowFrom(s[..], t[..], r, i0, i1, i2, i3)
    ensures forall q :: 0 <= q < 4 && q != r ==> SameRow(s[..], old(s[..]), q)
  {
    s[r] := t[i0];
    s[4 + r] := t[i1];
    s[8 + r] := t[i2];
    s[12 + r] := t[i3];
  }

  /** Row r rotated left by r, for each of the four rows, is ShiftRows. */
  lemma RowsRotatedLeft(s: Block, t: Block)
    requires RowFrom(s, t, 0, 0, 4, 8, 12) && RowFrom(s, t, 1, 5, 9, 13, 1)
    requires RowFrom(s, t, 2, 10, 14, 2, 6) && RowFrom(s, t, 3, 15, 3, 7, 11)
    ensures s == ShiftRows(t)
  {
  }

  lemma RowsRotatedRight(t: Block, s: Block)
    requires RowFrom(t, s, 0, 0, 4, 8, 12) && RowFrom(t, s, 1, 13, 1, 5, 9)
    requires RowFrom(t, s, 2, 10, 14, 2, 6) && RowFrom(t, s, 3, 7, 11, 15, 3)
    ensures t == InvShiftRows(s)
  {
  }

  /** The sixteen assignments of the cipher, row by row, are the rotation of each row. */
  method ShiftRowsInto(s: array<Byte>, t: array<Byte>)
    requires s.Length == 16 && t.Length == 16 && s != t
    modifies s
    ensures s[..] == ShiftRows(t[..])
  {
    hide RowFrom, SameRow, ShiftRows;
    AssignRow(s, t, 0, 0, 4, 8, 12);
    ghost var s0 := s[..];
    AssignRow(s, t, 1, 5, 9, 13, 1);
    ghost var s1 := s[..];
    RowStays(s0, s1, t[..], 0, 0, 4, 8, 12);
    AssignRow(s, t, 2, 10, 14, 2, 6);
    ghost var s2 := s[..];
    RowStays(s1, s2, t[..], 0, 0, 4, 8, 12);
    RowStays(s1, s2, t[..], 1, 5, 9, 13, 1);
    AssignRow(s, t, 3, 15, 3, 7, 11);
    RowStays(s2, s[..], t[..], 0, 0, 4, 8, 12);
    RowStays(s2, s[..], t[..], 1, 5, 9, 13, 1);
    RowStays(s2, s[..], t[..], 2, 10, 14, 2, 6);
    RowsRotatedLeft(s[..], t[..]);
  }

  method InvShiftRowsInto(t: array<Byte>, s: array<Byte>)
    requires s.Length == 16 && t.Length == 16 && s != t
    modifies t
    ensures t[..] == InvShiftRows(s[..])
  {
    hide RowFrom, SameRow, InvShiftRows;
    AssignRow(t, s, 0, 0, 4, 8, 12);
    ghost var t0 := t[..];
    AssignRow(t, s, 1, 13, 1, 5, 9);
    ghost var t1 := t[..];
    RowStays(t0, t1, s[..], 0, 0, 4, 8, 12);
    AssignRow(t, s, 2, 10, 14, 2, 6);
    ghost var t2 := t[..];
    RowStays(t1, t2, s[..], 0, 0, 4, 8, 12);
    RowStays(t1, t2, s[..], 1, 13, 1, 5, 9);
    AssignRow(t, s, 3, 7, 11, 15, 3);
    RowStays(t2, t[..], s[..], 0, 0, 4, 8, 12);
    RowStays(t2, t[..], s[..], 1, 13, 1, 5, 9);
    RowStays(t2, t[..], s[..], 2, 10, 14, 2, 6);
    RowsRotatedRight(t[..], s[..]);
  }

  /** A block whose four columns are the images of another's. */
  lemma AllMixed(s: Block, was: Block)
    requires forall c: nat :: c < 4 ==> ColumnAt(s, c) == MixColumn(ColumnAt(was, c))
    ensures s == MixColumns(was)
  {
    BlockOfColumns(s);
  }

  lemma AllInvMixed(s: Block, was: Block)
    requires forall c: nat :: c < 4 ==> ColumnAt(s, c) == InvMixColumn(ColumnAt(was, c))
    ensures s == InvMixColumns(was)
  {
    BlockOfColumns(s);
  }

  /** One turn of the loop: column c is mixed and the other bytes stay. */
  method MixOneColumn(s: array<Byte>, c: nat)
    requires s.Length == 16 && c < 4
    modifies s
    ensures ColumnAt(s[..], c) == MixColumn(ColumnAt(old(s[..]), c))
    ensures forall j :: 0 <= j < 16 && !(4 * c <= j < 4 * c + 4) ==> s[j] == old(s[j])
  {
    hide Xor, Xtime;
    var b := c * 4;
    var a0, a1, a2, a3 := s[b], s[b + 1], s[b + 2], s[b + 3];
    var x0 := Xor(Xor(Xor(a0, a1), a2), a3);
    var y0 := Xor(Xor(a0, x0), Xtime(Xor(a0, a1)));
    var y1 := Xor(Xor(a1, x0), Xtime(Xor(a1, a2)));
    var y2 := Xor(Xor(a2, x0), Xtime(Xor(a2, a3)));
    var y3 := Xor(Xor(a3, x0), Xtime(Xor(a3, a0)));
    s[b], s[b + 1], s[b + 2], s[b + 3] := y0, y1, y2, y3;
  }

  method MixColumnsInPlace(s: array<Byte>)
    requires s.Length == 16
    modifies s
    ensures s[..] == MixColumns(old(s[..]))
  {
    hide MixColumn, MixColumns;
    ghost var was := s[..];
    for c := 0 to 4
      invariant forall d: nat :: d < c ==> ColumnAt(s[..], d) == MixColumn(ColumnAt(was, d))
      invariant forall j :: 4 * c <= j < 16 ==> s[j] == was[j]
    {
      MixOneColumn(s, c);
    }
    AllMixed(s[..], was);
  }

  method InvMixOneColumn(s: array<Byte>, c: nat)
    requires s.Length == 16 && c < 4
    modifies s
    ensures ColumnAt(s[..], c) == InvMixColumn(ColumnAt(old(s[..]), c))
    ensures forall j :: 0 <= j < 16 && !(4 * c <= j < 4 * c + 4) ==> s[j] == old(s[j])
  {
    hide Xor, Gmul9, Gmul11, Gmul13, Gmul14;
    var b := c * 4;
    var a0, a1, a2, a3 := s[b], s[b + 1], s[b + 2], s[b + 3];
    s[b] := Xor(Xor(Xor(Gmul14(a0), Gmul11(a1)), Gmul13(a2)), Gmul9(a3));
    s[b + 1] := Xor(Xor(Xor(Gmul9(a0), Gmul14(a1)), Gmul11(a2)), Gmul13(a3));
    s[b + 2] := Xor(Xor(Xor(Gmul13(a0), Gmul9(a1)), Gmul14(a2)), Gmul11(a3));
    s[b + 3] := Xor(Xor(Xor(Gmul11(a0), Gmul13(a1)), Gmul9(a2)), Gmul14(a3));
  }

  method InvMixColumnsInPlace(s: array<Byte>)
    requires s.Length == 16
    modifies s
    ensures s[..] == InvMixColumns(old(s[..]))
  {
    hide InvMixColumn, InvMixColumns;
    ghost var was := s[..];
    for c := 0 to 4
      invariant forall d: nat :: d < c ==> ColumnAt(s[..], d) == InvMixColumn(ColumnAt(was, d))
      invariant forall j :: 4 * c <= j < 16 ==> s[j] == was[j]
    {
      InvMixOneColumn(s, c);
    }
    AllInvMixed(s[..], was);
  }

  method EncryptBlock(out: array<Byte>, input: array<Byte>, rk: array<Byte>)
    requires out.Length == 16 && input.Length == 16 && rk.Length == 176 && out != rk
    modifies out
    ensures out[..] == Encrypt(old(input[..]), rk[..])
  {
    hide SubBytes, ShiftRows, MixColumns, AddRoundKey, RoundKey;
    ghost var was: Block := input[..];
    var s, t := new Byte[16], new Byte[16];
    CopyBlock(s, input);
    AddKeyInPlace(s, rk, 0);
    for round := 1 to 10
      invariant s[..] == AfterRounds(was, rk[..], round - 1)
      invariant input[..] == was
      invariant rk[..] == old(rk[..])
    {
      SubstituteInto(t, s);
      ShiftRowsInto(s, t);
      MixColumnsInPlace(s);
      AddKeyInPlace(s, rk, round);
    }
    SubstituteInto(t, s);
    ShiftRowsInto(s, t);
    AddKeyInPlace(s, rk, 10);
    CopyBlock(out, s);
  }

  method DecryptBlock(out: array<Byte>, input: array<Byte>, rk: array<Byte>)
    requires out.Length == 16 && input.Length == 16 && rk.Length == 176 && out != rk
    modifies out
    ensures out[..] == Decrypt(old(input[..]), rk[..])
  {
    hide InvSubBytes, InvShiftRows, InvMixColumns, AddRoundKey, RoundKey;
    ghost var was: Block := input[..];
    var s, t := new Byte[16], new Byte[16];
    CopyBlock(s, input);
    AddKeyInPlace(s, rk, 10);
    for round := 10 downto 1
      invariant s[..] == BeforeRound(was, rk[..], round)
      invariant input[..] == was
      invariant rk[..] == old(rk[..])
    {
      InvShiftRowsInto(t, s);
      InvSubstituteInto(s, t);
      AddKeyInPlace(s, rk, round);
      InvMixColumnsInPlace(s);
    }
    InvShiftRowsInto(t, s);
    InvSubstituteInto(s, t);
    AddKeyInPlace(s, rk, 0);
    CopyBlock(out, s);
  }

  method CopyBlock(out: array<Byte>, input: array<Byte>)
    requires out.Length == 16 && input.Length == 16
    modifies out
    ensures out[..] == old(input[..])
  {
    ghost var was := input[..];
    for i := 0 to 16
      invariant out[..i] == was[..i]
      invariant forall j :: i <= j < 16 ==> input[j] == was[j]
    {
      out[i] := input[i];
    }
    assert out[..] == out[..16];
  }
}
