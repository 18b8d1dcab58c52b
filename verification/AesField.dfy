/** The constants of AES against their definition in the field GF(2^8) (section 4 of FIPS 197). */
module AesField {
  import opened Bytes
  import opened AesTables
  import opened AesColumns

  /** a when the bit of b under the mask is set. */
  function Term(a: Byte, b: Byte, mask: Byte): Byte { if b & mask == 0 then 0 else a }

  /** The product in the field: the sum of a * x^i over the bits i of b (section 4.2.1). */
  function Times(a: Byte, b: Byte): Byte {
    var a1 := Xtime(a);
    var a2 := Xtime(a1);
    var a3 := Xtime(a2);
    var a4 := Xtime(a3);
    var a5 := Xtime(a4);
    var a6 := Xtime(a5);
    var a7 := Xtime(a6);
    Xor(Sum(Term(a, b, 0x01), Term(a1, b, 0x02), Term(a2, b, 0x04), Term(a3, b, 0x08)),
        Sum(Term(a4, b, 0x10), Term(a5, b, 0x20), Term(a6, b, 0x40), Term(a7, b, 0x80)))
  }

  /** The affine map of section 5.1.1: bit i is the sum of bits i, i+4, i+5, i+6 and i+7 (mod 8) and of bit i of 0x63. */
  function Affine(y: Byte): Byte {
    y ^ ((y << 1) | (y >> 7)) ^ ((y << 2) | (y >> 6)) ^ ((y << 3) | (y >> 5)) ^ ((y << 4) | (y >> 4)) ^ 0x63
  }

  function Unaffine(s: Byte): Byte {
    ((s << 1) | (s >> 7)) ^ ((s << 3) | (s >> 5)) ^ ((s << 6) | (s >> 2)) ^ 0x05
  }

  lemma AffineUnaffine(s: Byte)
    ensures Affine(Unaffine(s)) == s
  {
  }

  lemma Reciprocals0(x: Byte)
    requires x != 0 && x & 0xc0 == 0
    ensures Times(x, Unaffine(SBox(x))) == 1
  {
  }

  lemma Reciprocals1(x: Byte)
    requires x & 0xc0 == 0x40
    ensures Times(x, Unaffine(SBox(x))) == 1
  {
  }

  lemma Reciprocals2(x: Byte)
    requires x & 0xc0 == 0x80
    ensures Times(x, Unaffine(SBox(x))) == 1
  {
  }

  lemma Reciprocals3(x: Byte)
    requires x & 0xc0 == 0xc0
    ensures Times(x, Unaffine(SBox(x))) == 1
  {
  }

  lemma Quarters(x: Byte)
    ensures x & 0xc0 == 0 || x & 0xc0 == 0x40 || x & 0xc0 == 0x80 || x & 0xc0 == 0xc0
  {
  }

  lemma SBoxOfZero()
    ensures Unaffine(SBox(0)) == 0
  {
  }

  /** Every entry of the S-box table is the affine map of the field inverse of its index, 0 standing for its own inverse. */
  lemma SBoxIsAffineOfInverse(x: Byte)
    ensures exists y :: SBox(x) == Affine(y) && if x == 0 then y == 0 else Times(x, y) == 1
  {
    hide SBox, Affine, Unaffine, Times;
    AffineUnaffine(SBox(x));
    if x == 0 {
      SBoxOfZero();
    } else {
      Quarters(x);
      if x & 0xc0 == 0 {
        Reciprocals0(x);
      } else if x & 0xc0 == 0x40 {
        Reciprocals1(x);
      } else if x & 0xc0 == 0x80 {
        Reciprocals2(x);
      } else {
        Reciprocals3(x);
      }
    }
  }

  lemma Times9(x: Byte)
    ensures Gmul9(x) == Times(x, 9)
  {
    hide Xtime;
  }

  lemma Times11(x: Byte)
    ensures Gmul11(x) == Times(x, 11)
  {
    hide Xtime;
  }

  lemma Times13(x: Byte)
    ensures Gmul13(x) == Times(x, 13)
  {
    hide Xtime;
  }

  lemma Times14(x: Byte)
    ensures Gmul14(x) == Times(x, 14)
  {
    hide Xtime;
  }

  /** The constant multipliers are field products. */
  lemma ConstantProducts(x: Byte)
    ensures Gmul9(x) == Times(x, 9) && Gmul11(x) == Times(x, 11) && Gmul13(x) == Times(x, 13) && Gmul14(x) == Times(x, 14)
  {
    Times9(x);
    Times11(x);
    Times13(x);
    Times14(x);
    hide Xtime, Times;
  }

  /** MixColumns computed by one sum and one doubling a byte is the matrix {02 03 01 01} of section 5.1.3. */
  lemma MixColumnIsMatrix(c: Column)
    ensures MixColumn(c).a0 == Sum(Times(c.a0, 2), Times(c.a1, 3), c.a2, c.a3)
    ensures MixColumn(c).a1 == Sum(c.a0, Times(c.a1, 2), Times(c.a2, 3), c.a3)
    ensures MixColumn(c).a2 == Sum(c.a0, c.a1, Times(c.a2, 2), Times(c.a3, 3))
    ensures MixColumn(c).a3 == Sum(Times(c.a0, 3), c.a1, c.a2, Times(c.a3, 2))
  {
    hide Times, Sum, Xtime;
    MixTerm(c.a0, c.a1, c.a2, c.a3);
    MixTerm(c.a1, c.a2, c.a3, c.a0);
    MixTerm(c.a2, c.a3, c.a0, c.a1);
    MixTerm(c.a3, c.a0, c.a1, c.a2);
    SumRotates(c.a0, c.a1, c.a2, c.a3);
    SumRotates(Times(c.a1, 2), Times(c.a2, 3), c.a3, c.a0);
    SumRotates(Times(c.a2, 2), Times(c.a3, 3), c.a0, c.a1);
    SumRotates(Times(c.a3, 2), Times(c.a0, 3), c.a1, c.a2);
  }

  lemma MixTerm(a: Byte, b: Byte, c: Byte, d: Byte)
    ensures Xor(Xor(a, Sum(a, b, c, d)), Xtime(Xor(a, b))) == Sum(Times(a, 2), Times(b, 3), c, d)
  {
    TimesTwoThree(a);
    TimesTwoThree(b);
    XtimeXor(a, b);
    hide Times, Xtime;
  }

  lemma TimesTwoThree(x: Byte)
    ensures Times(x, 2) == Xtime(x) && Times(x, 3) == Xor(Xtime(x), x)
  {
  }
}
