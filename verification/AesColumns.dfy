/** The arithmetic of AES columns: bytes as elements of GF(2^8), and MixColumns with its inverse. */
module AesColumns {
  import opened Bytes

  function Xor(a: Byte, b: Byte): Byte { a ^ b }

  lemma XorLaws(a: Byte, b: Byte)
    ensures Xor(a, b) == Xor(b, a) && Xor(a, 0) == a && Xor(0, a) == a
    ensures Xor(Xor(a, b), b) == a
  {
  }

  lemma XorAssoc(a: Byte, b: Byte, c: Byte)
    ensures Xor(Xor(a, b), c) == Xor(a, Xor(b, c))
  {
  }

  /** The middle terms of a sum of sums can be exchanged. */
  lemma Interchange(a: Byte, b: Byte, c: Byte, d: Byte)
    ensures Xor(Xor(a, b), Xor(c, d)) == Xor(Xor(a, c), Xor(b, d))
  {
    hide Xor;
    XorAssoc(a, b, Xor(c, d));
    XorAssoc(b, c, d);
    XorLaws(b, c);
    XorAssoc(c, b, d);
    XorAssoc(a, c, Xor(b, d));
  }

  // ---- multiplication by constants --------------------------------------------------

  function Xtime(x: Byte): Byte {
    Xor(x << 1, Reduction(x))
  }

  /** The field polynomial when the top bit falls out of a left shift. */
  function Reduction(x: Byte): Byte {
    if x >> 7 != 0 then 0x1b else 0x00
  }

  function Gmul2(x: Byte): Byte { Xtime(x) }
  function Gmul4(x: Byte): Byte { Xtime(Xtime(x)) }
  function Gmul8(x: Byte): Byte { Xtime(Xtime(Xtime(x))) }
  function Gmul9(x: Byte): Byte { Xor(Gmul8(x), x) }
  function Gmul11(x: Byte): Byte { Xor(Xor(Gmul8(x), Gmul2(x)), x) }
  function Gmul13(x: Byte): Byte { Xor(Xor(Gmul8(x), Gmul4(x)), x) }
  function Gmul14(x: Byte): Byte { Xor(Xor(Gmul8(x), Gmul4(x)), Gmul2(x)) }

  lemma ShiftXor(a: Byte, b: Byte)
    ensures Xor(a, b) << 1 == Xor(a << 1, b << 1)
  {
  }

  lemma ReductionXor(a: Byte, b: Byte)
    ensures Reduction(Xor(a, b)) == Xor(Reduction(a), Reduction(b))
  {
  }

  lemma XtimeXor(a: Byte, b: Byte)
    ensures Xtime(Xor(a, b)) == Xor(Xtime(a), Xtime(b))
  {
    ShiftXor(a, b);
    ReductionXor(a, b);
    hide Xor, Reduction;
    Interchange(a << 1, b << 1, Reduction(a), Reduction(b));
  }

  /** All the constant multiplications distribute over addition. */
  lemma GmulXor(a: Byte, b: Byte)
    ensures Gmul9(Xor(a, b)) == Xor(Gmul9(a), Gmul9(b)) && Gmul11(Xor(a, b)) == Xor(Gmul11(a), Gmul11(b))
    ensures Gmul13(Xor(a, b)) == Xor(Gmul13(a), Gmul13(b)) && Gmul14(Xor(a, b)) == Xor(Gmul14(a), Gmul14(b))
  {
    hide Xor, Xtime;
    XtimeXor(a, b);
    XtimeXor(Xtime(a), Xtime(b));
    XtimeXor(Xtime(Xtime(a)), Xtime(Xtime(b)));
    Interchange(Gmul8(a), Gmul8(b), a, b);
    Interchange(Gmul8(a), Gmul8(b), Gmul2(a), Gmul2(b));
    Interchange(Xor(Gmul8(a), Gmul2(a)), Xor(Gmul8(b), Gmul2(b)), a, b);
    Interchange(Gmul8(a), Gmul8(b), Gmul4(a), Gmul4(b));
    Interchange(Xor(Gmul8(a), Gmul4(a)), Xor(Gmul8(b), Gmul4(b)), a, b);
    Interchange(Xor(Gmul8(a), Gmul4(a)), Xor(Gmul8(b), Gmul4(b)), Gmul2(a), Gmul2(b));
  }

  // ---- columns ---------------------------------------------------------------------------

  datatype Column = Column(a0: Byte, a1: Byte, a2: Byte, a3: Byte)

  function Sum(a: Byte, b: Byte, c: Byte, d: Byte): Byte {
    Xor(Xor(Xor(a, b), c), d)
  }

  function MixColumn(c: Column): Column {
    var x0 := Sum(c.a0, c.a1, c.a2, c.a3);
    Column(Xor(Xor(c.a0, x0), Xtime(Xor(c.a0, c.a1))), Xor(Xor(c.a1, x0), Xtime(Xor(c.a1, c.a2))),
           Xor(Xor(c.a2, x0), Xtime(Xor(c.a2, c.a3))), Xor(Xor(c.a3, x0), Xtime(Xor(c.a3, c.a0))))
  }

  function InvMixColumn(c: Column): Column {
    Column(Sum(Gmul14(c.a0), Gmul11(c.a1), Gmul13(c.a2), Gmul9(c.a3)),
           Sum(Gmul9(c.a0), Gmul14(c.a1), Gmul11(c.a2), Gmul13(c.a3)),
           Sum(Gmul13(c.a0), Gmul9(c.a1), Gmul14(c.a2), Gmul11(c.a3)),
           Sum(Gmul11(c.a0), Gmul13(c.a1), Gmul9(c.a2), Gmul14(c.a3)))
  }

  function Plus(c: Column, d: Column): Column {
    Column(Xor(c.a0, d.a0), Xor(c.a1, d.a1), Xor(c.a2, d.a2), Xor(c.a3, d.a3))
  }

  lemma SumPlus(a: Byte, b: Byte, c: Byte, d: Byte, a': Byte, b': Byte, c': Byte, d': Byte)
    ensures Sum(Xor(a, a'), Xor(b, b'), Xor(c, c'), Xor(d, d')) == Xor(Sum(a, b, c, d), Sum(a', b', c', d'))
  {
    hide Xor;
    Interchange(a, a', b, b');
    Interchange(Xor(a, b), Xor(a', b'), c, c');
    Interchange(Xor(Xor(a, b), c), Xor(Xor(a', b'), c'), d, d');
  }

  lemma MixTermPlus(a: Byte, b: Byte, x: Byte, a': Byte, b': Byte, x': Byte)
    ensures Xor(Xor(Xor(a, a'), Xor(x, x')), Xtime(Xor(Xor(a, a'), Xor(b, b'))))
         == Xor(Xor(Xor(a, x), Xtime(Xor(a, b))), Xor(Xor(a', x'), Xtime(Xor(a', b'))))
  {
    hide Xor, Xtime;
    Interchange(a, a', x, x');
    Interchange(a, a', b, b');
    XtimeXor(Xor(a, b), Xor(a', b'));
    Interchange(Xor(a, x), Xor(a', x'), Xtime(Xor(a, b)), Xtime(Xor(a', b')));
  }

  lemma MixPlus(c: Column, d: Column)
    ensures MixColumn(Plus(c, d)) == Plus(MixColumn(c), MixColumn(d))
  {
    hide Xor, Xtime, Sum;
    var x, x' := Sum(c.a0, c.a1, c.a2, c.a3), Sum(d.a0, d.a1, d.a2, d.a3);
    SumPlus(c.a0, c.a1, c.a2, c.a3, d.a0, d.a1, d.a2, d.a3);
    MixTermPlus(c.a0, c.a1, x, d.a0, d.a1, x');
    MixTermPlus(c.a1, c.a2, x, d.a1, d.a2, x');
    MixTermPlus(c.a2, c.a3, x, d.a2, d.a3, x');
    MixTermPlus(c.a3, c.a0, x, d.a3, d.a0, x');
  }

  lemma InvMixPlus(c: Column, d: Column)
    ensures InvMixColumn(Plus(c, d)) == Plus(InvMixColumn(c), InvMixColumn(d))
  {
    hide Xor, Sum, Gmul9, Gmul11, Gmul13, Gmul14;
    GmulXor(c.a0, d.a0);
    GmulXor(c.a1, d.a1);
    GmulXor(c.a2, d.a2);
    GmulXor(c.a3, d.a3);
    SumPlus(Gmul14(c.a0), Gmul11(c.a1), Gmul13(c.a2), Gmul9(c.a3), Gmul14(d.a0), Gmul11(d.a1), Gmul13(d.a2), Gmul9(d.a3));
    SumPlus(Gmul9(c.a0), Gmul14(c.a1), Gmul11(c.a2), Gmul13(c.a3), Gmul9(d.a0), Gmul14(d.a1), Gmul11(d.a2), Gmul13(d.a3));
    SumPlus(Gmul13(c.a0), Gmul9(c.a1), Gmul14(c.a2), Gmul11(c.a3), Gmul13(d.a0), Gmul9(d.a1), Gmul14(d.a2), Gmul11(d.a3));
    SumPlus(Gmul11(c.a0), Gmul13(c.a1), Gmul9(c.a2), Gmul14(c.a3), Gmul11(d.a0), Gmul13(d.a1), Gmul9(d.a2), Gmul14(d.a3));
  }

  lemma SumRotatesOnce(a: Byte, b: Byte, c: Byte, d: Byte)
    ensures Sum(a, b, c, d) == Sum(b, c, d, a)
  {
    hide Xor;
    XorAssoc(a, b, c);
    XorAssoc(a, Xor(b, c), d);
    XorLaws(a, Xor(Xor(b, c), d));
  }

  lemma SumRotates(a: Byte, b: Byte, c: Byte, d: Byte)
    ensures Sum(a, b, c, d) == Sum(b, c, d, a) == Sum(c, d, a, b) == Sum(d, a, b, c)
  {
    hide Sum;
    SumRotatesOnce(a, b, c, d);
    SumRotatesOnce(b, c, d, a);
    SumRotatesOnce(c, d, a, b);
  }

  // ---- both maps commute with rotating a column, so one-byte columns reduce to the first --------

  function Rotated(c: Column): Column { Column(c.a3, c.a0, c.a1, c.a2) }

  lemma MixRotated(c: Column)
    ensures MixColumn(Rotated(c)) == Rotated(MixColumn(c))
  {
    hide Sum, Xor, Xtime;
    SumRotates(c.a0, c.a1, c.a2, c.a3);
  }

  lemma InvMixRotated(c: Column)
    ensures InvMixColumn(Rotated(c)) == Rotated(InvMixColumn(c))
  {
    hide Sum, Gmul9, Gmul11, Gmul13, Gmul14;
    SumRotates(Gmul14(c.a0), Gmul11(c.a1), Gmul13(c.a2), Gmul9(c.a3));
    SumRotates(Gmul9(c.a0), Gmul14(c.a1), Gmul11(c.a2), Gmul13(c.a3));
    SumRotates(Gmul13(c.a0), Gmul9(c.a1), Gmul14(c.a2), Gmul11(c.a3));
    SumRotates(Gmul11(c.a0), Gmul13(c.a1), Gmul9(c.a2), Gmul14(c.a3));
  }

  ghost predicate Undoes(c: Column) {
    InvMixColumn(MixColumn(c)) == c && MixColumn(InvMixColumn(c)) == c
  }

  lemma UndoesRotated(c: Column)
    requires Undoes(c)
    ensures Undoes(Rotated(c))
  {
    hide MixColumn, InvMixColumn, Rotated;
    MixRotated(c);
    InvMixRotated(MixColumn(c));
    InvMixRotated(c);
    MixRotated(InvMixColumn(c));
  }

  lemma OneByte(x: Byte)
    ensures Xor(x, x) == 0 && Xor(x, 0) == x && Xor(0, x) == x && Xor(0, 0) == 0 && Xtime(0) == 0
    ensures Xor(0, Xtime(x)) == Xtime(x) && Xor(x, Xtime(x)) == Xor(Xtime(x), x)
  {
    XorLaws(x, Xtime(x));
    XorLaws(0, Xtime(x));
    hide Xtime;
    XtimeXor(0, 0);
  }

  lemma MixOne(x: Byte)
    ensures MixColumn(Column(x, 0, 0, 0)) == Column(Gmul2(x), x, x, Xor(Gmul2(x), x))
  {
    hide Xor, Xtime;
    OneByte(x);
  }

  lemma InvMixOne(x: Byte)
    ensures InvMixColumn(Column(x, 0, 0, 0)) == Column(Gmul14(x), Gmul9(x), Gmul13(x), Gmul11(x))
  {
    hide Xor, Xtime;
    OneByte(x);
    XorLaws(Gmul14(x), 0);
    XorLaws(Gmul9(x), 0);
    XorLaws(Gmul13(x), 0);
    XorLaws(Gmul11(x), 0);
  }

  lemma InvMixRow0(x: Byte)
    ensures Sum(Gmul14(Gmul2(x)), Gmul11(x), Gmul13(x), Gmul9(Xor(Gmul2(x), x))) == x
  {
  }

  lemma InvMixRow1(x: Byte)
    ensures Sum(Gmul9(Gmul2(x)), Gmul14(x), Gmul11(x), Gmul13(Xor(Gmul2(x), x))) == 0
  {
  }

  lemma InvMixRow2(x: Byte)
    ensures Sum(Gmul13(Gmul2(x)), Gmul9(x), Gmul14(x), Gmul11(Xor(Gmul2(x), x))) == 0
  {
  }

  lemma InvMixRow3(x: Byte)
    ensures Sum(Gmul11(Gmul2(x)), Gmul13(x), Gmul9(x), Gmul14(Xor(Gmul2(x), x))) == 0
  {
  }

  lemma Basis(x: Byte)
    ensures InvMixColumn(MixColumn(Column(x, 0, 0, 0))) == Column(x, 0, 0, 0)
  {
    hide Xor, Sum, MixColumn, Gmul2, Gmul9, Gmul11, Gmul13, Gmul14;
    MixOne(x);
    InvMixRow0(x);
    InvMixRow1(x);
    InvMixRow2(x);
    InvMixRow3(x);
  }

  lemma MixRowSum(x: Byte)
    ensures Sum(Gmul14(x), Gmul9(x), Gmul13(x), Gmul11(x)) == x
  {
  }

  lemma MixRow0(x: Byte)
    ensures Xor(Xor(Gmul14(x), x), Xtime(Xor(Gmul14(x), Gmul9(x)))) == x
  {
  }

  lemma MixRow1(x: Byte)
    ensures Xor(Xor(Gmul9(x), x), Xtime(Xor(Gmul9(x), Gmul13(x)))) == 0
  {
    Gmul9And13(x);
    hide Xor, Xtime;
    XorLaws(Gmul8(x), x);
    OneByte(Gmul8(x));
  }

  lemma Gmul9And13(x: Byte)
    ensures Xor(Gmul9(x), Gmul13(x)) == Gmul4(x)
  {
    hide Xtime;
  }

  lemma MixRow2(x: Byte)
    ensures Xor(Xor(Gmul13(x), x), Xtime(Xor(Gmul13(x), Gmul11(x)))) == 0
  {
  }

  lemma MixRow3(x: Byte)
    ensures Xor(Xor(Gmul11(x), x), Xtime(Xor(Gmul11(x), Gmul14(x)))) == 0
  {
  }

  lemma BasisBack(x: Byte)
    ensures MixColumn(InvMixColumn(Column(x, 0, 0, 0))) == Column(x, 0, 0, 0)
  {
    hide Xor, Sum, InvMixColumn, Xtime, Gmul9, Gmul11, Gmul13, Gmul14;
    InvMixOne(x);
    MixRowSum(x);
    MixRow0(x);
    MixRow1(x);
    MixRow2(x);
    MixRow3(x);
  }

  /** A column is the sum of its four one-byte columns. */
  lemma Decompose(c: Column)
    ensures c == Plus(Plus(Column(c.a0, 0, 0, 0), Column(0, c.a1, 0, 0)), Plus(Column(0, 0, c.a2, 0), Column(0, 0, 0, c.a3)))
  {
    hide Xor;
    XorLaws(c.a0, 0);
    XorLaws(c.a1, 0);
    XorLaws(c.a2, 0);
    XorLaws(c.a3, 0);
    XorLaws(0, 0);
  }

  lemma OneByteColumns(x: Byte)
    ensures Undoes(Column(x, 0, 0, 0)) && Undoes(Column(0, x, 0, 0)) && Undoes(Column(0, 0, x, 0)) && Undoes(Column(0, 0, 0, x))
  {
    hide MixColumn, InvMixColumn;
    Basis(x);
    BasisBack(x);
    UndoesRotated(Column(x, 0, 0, 0));
    UndoesRotated(Column(0, x, 0, 0));
    UndoesRotated(Column(0, 0, x, 0));
  }

  /** InvMixColumns undoes MixColumns, and conversely (sections 5.1.3 and 5.3.3 of FIPS 197). */
  lemma MixColumnsAreInverse(c: Column)
    ensures InvMixColumn(MixColumn(c)) == c && MixColumn(InvMixColumn(c)) == c
  {
    hide MixColumn, InvMixColumn, Plus;
    var e0, e1, e2, e3 := Column(c.a0, 0, 0, 0), Column(0, c.a1, 0, 0), Column(0, 0, c.a2, 0), Column(0, 0, 0, c.a3);
    Decompose(c);
    MixPlus(Plus(e0, e1), Plus(e2, e3));
    MixPlus(e0, e1);
    MixPlus(e2, e3);
    InvMixPlus(Plus(MixColumn(e0), MixColumn(e1)), Plus(MixColumn(e2), MixColumn(e3)));
    InvMixPlus(MixColumn(e0), MixColumn(e1));
    InvMixPlus(MixColumn(e2), MixColumn(e3));
    InvMixPlus(Plus(e0, e1), Plus(e2, e3));
    InvMixPlus(e0, e1);
    InvMixPlus(e2, e3);
    MixPlus(Plus(InvMixColumn(e0), InvMixColumn(e1)), Plus(InvMixColumn(e2), InvMixColumn(e3)));
    MixPlus(InvMixColumn(e0), InvMixColumn(e1));
    MixPlus(InvMixColumn(e2), InvMixColumn(e3));
    OneByteColumns(c.a0);
    OneByteColumns(c.a1);
    OneByteColumns(c.a2);
    OneByteColumns(c.a3);
  }
}
