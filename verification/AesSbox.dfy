/**
 What the substitution table stands for: Each entry is the inverse of its index in the field,
 followed by an affine map (section 5.1.1 of FIPS 197).
 */
module AesSbox {
  import opened GaloisField
  import opened AesTables

  /** The affine map: the sum of b, its rotations by one to four bits, and a constant. */
  function Affine(b: octet): octet {
    b ^ ((b << 1) | (b >> 7)) ^ ((b << 2) | (b >> 6)) ^ ((b << 3) | (b >> 5)) ^ ((b << 4) | (b >> 4)) ^ 0x63
  }

  // The inverse in the field, and zero for zero: a row for each high digit

  function Inverse0(low: octet): octet {
    Pick(low, 0x00, 0x01, 0x8d, 0xf6, 0xcb, 0x52, 0x7b, 0xd1, 0xe8, 0x4f, 0x29, 0xc0, 0xb0, 0xe1, 0xe5, 0xc7)
  }

  function Inverse1(low: octet): octet {
    Pick(low, 0x74, 0xb4, 0xaa, 0x4b, 0x99, 0x2b, 0x60, 0x5f, 0x58, 0x3f, 0xfd, 0xcc, 0xff, 0x40, 0xee, 0xb2)
  }

  function Inverse2(low: octet): octet {
    Pick(low, 0x3a, 0x6e, 0x5a, 0xf1, 0x55, 0x4d, 0xa8, 0xc9, 0xc1, 0x0a, 0x98, 0x15, 0x30, 0x44, 0xa2, 0xc2)
  }

  function Inverse3(low: octet): octet {
    Pick(low, 0x2c, 0x45, 0x92, 0x6c, 0xf3, 0x39, 0x66, 0x42, 0xf2, 0x35, 0x20, 0x6f, 0x77, 0xbb, 0x59, 0x19)
  }

  function Inverse4(low: octet): octet {
    Pick(low, 0x1d, 0xfe, 0x37, 0x67, 0x2d, 0x31, 0xf5, 0x69, 0xa7, 0x64, 0xab, 0x13, 0x54, 0x25, 0xe9, 0x09)
  }

  function Inverse5(low: octet): octet {
    Pick(low, 0xed, 0x5c, 0x05, 0xca, 0x4c, 0x24, 0x87, 0xbf, 0x18, 0x3e, 0x22, 0xf0, 0x51, 0xec, 0x61, 0x17)
  }

  function Inverse6(low: octet): octet {
    Pick(low, 0x16, 0x5e, 0xaf, 0xd3, 0x49, 0xa6, 0x36, 0x43, 0xf4, 0x47, 0x91, 0xdf, 0x33, 0x93, 0x21, 0x3b)
  }

  function Inverse7(low: octet): octet {
    Pick(low, 0x79, 0xb7, 0x97, 0x85, 0x10, 0xb5, 0xba, 0x3c, 0xb6, 0x70, 0xd0, 0x06, 0xa1, 0xfa, 0x81, 0x82)
  }

  function Inverse8(low: octet): octet {
    Pick(low, 0x83, 0x7e, 0x7f, 0x80, 0x96, 0x73, 0xbe, 0x56, 0x9b, 0x9e, 0x95, 0xd9, 0xf7, 0x02, 0xb9, 0xa4)
  }

  function Inverse9(low: octet): octet {
    Pick(low, 0xde, 0x6a, 0x32, 0x6d, 0xd8, 0x8a, 0x84, 0x72, 0x2a, 0x14, 0x9f, 0x88, 0xf9, 0xdc, 0x89, 0x9a)
  }

  function InverseA(low: octet): octet {
    Pick(low, 0xfb, 0x7c, 0x2e, 0xc3, 0x8f, 0xb8, 0x65, 0x48, 0x26, 0xc8, 0x12, 0x4a, 0xce, 0xe7, 0xd2, 0x62)
  }

  function InverseB(low: octet): octet {
    Pick(low, 0x0c, 0xe0, 0x1f, 0xef, 0x11, 0x75, 0x78, 0x71, 0xa5, 0x8e, 0x76, 0x3d, 0xbd, 0xbc, 0x86, 0x57)
  }

  function InverseC(low: octet): octet {
    Pick(low, 0x0b, 0x28, 0x2f, 0xa3, 0xda, 0xd4, 0xe4, 0x0f, 0xa9, 0x27, 0x53, 0x04, 0x1b, 0xfc, 0xac, 0xe6)
  }

  function InverseD(low: octet): octet {
    Pick(low, 0x7a, 0x07, 0xae, 0x63, 0xc5, 0xdb, 0xe2, 0xea, 0x94, 0x8b, 0xc4, 0xd5, 0x9d, 0xf8, 0x90, 0x6b)
  }

  function InverseE(low: octet): octet {
    Pick(low, 0xb1, 0x0d, 0xd6, 0xeb, 0xc6, 0x0e, 0xcf, 0xad, 0x08, 0x4e, 0xd7, 0xe3, 0x5d, 0x50, 0x1e, 0xb3)
  }

  function InverseF(low: octet): octet {
    Pick(low, 0x5b, 0x23, 0x38, 0x34, 0x68, 0x46, 0x03, 0x8c, 0xdd, 0x9c, 0x7d, 0xa0, 0xcd, 0x1a, 0x41, 0x1c)
  }

  function FieldInverse(x: octet): octet {
    var low := x & 0xf;
    Pick(x >> 4, Inverse0(low), Inverse1(low), Inverse2(low), Inverse3(low),
         Inverse4(low), Inverse5(low), Inverse6(low), Inverse7(low),
         Inverse8(low), Inverse9(low), InverseA(low), InverseB(low),
         InverseC(low), InverseD(low), InverseE(low), InverseF(low))
  }

  // The product of bytes, written out

  function Term(b: octet, m: octet, mask: octet): octet {
    if m & mask != 0 then b else 0
  }

  /** The product of bytes, written out. */
  function MulAll(b: octet, m: octet): octet {
    var b1 := Mul2(b);
    var b2 := Mul2(b1);
    var b3 := Mul2(b2);
    var b4 := Mul2(b3);
    var b5 := Mul2(b4);
    var b6 := Mul2(b5);
    var b7 := Mul2(b6);
    Add(Term(b, m, 0x01), Add(Term(b1, m, 0x02), Add(Term(b2, m, 0x04), Add(Term(b3, m, 0x08),
    Add(Term(b4, m, 0x10), Add(Term(b5, m, 0x20), Add(Term(b6, m, 0x40), Term(b7, m, 0x80))))))))
  }

  function Part(t: octet, m: octet, i: nat): octet
    requires i < 8
  {
    if BitSet(m, i) then t else 0
  }

  lemma TermIsPart(b: octet, m: octet)
    ensures Term(b, m, 0x01) == Part(b, m, 0) && Term(b, m, 0x02) == Part(b, m, 1)
    ensures Term(b, m, 0x04) == Part(b, m, 2) && Term(b, m, 0x08) == Part(b, m, 3)
    ensures Term(b, m, 0x10) == Part(b, m, 4) && Term(b, m, 0x20) == Part(b, m, 5)
    ensures Term(b, m, 0x40) == Part(b, m, 6) && Term(b, m, 0x80) == Part(b, m, 7)
  {
  }

  lemma FourTerms(t: octet, m: octet, i: nat)
    requires i <= 4
    ensures var t1 := Mul2(t); var t2 := Mul2(t1); var t3 := Mul2(t2);
      MulFrom(t, m, i) == Add(Part(t, m, i), Add(Part(t1, m, i + 1), Add(Part(t2, m, i + 2), Add(Part(t3, m, i + 3),
                          MulFrom(Mul2(t3), m, i + 4)))))
  {
    hide BitSet, Mul2, Add;
    var t1 := Mul2(t);
    var t2 := Mul2(t1);
    var t3 := Mul2(t2);
    assert MulFrom(t, m, i) == Add(Part(t, m, i), MulFrom(t1, m, i + 1));
    assert MulFrom(t1, m, i + 1) == Add(Part(t1, m, i + 1), MulFrom(t2, m, i + 2));
    assert MulFrom(t2, m, i + 2) == Add(Part(t2, m, i + 2), MulFrom(t3, m, i + 3));
    assert MulFrom(t3, m, i + 3) == Add(Part(t3, m, i + 3), MulFrom(Mul2(t3), m, i + 4));
  }

  lemma EightTerms(b: octet, m: octet)
    ensures var b1 := Mul2(b); var b2 := Mul2(b1); var b3 := Mul2(b2); var b4 := Mul2(b3);
      var b5 := Mul2(b4); var b6 := Mul2(b5); var b7 := Mul2(b6);
      MulFrom(b, m, 0) == Add(Part(b, m, 0), Add(Part(b1, m, 1), Add(Part(b2, m, 2), Add(Part(b3, m, 3),
                          Add(Part(b4, m, 4), Add(Part(b5, m, 5), Add(Part(b6, m, 6), Part(b7, m, 7))))))))
  {
    hide BitSet, Mul2, Add, Part, MulFrom;
    FourTerms(b, m, 0);
    var b4 := Mul2(Mul2(Mul2(Mul2(b))));
    FourTerms(b4, m, 4);
    var b7 := Mul2(Mul2(Mul2(b4)));
    AddLaws(Part(b7, m, 7), 0, 0);
    NothingLeft(Mul2(b7), m);
  }

  lemma NothingLeft(t: octet, m: octet)
    ensures MulFrom(t, m, 8) == 0
  {
  }

  lemma MulAllIsMul(b: octet, m: octet)
    ensures MulAll(b, m) == MulFrom(b, m, 0)
  {
    hide BitSet, Mul2, Add, Term, Part, MulFrom;
    EightTerms(b, m);
    var b1 := Mul2(b);
    var b2 := Mul2(b1);
    var b3 := Mul2(b2);
    var b4 := Mul2(b3);
    var b5 := Mul2(b4);
    var b6 := Mul2(b5);
    TermIsPart(b, m);
    TermIsPart(b1, m);
    TermIsPart(b2, m);
    TermIsPart(b3, m);
    TermIsPart(b4, m);
    TermIsPart(b5, m);
    TermIsPart(b6, m);
    TermIsPart(Mul2(b6), m);
  }

  // The entries, row by row

  predicate Entry(x: octet) {
    && Sbox(x) == Affine(FieldInverse(x))
    && MulAll(x, FieldInverse(x)) == if x == 0 then 0 else 1
  }

  lemma Digits0(low: octet)
    requires low < 16
    ensures Affine(Inverse0(low)) ==
            Pick(low, 0x63, 0x7c, 0x77, 0x7b, 0xf2, 0x6b, 0x6f, 0xc5, 0x30, 0x01, 0x67, 0x2b, 0xfe, 0xd7, 0xab, 0x76)
    ensures MulAll(0x00 | low, Inverse0(low)) == if low == 0 then 0 else 1
  {
    if {
      case low == 0x0 => case low == 0x1 => case low == 0x2 => case low == 0x3 =>
      case low == 0x4 => case low == 0x5 => case low == 0x6 => case low == 0x7 =>
      case low == 0x8 => case low == 0x9 => case low == 0xa => case low == 0xb =>
      case low == 0xc => case low == 0xd => case low == 0xe => case low == 0xf =>
    }
  }

  lemma Row0(x: octet)
    requires x >> 4 == 0x0
    ensures Entry(x)
  {
    hide Affine, MulAll;
    var low := x & 0xf;
    assert FieldInverse(x) == Inverse0(low);
    assert Sbox(x) ==
      Pick(low, 0x63, 0x7c, 0x77, 0x7b, 0xf2, 0x6b, 0x6f, 0xc5, 0x30, 0x01, 0x67, 0x2b, 0xfe, 0xd7, 0xab, 0x76);
    Digits0(low);
    assert x == 0x00 | low;
  }

  lemma Digits1(low: octet)
    requires low < 16
    ensures Affine(Inverse1(low)) ==
            Pick(low, 0xca, 0x82, 0xc9, 0x7d, 0xfa, 0x59, 0x47, 0xf0, 0xad, 0xd4, 0xa2, 0xaf, 0x9c, 0xa4, 0x72, 0xc0)
    ensures MulAll(0x10 | low, Inverse1(low)) == 1
  {
    if {
      case low == 0x0 => case low == 0x1 => case low == 0x2 => case low == 0x3 =>
      case low == 0x4 => case low == 0x5 => case low == 0x6 => case low == 0x7 =>
      case low == 0x8 => case low == 0x9 => case low == 0xa => case low == 0xb =>
      case low == 0xc => case low == 0xd => case low == 0xe => case low == 0xf =>
    }
  }

  lemma Row1(x: octet)
    requires x >> 4 == 0x1
    ensures Entry(x)
  {
    hide Affine, MulAll;
    var low := x & 0xf;
    assert FieldInverse(x) == Inverse1(low);
    assert Sbox(x) ==
      Pick(low, 0xca, 0x82, 0xc9, 0x7d, 0xfa, 0x59, 0x47, 0xf0, 0xad, 0xd4, 0xa2, 0xaf, 0x9c, 0xa4, 0x72, 0xc0);
    Digits1(low);
    assert x == 0x10 | low;
  }

  lemma Digits2(low: octet)
    requires low < 16
    ensures Affine(Inverse2(low)) ==
            Pick(low, 0xb7, 0xfd, 0x93, 0x26, 0x36, 0x3f, 0xf7, 0xcc, 0x34, 0xa5, 0xe5, 0xf1, 0x71, 0xd8, 0x31, 0x15)
    ensures MulAll(0x20 | low, Inverse2(low)) == 1
  {
    if {
      case low == 0x0 => case low == 0x1 => case low == 0x2 => case low == 0x3 =>
      case low == 0x4 => case low == 0x5 => case low == 0x6 => case low == 0x7 =>
      case low == 0x8 => case low == 0x9 => case low == 0xa => case low == 0xb =>
      case low == 0xc => case low == 0xd => case low == 0xe => case low == 0xf =>
    }
  }

  lemma Row2(x: octet)
    requires x >> 4 == 0x2
    ensures Entry(x)
  {
    hide Affine, MulAll;
    var low := x & 0xf;
    assert FieldInverse(x) == Inverse2(low);
    assert Sbox(x) ==
      Pick(low, 0xb7, 0xfd, 0x93, 0x26, 0x36, 0x3f, 0xf7, 0xcc, 0x34, 0xa5, 0xe5, 0xf1, 0x71, 0xd8, 0x31, 0x15);
    Digits2(low);
    assert x == 0x20 | low;
  }

  lemma Digits3(low: octet)
    requires low < 16
    ensures Affine(Inverse3(low)) ==
            Pick(low, 0x04, 0xc7, 0x23, 0xc3, 0x18, 0x96, 0x05, 0x9a, 0x07, 0x12, 0x80, 0xe2, 0xeb, 0x27, 0xb2, 0x75)
    ensures MulAll(0x30 | low, Inverse3(low)) == 1
  {
    if {
      case low == 0x0 => case low == 0x1 => case low == 0x2 => case low == 0x3 =>
      case low == 0x4 => case low == 0x5 => case low == 0x6 => case low == 0x7 =>
      case low == 0x8 => case low == 0x9 => case low == 0xa => case low == 0xb =>
      case low == 0xc => case low == 0xd => case low == 0xe => case low == 0xf =>
    }
  }

  lemma Row3(x: octet)
    requires x >> 4 == 0x3
    ensures Entry(x)
  {
    hide Affine, MulAll;
    var low := x & 0xf;
    assert FieldInverse(x) == Inverse3(low);
    assert Sbox(x) ==
      Pick(low, 0x04, 0xc7, 0x23, 0xc3, 0x18, 0x96, 0x05, 0x9a, 0x07, 0x12, 0x80, 0xe2, 0xeb, 0x27, 0xb2, 0x75);
    Digits3(low);
    assert x == 0x30 | low;
  }

  lemma Digits4(low: octet)
    requires low < 16
    ensures Affine(Inverse4(low)) ==
            Pick(low, 0x09, 0x83, 0x2c, 0x1a, 0x1b, 0x6e, 0x5a, 0xa0, 0x52, 0x3b, 0xd6, 0xb3, 0x29, 0xe3, 0x2f, 0x84)
    ensures MulAll(0x40 | low, Inverse4(low)) == 1
  {
    if {
      case low == 0x0 => case low == 0x1 => case low == 0x2 => case low == 0x3 =>
      case low == 0x4 => case low == 0x5 => case low == 0x6 => case low == 0x7 =>
      case low == 0x8 => case low == 0x9 => case low == 0xa => case low == 0xb =>
      case low == 0xc => case low == 0xd => case low == 0xe => case low == 0xf =>
    }
  }

  lemma Row4(x: octet)
    requires x >> 4 == 0x4
    ensures Entry(x)
  {
    hide Affine, MulAll;
    var low := x & 0xf;
    assert FieldInverse(x) == Inverse4(low);
    assert Sbox(x) ==
      Pick(low, 0x09, 0x83, 0x2c, 0x1a, 0x1b, 0x6e, 0x5a, 0xa0, 0x52, 0x3b, 0xd6, 0xb3, 0x29, 0xe3, 0x2f, 0x84);
    Digits4(low);
    assert x == 0x40 | low;
  }

  lemma Digits5(low: octet)
    requires low < 16
    ensures Affine(Inverse5(low)) ==
            Pick(low, 0x53, 0xd1, 0x00, 0xed, 0x20, 0xfc, 0xb1, 0x5b, 0x6a, 0xcb, 0xbe, 0x39, 0x4a, 0x4c, 0x58, 0xcf)
    ensures MulAll(0x50 | low, Inverse5(low)) == 1
  {
    if {
      case low == 0x0 => case low == 0x1 => case low == 0x2 => case low == 0x3 =>
      case low == 0x4 => case low == 0x5 => case low == 0x6 => case low == 0x7 =>
      case low == 0x8 => case low == 0x9 => case low == 0xa => case low == 0xb =>
      case low == 0xc => case low == 0xd => case low == 0xe => case low == 0xf =>
    }
  }

  lemma Row5(x: octet)
    requires x >> 4 == 0x5
    ensures Entry(x)
  {
    hide Affine, MulAll;
    var low := x & 0xf;
    assert FieldInverse(x) == Inverse5(low);
    assert Sbox(x) ==
      Pick(low, 0x53, 0xd1, 0x00, 0xed, 0x20, 0xfc, 0xb1, 0x5b, 0x6a, 0xcb, 0xbe, 0x39, 0x4a, 0x4c, 0x58, 0xcf);
    Digits5(low);
    assert x == 0x50 | low;
  }

  lemma Digits6(low: octet)
    requires low < 16
    ensures Affine(Inverse6(low)) ==
            Pick(low, 0xd0, 0xef, 0xaa, 0xfb, 0x43, 0x4d, 0x33, 0x85, 0x45, 0xf9, 0x02, 0x7f, 0x50, 0x3c, 0x9f, 0xa8)
    ensures MulAll(0x60 | low, Inverse6(low)) == 1
  {
    if {
      case low == 0x0 => case low == 0x1 => case low == 0x2 => case low == 0x3 =>
      case low == 0x4 => case low == 0x5 => case low == 0x6 => case low == 0x7 =>
      case low == 0x8 => case low == 0x9 => case low == 0xa => case low == 0xb =>
      case low == 0xc => case low == 0xd => case low == 0xe => case low == 0xf =>
    }
  }

  lemma Row6(x: octet)
    requires x >> 4 == 0x6
    ensures Entry(x)
  {
    hide Affine, MulAll;
    var low := x & 0xf;
    assert FieldInverse(x) == Inverse6(low);
    assert Sbox(x) ==
      Pick(low, 0xd0, 0xef, 0xaa, 0xfb, 0x43, 0x4d, 0x33, 0x85, 0x45, 0xf9, 0x02, 0x7f, 0x50, 0x3c, 0x9f, 0xa8);
    Digits6(low);
    assert x == 0x60 | low;
  }

  lemma Digits7(low: octet)
    requires low < 16
    ensures Affine(Inverse7(low)) ==
            Pick(low, 0x51, 0xa3, 0x40, 0x8f, 0x92, 0x9d, 0x38, 0xf5, 0xbc, 0xb6, 0xda, 0x21, 0x10, 0xff, 0xf3, 0xd2)
    ensures MulAll(0x70 | low, Inverse7(low)) == 1
  {
    if {
      case low == 0x0 => case low == 0x1 => case low == 0x2 => case low == 0x3 =>
      case low == 0x4 => case low == 0x5 => case low == 0x6 => case low == 0x7 =>
      case low == 0x8 => case low == 0x9 => case low == 0xa => case low == 0xb =>
      case low == 0xc => case low == 0xd => case low == 0xe => case low == 0xf =>
    }
  }

  lemma Row7(x: octet)
    requires x >> 4 == 0x7
    ensures Entry(x)
  {
    hide Affine, MulAll;
    var low := x & 0xf;
    assert FieldInverse(x) == Inverse7(low);
    assert Sbox(x) ==
      Pick(low, 0x51, 0xa3, 0x40, 0x8f, 0x92, 0x9d, 0x38, 0xf5, 0xbc, 0xb6, 0xda, 0x21, 0x10, 0xff, 0xf3, 0xd2);
    Digits7(low);
    assert x == 0x70 | low;
  }

  lemma Digits8(low: octet)
    requires low < 16
    ensures Affine(Inverse8(low)) ==
            Pick(low, 0xcd, 0x0c, 0x13, 0xec, 0x5f, 0x97, 0x44, 0x17, 0xc4, 0xa7, 0x7e, 0x3d, 0x64, 0x5d, 0x19, 0x73)
    ensures MulAll(0x80 | low, Inverse8(low)) == 1
  {
    if {
      case low == 0x0 => case low == 0x1 => case low == 0x2 => case low == 0x3 =>
      case low == 0x4 => case low == 0x5 => case low == 0x6 => case low == 0x7 =>
      case low == 0x8 => case low == 0x9 => case low == 0xa => case low == 0xb =>
      case low == 0xc => case low == 0xd => case low == 0xe => case low == 0xf =>
    }
  }

  lemma Row8(x: octet)
    requires x >> 4 == 0x8
    ensures Entry(x)
  {
    hide Affine, MulAll;
    var low := x & 0xf;
    assert FieldInverse(x) == Inverse8(low);
    assert Sbox(x) ==
      Pick(low, 0xcd, 0x0c, 0x13, 0xec, 0x5f, 0x97, 0x44, 0x17, 0xc4, 0xa7, 0x7e, 0x3d, 0x64, 0x5d, 0x19, 0x73);
    Digits8(low);
    assert x == 0x80 | low;
  }

  lemma Digits9(low: octet)
    requires low < 16
    ensures Affine(Inverse9(low)) ==
            Pick(low, 0x60, 0x81, 0x4f, 0xdc, 0x22, 0x2a, 0x90, 0x88, 0x46, 0xee, 0xb8, 0x14, 0xde, 0x5e, 0x0b, 0xdb)
    ensures MulAll(0x90 | low, Inverse9(low)) == 1
  {
    if {
      case low == 0x0 => case low == 0x1 => case low == 0x2 => case low == 0x3 =>
      case low == 0x4 => case low == 0x5 => case low == 0x6 => case low == 0x7 =>
      case low == 0x8 => case low == 0x9 => case low == 0xa => case low == 0xb =>
      case low == 0xc => case low == 0xd => case low == 0xe => case low == 0xf =>
    }
  }

  lemma Row9(x: octet)
    requires x >> 4 == 0x9
    ensures Entry(x)
  {
    hide Affine, MulAll;
    var low := x & 0xf;
    assert FieldInverse(x) == Inverse9(low);
    assert Sbox(x) ==
      Pick(low, 0x60, 0x81, 0x4f, 0xdc, 0x22, 0x2a, 0x90, 0x88, 0x46, 0xee, 0xb8, 0x14, 0xde, 0x5e, 0x0b, 0xdb);
    Digits9(low);
    assert x == 0x90 | low;
  }

  lemma DigitsA(low: octet)
    requires low < 16
    ensures Affine(InverseA(low)) ==
            Pick(low, 0xe0, 0x32, 0x3a, 0x0a, 0x49, 0x06, 0x24, 0x5c, 0xc2, 0xd3, 0xac, 0x62, 0x91, 0x95, 0xe4, 0x79)
    ensures MulAll(0xa0 | low, InverseA(low)) == 1
  {
    if {
      case low == 0x0 => case low == 0x1 => case low == 0x2 => case low == 0x3 =>
      case low == 0x4 => case low == 0x5 => case low == 0x6 => case low == 0x7 =>
      case low == 0x8 => case low == 0x9 => case low == 0xa => case low == 0xb =>
      case low == 0xc => case low == 0xd => case low == 0xe => case low == 0xf =>
    }
  }

  lemma RowA(x: octet)
    requires x >> 4 == 0xa
    ensures Entry(x)
  {
    hide Affine, MulAll;
    var low := x & 0xf;
    assert FieldInverse(x) == InverseA(low);
    assert Sbox(x) ==
      Pick(low, 0xe0, 0x32, 0x3a, 0x0a, 0x49, 0x06, 0x24, 0x5c, 0xc2, 0xd3, 0xac, 0x62, 0x91, 0x95, 0xe4, 0x79);
    DigitsA(low);
    assert x == 0xa0 | low;
  }

  lemma DigitsB(low: octet)
    requires low < 16
    ensures Affine(InverseB(low)) ==
            Pick(low, 0xe7, 0xc8, 0x37, 0x6d, 0x8d, 0xd5, 0x4e, 0xa9, 0x6c, 0x56, 0xf4, 0xea, 0x65, 0x7a, 0xae, 0x08)
    ensures MulAll(0xb0 | low, InverseB(low)) == 1
  {
    if {
      case low == 0x0 => case low == 0x1 => case low == 0x2 => case low == 0x3 =>
      case low == 0x4 => case low == 0x5 => case low == 0x6 => case low == 0x7 =>
      case low == 0x8 => case low == 0x9 => case low == 0xa => case low == 0xb =>
      case low == 0xc => case low == 0xd => case low == 0xe => case low == 0xf =>
    }
  }

  lemma RowB(x: octet)
    requires x >> 4 == 0xb
    ensures Entry(x)
  {
    hide Affine, MulAll;
    var low := x & 0xf;
    assert FieldInverse(x) == InverseB(low);
    assert Sbox(x) ==
      Pick(low, 0xe7, 0xc8, 0x37, 0x6d, 0x8d, 0xd5, 0x4e, 0xa9, 0x6c, 0x56, 0xf4, 0xea, 0x65, 0x7a, 0xae, 0x08);
    DigitsB(low);
    assert x == 0xb0 | low;
  }

  lemma DigitsC(low: octet)
    requires low < 16
    ensures Affine(InverseC(low)) ==
            Pick(low, 0xba, 0x78, 0x25, 0x2e, 0x1c, 0xa6, 0xb4, 0xc6, 0xe8, 0xdd, 0x74, 0x1f, 0x4b, 0xbd, 0x8b, 0x8a)
    ensures MulAll(0xc0 | low, InverseC(low)) == 1
  {
    if {
      case low == 0x0 => case low == 0x1 => case low == 0x2 => case low == 0x3 =>
      case low == 0x4 => case low == 0x5 => case low == 0x6 => case low == 0x7 =>
      case low == 0x8 => case low == 0x9 => case low == 0xa => case low == 0xb =>
      case low == 0xc => case low == 0xd => case low == 0xe => case low == 0xf =>
    }
  }

  lemma RowC(x: octet)
    requires x >> 4 == 0xc
    ensures Entry(x)
  {
    hide Affine, MulAll;
    var low := x & 0xf;
    assert FieldInverse(x) == InverseC(low);
    assert Sbox(x) ==
      Pick(low, 0xba, 0x78, 0x25, 0x2e, 0x1c, 0xa6, 0xb4, 0xc6, 0xe8, 0xdd, 0x74, 0x1f, 0x4b, 0xbd, 0x8b, 0x8a);
    DigitsC(low);
    assert x == 0xc0 | low;
  }

  lemma DigitsD(low: octet)
    requires low < 16
    ensures Affine(InverseD(low)) ==
            Pick(low, 0x70, 0x3e, 0xb5, 0x66, 0x48, 0x03, 0xf6, 0x0e, 0x61, 0x35, 0x57, 0xb9, 0x86, 0xc1, 0x1d, 0x9e)
    ensures MulAll(0xd0 | low, InverseD(low)) == 1
  {
    if {
      case low == 0x0 => case low == 0x1 => case low == 0x2 => case low == 0x3 =>
      case low == 0x4 => case low == 0x5 => case low == 0x6 => case low == 0x7 =>
      case low == 0x8 => case low == 0x9 => case low == 0xa => case low == 0xb =>
      case low == 0xc => case low == 0xd => case low == 0xe => case low == 0xf =>
    }
  }

  lemma RowD(x: octet)
    requires x >> 4 == 0xd
    ensures Entry(x)
  {
    hide Affine, MulAll;
    var low := x & 0xf;
    assert FieldInverse(x) == InverseD(low);
    assert Sbox(x) ==
      Pick(low, 0x70, 0x3e, 0xb5, 0x66, 0x48, 0x03, 0xf6, 0x0e, 0x61, 0x35, 0x57, 0xb9, 0x86, 0xc1, 0x1d, 0x9e);
    DigitsD(low);
    assert x == 0xd0 | low;
  }

  lemma DigitsE(low: octet)
    requires low < 16
    ensures Affine(InverseE(low)) ==
            Pick(low, 0xe1, 0xf8, 0x98, 0x11, 0x69, 0xd9, 0x8e, 0x94, 0x9b, 0x1e, 0x87, 0xe9, 0xce, 0x55, 0x28, 0xdf)
    ensures MulAll(0xe0 | low, InverseE(low)) == 1
  {
    if {
      case low == 0x0 => case low == 0x1 => case low == 0x2 => case low == 0x3 =>
      case low == 0x4 => case low == 0x5 => case low == 0x6 => case low == 0x7 =>
      case low == 0x8 => case low == 0x9 => case low == 0xa => case low == 0xb =>
      case low == 0xc => case low == 0xd => case low == 0xe => case low == 0xf =>
    }
  }

  lemma RowE(x: octet)
    requires x >> 4 == 0xe
    ensures Entry(x)
  {
    hide Affine, MulAll;
    var low := x & 0xf;
    assert FieldInverse(x) == InverseE(low);
    assert Sbox(x) ==
      Pick(low, 0xe1, 0xf8, 0x98, 0x11, 0x69, 0xd9, 0x8e, 0x94, 0x9b, 0x1e, 0x87, 0xe9, 0xce, 0x55, 0x28, 0xdf);
    DigitsE(low);
    assert x == 0xe0 | low;
  }

  lemma DigitsF(low: octet)
    requires low < 16
    ensures Affine(InverseF(low)) ==
            Pick(low, 0x8c, 0xa1, 0x89, 0x0d, 0xbf, 0xe6, 0x42, 0x68, 0x41, 0x99, 0x2d, 0x0f, 0xb0, 0x54, 0xbb, 0x16)
    ensures MulAll(0xf0 | low, InverseF(low)) == 1
  {
    if {
      case low == 0x0 => case low == 0x1 => case low == 0x2 => case low == 0x3 =>
      case low == 0x4 => case low == 0x5 => case low == 0x6 => case low == 0x7 =>
      case low == 0x8 => case low == 0x9 => case low == 0xa => case low == 0xb =>
      case low == 0xc => case low == 0xd => case low == 0xe => case low == 0xf =>
    }
  }

  lemma RowF(x: octet)
    requires x >> 4 == 0xf
    ensures Entry(x)
  {
    hide Affine, MulAll;
    var low := x & 0xf;
    assert FieldInverse(x) == InverseF(low);
    assert Sbox(x) ==
      Pick(low, 0x8c, 0xa1, 0x89, 0x0d, 0xbf, 0xe6, 0x42, 0x68, 0x41, 0x99, 0x2d, 0x0f, 0xb0, 0x54, 0xbb, 0x16);
    DigitsF(low);
    assert x == 0xf0 | low;
  }

  lemma AllEntries(x: octet)
    ensures Entry(x)
  {
    hide Entry;
    if {
      case x >> 4 == 0x0 => Row0(x);
      case x >> 4 == 0x1 => Row1(x);
      case x >> 4 == 0x2 => Row2(x);
      case x >> 4 == 0x3 => Row3(x);
      case x >> 4 == 0x4 => Row4(x);
      case x >> 4 == 0x5 => Row5(x);
      case x >> 4 == 0x6 => Row6(x);
      case x >> 4 == 0x7 => Row7(x);
      case x >> 4 == 0x8 => Row8(x);
      case x >> 4 == 0x9 => Row9(x);
      case x >> 4 == 0xa => RowA(x);
      case x >> 4 == 0xb => RowB(x);
      case x >> 4 == 0xc => RowC(x);
      case x >> 4 == 0xd => RowD(x);
      case x >> 4 == 0xe => RowE(x);
      case x >> 4 == 0xf => RowF(x);
    }
  }

  lemma InverseOfZero()
    ensures FieldInverse(0) == 0
  {
  }

  /** Every entry of the table is the affine image of the inverse of its index. */
  lemma SboxIsAffineInverse(x: octet)
    ensures Sbox(x) == Affine(FieldInverse(x))
    ensures x != 0 ==> MulFrom(x, FieldInverse(x), 0) == 1
    ensures FieldInverse(0) == 0
  {
    hide MulAll, MulFrom, Affine, Sbox, FieldInverse;
    AllEntries(x);
    MulAllIsMul(x, FieldInverse(x));
    InverseOfZero();
  }
}
