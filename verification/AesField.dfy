/**
 What multiplication of bytes stands for: Multiplication of polynomials over the field of two
 elements, modulo x^8 + x^4 + x^3 + x + 1 (section 4.2 of FIPS 197).
 */
module AesField {
  import opened GaloisField

  // Polynomials of degree below sixteen

  /** The coefficients, the one of degree zero in the lowest bit of the low byte. */
  datatype Poly = Poly(high: octet, low: octet)

  const ZERO := Poly(0, 0)
  const MODULUS := Poly(0x01, 0x1B)

  function AddPoly(a: Poly, b: Poly): Poly {
    Poly(Add(a.high, b.high), Add(a.low, b.low))
  }

  /** The product with x. */
  function ShiftPoly(a: Poly): Poly {
    Poly(Add(Double(a.high), TopBit(a.low)), Double(a.low))
  }

  function Double(b: octet): octet { b << 1 }

  function TopBit(b: octet): octet { b >> 7 }

  function Widen(b: octet): Poly { Poly(0, b) }

  /** The product of a and x^i. */
  function Power(a: Poly, i: nat): Poly
    decreases i, a
  {
    if i == 0 then a else ShiftPoly(Power(a, i - 1))
  }

  /** The product without carries of a and the bits of m from position `from` on. */
  function Product(a: Poly, m: octet, from: nat): Poly
    requires from <= 8
    decreases 8 - from, a
  {
    if from == 8 then ZERO else AddPoly(if BitSet(m, from) then Power(a, from) else ZERO, Product(a, m, from + 1))
  }

  lemma AddPolyLaws(a: Poly, b: Poly, c: Poly)
    ensures AddPoly(AddPoly(a, b), c) == AddPoly(a, AddPoly(b, c))
    ensures AddPoly(a, ZERO) == a && AddPoly(ZERO, a) == a && AddPoly(a, a) == ZERO
  {
    hide Add;
    AddLaws(a.high, b.high, c.high);
    AddLaws(a.low, b.low, c.low);
  }

  lemma ShiftBytes(a: octet, b: octet)
    ensures Double(Add(a, b)) == Add(Double(a), Double(b)) && TopBit(Add(a, b)) == Add(TopBit(a), TopBit(b))
    ensures Double(0) == 0 && TopBit(0) == 0
  {
  }

  lemma ShiftSum(a: Poly, b: Poly)
    ensures ShiftPoly(AddPoly(a, b)) == AddPoly(ShiftPoly(a), ShiftPoly(b))
    ensures ShiftPoly(ZERO) == ZERO
  {
    hide Add, Double, TopBit;
    ShiftBytes(a.high, b.high);
    ShiftBytes(a.low, b.low);
    AddLaws(0, 0, 0);
    Swap(Double(a.high), Double(b.high), TopBit(a.low), TopBit(b.low));
  }

  lemma SwapPoly(p: Poly, q: Poly, r: Poly, s: Poly)
    ensures AddPoly(AddPoly(p, q), AddPoly(r, s)) == AddPoly(AddPoly(p, r), AddPoly(q, s))
  {
    hide Add;
    Swap(p.high, q.high, r.high, s.high);
    Swap(p.low, q.low, r.low, s.low);
  }

  lemma WidenSum(a: octet, b: octet)
    ensures Widen(Add(a, b)) == AddPoly(Widen(a), Widen(b)) && Widen(0) == ZERO
  {
    hide Add;
    AddLaws(0, 0, 0);
  }

  /** Doubling is multiplication by x, with the modulus taken away if the degree reaches eight. */
  lemma DoubleMod(t: octet)
    ensures ShiftPoly(Widen(t)) == AddPoly(if BitSet(t, 7) then MODULUS else ZERO, Widen(Mul2(t)))
  {
    TopOf(t);
  }

  lemma TopOf(t: octet)
    ensures TopBit(t) == if BitSet(t, 7) then 1 else 0
    ensures Double(t) == Add(if BitSet(t, 7) then 0x1B else 0, Mul2(t))
  {
  }

  lemma BitsOfSum(q: octet, r: octet, i: nat)
    requires i < 8
    ensures BitSet(Add(q, r), i) <==> BitSet(q, i) != BitSet(r, i)
  {
    assert (q ^ r) >> i == (q >> i) ^ (r >> i);
    LowBitOfSum(q >> i, r >> i);
  }

  lemma LowBitOfSum(q: octet, r: octet)
    ensures (q ^ r) & 1 != 0 <==> (q & 1 != 0) != (r & 1 != 0)
  {
  }

  /** The product is linear in its second factor. */
  lemma {:induction false} ProductSum(a: Poly, q: octet, r: octet, from: nat)
    requires from <= 8
    ensures Product(a, Add(q, r), from) == AddPoly(Product(a, q, from), Product(a, r, from))
    decreases 8 - from
  {
    hide BitSet, AddPoly, Add, Power;
    AddPolyLaws(ZERO, ZERO, ZERO);
    if from < 8 {
      ProductSum(a, q, r, from + 1);
      BitsOfSum(q, r, from);
      var x, y, z := Power(a, from), Product(a, q, from + 1), Product(a, r, from + 1);
      AddPolyLaws(x, ZERO, ZERO);
      SwapPoly(if BitSet(q, from) then x else ZERO, y, if BitSet(r, from) then x else ZERO, z);
    }
  }

  lemma ShiftedBits(q: octet, i: nat)
    requires i < 7
    ensures BitSet(q << 1, i + 1) <==> BitSet(q, i)
    ensures !BitSet(q << 1, 0)
  {
  }

  /** Multiplying the second factor by x multiplies the product by x. */
  lemma {:induction false} ProductShift(a: Poly, q: octet, from: nat)
    requires from <= 7 && !BitSet(q, 7)
    ensures Product(a, q << 1, from + 1) == ShiftPoly(Product(a, q, from))
    decreases 8 - from
  {
    hide BitSet, AddPoly, ShiftPoly;
    ShiftSum(ZERO, ZERO);
    AddPolyLaws(ZERO, ZERO, ZERO);
    if from == 7 {
      assert Product(a, q, 8) == ZERO && Product(a, q << 1, 8) == ZERO;
    } else {
      ProductShift(a, q, from + 1);
      ShiftedBits(q, from);
      ShiftSum(if BitSet(q, from) then Power(a, from) else ZERO, Product(a, q, from + 1));
    }
  }

  lemma {:induction false} ProductZero(a: Poly, from: nat)
    requires from <= 8
    ensures Product(a, 0, from) == ZERO
    decreases 8 - from
  {
    hide AddPoly;
    AddPolyLaws(ZERO, ZERO, ZERO);
    if from < 8 {
      ProductZero(a, from + 1);
      NoBits(from);
    }
  }

  lemma NoBits(i: nat)
    requires i < 8
    ensures !BitSet(0, i) && (BitSet(1, i) <==> i == 0)
  {
  }

  lemma ProductOne(a: Poly)
    ensures Product(a, 1, 0) == a
  {
    hide AddPoly;
    AddPolyLaws(a, ZERO, ZERO);
    NoBits(0);
    OnlyFirstBit(a, 1);
  }

  lemma {:induction false} OnlyFirstBit(a: Poly, from: nat)
    requires 1 <= from <= 8
    ensures Product(a, 1, from) == ZERO
    decreases 8 - from
  {
    hide AddPoly;
    AddPolyLaws(ZERO, ZERO, ZERO);
    if from < 8 {
      OnlyFirstBit(a, from + 1);
      NoBits(from);
    }
  }

  /** q has degree below n. */
  predicate Degree(q: octet, n: nat) {
    forall i :: n <= i < 8 ==> !BitSet(q, i)
  }

  lemma DegreeShift(q: octet, n: nat, one: bool)
    requires Degree(q, n) && n <= 7
    ensures Degree(Add(q << 1, if one then 1 else 0), n + 1) && !BitSet(q, 7)
  {
    hide Add;
    var r := Add(q << 1, if one then 1 else 0);
    forall i {:trigger BitSet(r, i)} | n + 1 <= i < 8
      ensures !BitSet(r, i)
    {
      ShiftedBits(q, i - 1);
      BitsOfSum(q << 1, if one then 1 else 0, i);
      NoBits(i);
      assert !BitSet(q, i - 1);
    }
    assert !BitSet(q, 7);
  }

  /** b * x^(i + 1) is a multiple of the modulus plus the double of t, if b * x^i is one plus t. */
  lemma NextPower(b: Poly, i: nat, t: octet, q: octet) returns (r: octet)
    requires i <= 7 && Degree(q, i) && Power(b, i) == AddPoly(Product(MODULUS, q, 0), Widen(t))
    ensures Degree(r, i + 1) && Power(b, i + 1) == AddPoly(Product(MODULUS, r, 0), Widen(Mul2(t)))
  {
    hide AddPoly, ShiftPoly, Widen, Add, Mul2, BitSet, Degree;
    var one: octet := if BitSet(t, 7) then 1 else 0;
    r := Add(q << 1, one);
    DegreeShift(q, i, BitSet(t, 7));
    ShiftSum(Product(MODULUS, q, 0), Widen(t));
    DoubleMod(t);
    ShiftFromZero(MODULUS, q);
    ProductSum(MODULUS, q << 1, one, 0);
    ProductOne(MODULUS);
    ProductZero(MODULUS, 0);
    AddPolyLaws(Product(MODULUS, q << 1, 0), Product(MODULUS, one, 0), Widen(Mul2(t)));
  }

  lemma ShiftFromZero(a: Poly, q: octet)
    requires !BitSet(q, 7)
    ensures Product(a, q << 1, 0) == ShiftPoly(Product(a, q, 0))
  {
    hide AddPoly, ShiftPoly, BitSet;
    ProductShift(a, q, 0);
    ShiftedBits(q, 0);
    AddPolyLaws(Product(a, q << 1, 1), ZERO, ZERO);
  }

  /** The part of the product from position i on is a multiple of the modulus plus what the loop adds from there. */
  lemma {:induction false} ProductFrom(b: octet, m: octet, i: nat, t: octet, q: octet) returns (r: octet)
    requires i <= 8 && Degree(q, i) && Power(Widen(b), i) == AddPoly(Product(MODULUS, q, 0), Widen(t))
    ensures Product(Widen(b), m, i) == AddPoly(Product(MODULUS, r, 0), Widen(MulFrom(t, m, i)))
    decreases 8 - i
  {
    hide AddPoly, ShiftPoly, Widen, Add, Mul2, BitSet, Degree, Power;
    if i == 8 {
      r := 0;
      ProductZero(MODULUS, 0);
      WidenSum(0, 0);
      AddPolyLaws(ZERO, ZERO, ZERO);
    } else {
      var q' := NextPower(Widen(b), i, t, q);
      var r' := ProductFrom(b, m, i + 1, Mul2(t), q');
      r := OneMorePart(b, m, i, t, q, r');
    }
  }

  lemma OneMorePart(b: octet, m: octet, i: nat, t: octet, q: octet, r': octet) returns (r: octet)
    requires i < 8 && Power(Widen(b), i) == AddPoly(Product(MODULUS, q, 0), Widen(t))
    requires Product(Widen(b), m, i + 1) == AddPoly(Product(MODULUS, r', 0), Widen(MulFrom(Mul2(t), m, i + 1)))
    ensures Product(Widen(b), m, i) == AddPoly(Product(MODULUS, r, 0), Widen(MulFrom(t, m, i)))
  {
    hide AddPoly, ShiftPoly, Widen, Add, Mul2, BitSet, Power;
    var rest := MulFrom(Mul2(t), m, i + 1);
    var u, v: octet := if BitSet(m, i) then t else 0, if BitSet(m, i) then q else 0;
    assert Product(Widen(b), m, i) ==
      AddPoly(if BitSet(m, i) then Power(Widen(b), i) else ZERO, Product(Widen(b), m, i + 1));
    assert MulFrom(t, m, i) == Add(u, rest);
    hide Product, MulFrom;
    r := Add(v, r');
    ProductSum(MODULUS, v, r', 0);
    WidenSum(u, rest);
    ProductZero(MODULUS, 0);
    WidenSum(0, 0);
    AddPolyLaws(ZERO, ZERO, ZERO);
    SwapPoly(Product(MODULUS, v, 0), Widen(u), Product(MODULUS, r', 0), Widen(rest));
  }

  /** Multiplication of bytes is multiplication of polynomials, modulo x^8 + x^4 + x^3 + x + 1. */
  lemma MulIsProduct(b: octet, m: octet) returns (q: octet)
    ensures Product(Widen(b), m, 0) == AddPoly(Product(MODULUS, q, 0), Widen(MulFrom(b, m, 0)))
  {
    hide AddPoly, ShiftPoly, Widen, MulFrom;
    ProductZero(MODULUS, 0);
    AddPolyLaws(Widen(b), ZERO, ZERO);
    assert Degree(0, 0) by {
      forall i | 0 <= i < 8
        ensures !BitSet(0, i)
      {
        NoBits(i);
      }
    }
    q := ProductFrom(b, m, 0, b, 0);
  }
}
