/**
 Arithmetic in GF(2^8) as AES uses it (section 4.2 of FIPS 197): addition is exclusive or,
 multiplication goes by doubling.
 */
module GaloisField {

  type octet = bv8

  /** Addition; every element is its own inverse. */
  function Add(a: octet, b: octet): octet { a ^ b }

  /** Multiplication by x. */
  function Mul2(b: octet): octet {
    if b & 0x80 != 0 then (b << 1) ^ 0x1B else b << 1
  }

  lemma AddLaws(a: octet, b: octet, c: octet)
    ensures Add(a, b) == Add(b, a)
    ensures Add(Add(a, b), c) == Add(a, Add(b, c))
    ensures Add(a, 0) == a && Add(0, a) == a && Add(a, a) == 0
  {
  }

  lemma Mul2Linear(p: octet, q: octet)
    ensures Mul2(Add(p, q)) == Add(Mul2(p), Mul2(q))
  {
    TopBit(p, q);
    ShiftedSum(p, q);
    ReducedSum(p << 1, q << 1, 0x1B);
  }

  lemma TopBit(p: octet, q: octet)
    ensures (p ^ q) & 0x80 != 0 <==> (p & 0x80 != 0) != (q & 0x80 != 0)
  {
  }

  lemma ShiftedSum(p: octet, q: octet)
    ensures (p ^ q) << 1 == (p << 1) ^ (q << 1)
  {
  }

  lemma ReducedSum(p: octet, q: octet, r: octet)
    ensures (p ^ r) ^ (q ^ r) == p ^ q
    ensures (p ^ r) ^ q == (p ^ q) ^ r && p ^ (q ^ r) == (p ^ q) ^ r
  {
  }

  // Multiplication by a constant

  predicate BitSet(m: octet, i: nat)
    requires i < 8
  {
    (m >> i) & 1 != 0
  }

  /** The sum of b * x^i over the bits i of m from position from on, t being b * x^from. */
  function MulFrom(t: octet, m: octet, from: nat): octet
    requires from <= 8
    decreases 8 - from, t
  {
    if from == 8 then 0 else Add(if BitSet(m, from) then t else 0, MulFrom(Mul2(t), m, from + 1))
  }

  /** Multiplication by m, one bit of m after the other. */
  method Mul(b: octet, m: octet) returns (v: octet)
    ensures v == MulFrom(b, m, 0)
  {
    hide BitSet, Mul2, Add;
    v := 0;
    var t := b;
    AddLaws(MulFrom(b, m, 0), 0, 0);
    for i := 0 to 8
      invariant Add(v, MulFrom(t, m, i)) == MulFrom(b, m, 0)
    {
      ghost var rest := MulFrom(Mul2(t), m, i + 1);
      AddLaws(v, t, rest);
      AddLaws(rest, 0, 0);
      if BitSet(m, i) {
        v := Add(v, t);
      }
      t := Mul2(t);
    }
    AddLaws(v, 0, 0);
  }

  function Times9(b: octet): octet { Add(Mul2(Mul2(Mul2(b))), b) }
  function TimesB(b: octet): octet { Add(Mul2(Mul2(Mul2(b))), Add(Mul2(b), b)) }
  function TimesD(b: octet): octet { Add(Mul2(Mul2(Mul2(b))), Add(Mul2(Mul2(b)), b)) }
  function TimesE(b: octet): octet { Add(Mul2(Mul2(Mul2(b))), Add(Mul2(Mul2(b)), Mul2(b))) }

  /** The bits of the constants of the inverse transformation. */
  predicate LowBits(m: octet, b0: bool, b1: bool, b2: bool, b3: bool) {
    && BitSet(m, 0) == b0 && BitSet(m, 1) == b1 && BitSet(m, 2) == b2 && BitSet(m, 3) == b3
    && !BitSet(m, 4) && !BitSet(m, 5) && !BitSet(m, 6) && !BitSet(m, 7)
  }

  lemma ConstantBits()
    ensures LowBits(0x09, true, false, false, true) && LowBits(0x0B, true, true, false, true)
    ensures LowBits(0x0D, true, false, true, true) && LowBits(0x0E, false, true, true, true)
  {
  }

  /** Multiplication by a number of four bits. */
  lemma MulLow(b: octet, m: octet, b0: bool, b1: bool, b2: bool, b3: bool)
    requires LowBits(m, b0, b1, b2, b3)
    ensures var t1, t2, t3 := Mul2(b), Mul2(Mul2(b)), Mul2(Mul2(Mul2(b)));
      MulFrom(b, m, 0) == Add(if b0 then b else 0, Add(if b1 then t1 else 0, Add(if b2 then t2 else 0, if b3 then t3 else 0)))
  {
    hide BitSet, Mul2, Add;
    var t1, t2, t3 := Mul2(b), Mul2(Mul2(b)), Mul2(Mul2(Mul2(b)));
    var t4 := Mul2(t3);
    MulHigh(t4, m);
    AddLaws(if b3 then t3 else 0, 0, 0);
    assert MulFrom(t3, m, 3) == Add(if b3 then t3 else 0, MulFrom(t4, m, 4));
    assert MulFrom(t2, m, 2) == Add(if b2 then t2 else 0, MulFrom(t3, m, 3));
    assert MulFrom(t1, m, 1) == Add(if b1 then t1 else 0, MulFrom(t2, m, 2));
  }

  lemma MulHigh(t: octet, m: octet)
    requires !BitSet(m, 4) && !BitSet(m, 5) && !BitSet(m, 6) && !BitSet(m, 7)
    ensures MulFrom(t, m, 4) == 0
  {
    hide BitSet, Mul2, Add;
    AddLaws(0, 0, 0);
    var t5, t6, t7 := Mul2(t), Mul2(Mul2(t)), Mul2(Mul2(Mul2(t)));
    assert MulFrom(Mul2(t7), m, 8) == 0;
    assert MulFrom(t7, m, 7) == 0;
    assert MulFrom(t6, m, 6) == 0;
    assert MulFrom(t5, m, 5) == 0;
  }

  /** What the loop computes for the constants of the inverse transformation. */
  lemma MulConstants(b: octet)
    ensures MulFrom(b, 0x09, 0) == Times9(b) && MulFrom(b, 0x0B, 0) == TimesB(b)
    ensures MulFrom(b, 0x0D, 0) == TimesD(b) && MulFrom(b, 0x0E, 0) == TimesE(b)
  {
    hide Mul2, Add, MulFrom, LowBits;
    var t1, t2, t3 := Mul2(b), Mul2(Mul2(b)), Mul2(Mul2(Mul2(b)));
    ConstantBits();
    MulLow(b, 0x09, true, false, false, true);
    MulLow(b, 0x0B, true, true, false, true);
    MulLow(b, 0x0D, true, false, true, true);
    MulLow(b, 0x0E, false, true, true, true);
    AddLaws(t3, 0, 0);
    AddLaws(Add(t2, t3), 0, 0);
    Rotate(b, t1, t3);
    Rotate(b, t2, t3);
    Rotate(t1, t2, t3);
    AddLaws(Add(t1, Add(t2, t3)), 0, 0);
    AddLaws(b, t3, 0);
  }

  lemma Rotate(a: octet, b: octet, c: octet)
    ensures Add(a, Add(b, c)) == Add(c, Add(b, a))
  {
  }

  // Columns

  function Sum4(x: octet, y: octet, z: octet, w: octet): octet {
    Add(Add(Add(x, y), z), w)
  }

  function Times3(b: octet): octet { Add(Mul2(b), b) }

  /** One byte of a mixed column: a doubled, b tripled, c and d added. */
  function Mix(a: octet, b: octet, c: octet, d: octet): octet {
    Sum4(Mul2(a), Times3(b), c, d)
  }

  function InvMix(a: octet, b: octet, c: octet, d: octet): octet {
    Sum4(TimesE(a), TimesB(b), TimesD(c), Times9(d))
  }

  lemma Swap(p: octet, q: octet, r: octet, s: octet)
    ensures Add(Add(p, q), Add(r, s)) == Add(Add(p, r), Add(q, s))
  {
    assert (p ^ q) ^ (r ^ s) == (p ^ r) ^ (q ^ s);
  }

  lemma Sum4Rotate(x: octet, y: octet, z: octet, w: octet)
    ensures Sum4(x, y, z, w) == Sum4(w, x, y, z)
  {
    hide Add;
    AddLaws(Add(Add(x, y), z), w, 0);
    AddLaws(w, Add(x, y), z);
    AddLaws(w, x, y);
  }

  lemma Sum4Add(x: octet, y: octet, z: octet, w: octet, x': octet, y': octet, z': octet, w': octet)
    ensures Add(Sum4(x, y, z, w), Sum4(x', y', z', w')) == Sum4(Add(x, x'), Add(y, y'), Add(z, z'), Add(w, w'))
  {
    hide Add;
    Swap(Add(Add(x, y), z), w, Add(Add(x', y'), z'), w');
    Swap(Add(x, y), z, Add(x', y'), z');
    Swap(x, y, x', y');
  }

  lemma TimesLinear(p: octet, q: octet)
    ensures Times3(Add(p, q)) == Add(Times3(p), Times3(q))
    ensures Times9(Add(p, q)) == Add(Times9(p), Times9(q)) && TimesB(Add(p, q)) == Add(TimesB(p), TimesB(q))
    ensures TimesD(Add(p, q)) == Add(TimesD(p), TimesD(q)) && TimesE(Add(p, q)) == Add(TimesE(p), TimesE(q))
  {
    hide Mul2, Add;
    var p1, q1 := Mul2(p), Mul2(q);
    var p2, q2 := Mul2(p1), Mul2(q1);
    var p3, q3 := Mul2(p2), Mul2(q2);
    Mul2Linear(p, q);
    Mul2Linear(p1, q1);
    Mul2Linear(p2, q2);
    Swap(p1, q1, p, q);
    Swap(p3, q3, p, q);
    Swap(p2, q2, p, q);
    Swap(p2, q2, p1, q1);
    Swap(p3, q3, Add(p1, p), Add(q1, q));
    Swap(p3, q3, Add(p2, p), Add(q2, q));
    Swap(p3, q3, Add(p2, p1), Add(q2, q1));
  }

  lemma TimesSum4(x: octet, y: octet, z: octet, w: octet)
    ensures Times9(Sum4(x, y, z, w)) == Sum4(Times9(x), Times9(y), Times9(z), Times9(w))
    ensures TimesB(Sum4(x, y, z, w)) == Sum4(TimesB(x), TimesB(y), TimesB(z), TimesB(w))
    ensures TimesD(Sum4(x, y, z, w)) == Sum4(TimesD(x), TimesD(y), TimesD(z), TimesD(w))
    ensures TimesE(Sum4(x, y, z, w)) == Sum4(TimesE(x), TimesE(y), TimesE(z), TimesE(w))
  {
    hide Add, Times9, TimesB, TimesD, TimesE;
    TimesLinear(Add(Add(x, y), z), w);
    TimesLinear(Add(x, y), z);
    TimesLinear(x, y);
  }

  /** The products of the two matrices, row by row: one on the diagonal, zero elsewhere. */
  lemma Products(a: octet)
    ensures Sum4(TimesE(Mul2(a)), TimesB(a), TimesD(a), Times9(Times3(a))) == a
    ensures Sum4(TimesE(Times3(a)), TimesB(Mul2(a)), TimesD(a), Times9(a)) == 0
    ensures Sum4(TimesE(a), TimesB(Times3(a)), TimesD(Mul2(a)), Times9(a)) == 0
    ensures Sum4(TimesE(a), TimesB(a), TimesD(Times3(a)), Times9(Mul2(a))) == 0
  {
    hide Mul2, Add;
    var a1 := Mul2(a);
    var a2 := Mul2(a1);
    var a3 := Mul2(a2);
    TimesLinear(a1, a);
    Powers0(a, a1, a2, a3, Mul2(a3));
    Powers1(a, a1, a2, a3, Mul2(a3));
    Powers2(a, a1, a2, a3, Mul2(a3));
    Powers3(a, a1, a2, a3, Mul2(a3));
  }

  lemma Powers0(a: octet, a1: octet, a2: octet, a3: octet, a4: octet)
    ensures Sum4(Add(a4, Add(a3, a2)), Add(a3, Add(a1, a)), Add(a3, Add(a2, a)), Add(Add(a4, a1), Add(a3, a))) == a
  {
  }

  lemma Powers1(a: octet, a1: octet, a2: octet, a3: octet, a4: octet)
    ensures Sum4(Add(Add(a4, Add(a3, a2)), Add(a3, Add(a2, a1))), Add(a4, Add(a2, a1)), Add(a3, Add(a2, a)), Add(a3, a)) == 0
  {
  }

  lemma PairsCancel(x: octet, y: octet, z: octet, w: octet)
    requires Add(x, z) == Add(y, w)
    ensures Sum4(x, y, z, w) == 0
  {
  }

  lemma FirstPair(a1: octet, a2: octet, a3: octet, a4: octet)
    ensures Add(Add(a3, Add(a2, a1)), Add(a4, Add(a3, a1))) == Add(a4, a2)
  {
  }

  lemma Regroup(x: octet, y: octet, z: octet)
    ensures Add(x, Add(y, z)) == Add(Add(x, y), z) == Add(Add(x, z), y)
    ensures Add(Add(x, y), Add(z, y)) == Add(x, z) && Add(Add(x, y), y) == x
  {
    hide Add;
    AddLaws(x, y, z);
    AddLaws(x, z, y);
    AddLaws(y, z, y);
    AddLaws(y, y, z);
    AddLaws(z, y, y);
    AddLaws(x, y, y);
    AddLaws(x, y, Add(z, y));
    AddLaws(z, 0, 0);
  }

  lemma SecondPair(a: octet, a1: octet, a2: octet, a3: octet, a4: octet)
    ensures Add(Add(Add(a4, Add(a2, a1)), Add(a3, Add(a1, a))), Add(a3, a)) == Add(a4, a2)
  {
    hide Add;
    Regroup(a4, a2, a1);
    Regroup(a3, a1, a);
    Regroup(Add(a4, a2), a1, Add(a3, a));
    Regroup(Add(a4, a2), Add(a3, a), 0);
  }

  lemma Powers2(a: octet, a1: octet, a2: octet, a3: octet, a4: octet)
    ensures Sum4(Add(a3, Add(a2, a1)), Add(Add(a4, Add(a2, a1)), Add(a3, Add(a1, a))), Add(a4, Add(a3, a1)), Add(a3, a)) == 0
  {
    hide Add, Sum4;
    FirstPair(a1, a2, a3, a4);
    SecondPair(a, a1, a2, a3, a4);
    PairsCancel(Add(a3, Add(a2, a1)), Add(Add(a4, Add(a2, a1)), Add(a3, Add(a1, a))), Add(a4, Add(a3, a1)), Add(a3, a));
  }

  lemma Powers3(a: octet, a1: octet, a2: octet, a3: octet, a4: octet)
    ensures Sum4(Add(a3, Add(a2, a1)), Add(a3, Add(a1, a)), Add(Add(a4, Add(a3, a1)), Add(a3, Add(a2, a))), Add(a4, a1)) == 0
  {
  }

  /** The inverse mix of a mixed column gives back its first byte. */
  lemma MixInverse(a: octet, b: octet, c: octet, d: octet)
    ensures InvMix(Mix(a, b, c, d), Mix(b, c, d, a), Mix(c, d, a, b), Mix(d, a, b, c)) == a
  {
    hide Mul2, Add, Sum4, Times3, Times9, TimesB, TimesD, TimesE;
    TimesSum4(Mul2(a), Times3(b), c, d);
    TimesSum4(Mul2(b), Times3(c), d, a);
    TimesSum4(Mul2(c), Times3(d), a, b);
    TimesSum4(Mul2(d), Times3(a), b, c);
    Sum4Rotate(TimesB(Mul2(b)), TimesB(Times3(c)), TimesB(d), TimesB(a));
    Sum4Rotate(TimesD(Mul2(c)), TimesD(Times3(d)), TimesD(a), TimesD(b));
    Sum4Rotate(TimesD(b), TimesD(Mul2(c)), TimesD(Times3(d)), TimesD(a));
    Sum4Rotate(Times9(Times3(a)), Times9(b), Times9(c), Times9(Mul2(d)));
    Columns(TimesE(Mul2(a)), TimesE(Times3(b)), TimesE(c), TimesE(d),
            TimesB(a), TimesB(Mul2(b)), TimesB(Times3(c)), TimesB(d),
            TimesD(a), TimesD(b), TimesD(Mul2(c)), TimesD(Times3(d)),
            Times9(Times3(a)), Times9(b), Times9(c), Times9(Mul2(d)));
    Products(a);
    Products(b);
    Products(c);
    Products(d);
    Alone(a);
  }

  lemma Alone(a: octet)
    ensures Sum4(a, 0, 0, 0) == a
  {
  }

  /** Sums by rows and by columns agree. */
  lemma Columns(a0: octet, b0: octet, c0: octet, d0: octet, a1: octet, b1: octet, c1: octet, d1: octet,
                a2: octet, b2: octet, c2: octet, d2: octet, a3: octet, b3: octet, c3: octet, d3: octet)
    ensures Sum4(Sum4(a0, b0, c0, d0), Sum4(a1, b1, c1, d1), Sum4(a2, b2, c2, d2), Sum4(a3, b3, c3, d3))
         == Sum4(Sum4(a0, a1, a2, a3), Sum4(b0, b1, b2, b3), Sum4(c0, c1, c2, c3), Sum4(d0, d1, d2, d3))
  {
    hide Add;
    Sum4Add(a0, b0, c0, d0, a1, b1, c1, d1);
    Sum4Add(Add(a0, a1), Add(b0, b1), Add(c0, c1), Add(d0, d1), a2, b2, c2, d2);
    Sum4Add(Add(Add(a0, a1), a2), Add(Add(b0, b1), b2), Add(Add(c0, c1), c2), Add(Add(d0, d1), d2), a3, b3, c3, d3);
  }
}

