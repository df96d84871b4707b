/**
 The field GF(2^8) of section 4 of FIPS 197, and the multiplier macros
 from which aes.c builds its lookup tables.
 */
module GaloisField {
  import opened Bytes

  // ---------- the field of the standard ----------

  /** Multiplication by x modulo x^8 + x^4 + x^3 + x + 1 (section 4.2.1). */
  function XTime(x: Byte): Byte {
    Byte(if x.v & 0x80 == 0 then x.v << 1 else (x.v << 1) ^ 0x1b)
  }

  predicate Odd(b: Byte) {
    b.v & 1 == 1
  }

  function Half(b: Byte): (h: Byte)
    ensures h.v < b.v || b == Byte(0)
  {
    Byte(b.v >> 1)
  }

  /** The product of two field elements (section 4.2): the sum of x^i times `x` over the bits i of `b`. */
  function Times(x: Byte, b: Byte): Byte
    decreases b.v
  {
    if b == Byte(0) then Byte(0)
    else Xor(if Odd(b) then x else Byte(0), Times(XTime(x), Half(b)))
  }

  // ---------- the macros of aes.c ----------

  const WPOLY: bv16 := 0x011b

  /** The macros compute on `int`; storing the value in a table of bytes keeps the low eight bits. */
  function Low8(w: bv16): Byte {
    Byte((w & 0xff) as bv8)
  }

  function F2(x: Byte): Byte {
    var w := x.v as bv16;
    Low8((w << 1) ^ (((w >> 7) & 1) * WPOLY))
  }

  function F4(x: Byte): Byte {
    var w := x.v as bv16;
    Low8((w << 2) ^ (((w >> 6) & 1) * WPOLY) ^ (((w >> 6) & 2) * WPOLY))
  }

  function F8(x: Byte): Byte {
    var w := x.v as bv16;
    Low8((w << 3) ^ (((w >> 5) & 1) * WPOLY) ^ (((w >> 5) & 2) * WPOLY) ^ (((w >> 5) & 4) * WPOLY))
  }

  function F3(x: Byte): Byte { Xor(F2(x), x) }
  function F9(x: Byte): Byte { Xor(F8(x), x) }
  function FB(x: Byte): Byte { Xor(Xor(F8(x), F2(x)), x) }
  function FD(x: Byte): Byte { Xor(Xor(F8(x), F4(x)), x) }
  function FE(x: Byte): Byte { Xor(Xor(F8(x), F4(x)), F2(x)) }

  lemma F2IsXTime(x: Byte)
    ensures F2(x) == XTime(x)
  {
  }

  lemma F4IsXTime(x: Byte)
    ensures F4(x) == XTime(XTime(x))
  {
  }

  lemma F8IsXTime(x: Byte)
    ensures F8(x) == XTime(XTime(XTime(x)))
  {
  }

  lemma F2Linear(x: Byte, y: Byte)
    ensures F2(Xor(x, y)) == Xor(F2(x), F2(y))
  {
  }

  lemma XTimeLinear(x: Byte, y: Byte)
    ensures XTime(Xor(x, y)) == Xor(XTime(x), XTime(y))
  {
    hide *;
    F2IsXTime(x);
    F2IsXTime(y);
    F2IsXTime(Xor(x, y));
    F2Linear(x, y);
  }

  lemma HalfXor(b: Byte, c: Byte)
    ensures Half(Xor(b, c)) == Xor(Half(b), Half(c)) && (Odd(Xor(b, c)) <==> Odd(b) != Odd(c))
    ensures Half(b).v | Half(c).v < b.v | c.v || (b == c == Byte(0))
  {
  }

  lemma TimesUnfolds(x: Byte, b: Byte)
    ensures Times(x, b) == Xor(if Odd(b) then x else Byte(0), Times(XTime(x), Half(b)))
  {
    hide XTime;
  }

  lemma TimesZero(x: Byte)
    ensures Times(x, Byte(0)) == Byte(0)
  {
  }

  lemma {:induction false} TimesAdds(x: Byte, b: Byte, c: Byte)
    ensures Times(x, Xor(b, c)) == Xor(Times(x, b), Times(x, c))
    decreases b.v | c.v
  {
    hide *;
    if b == c == Byte(0) {
      XorZero(Byte(0));
      TimesZero(x);
    } else {
      HalfXor(b, c);
      TimesAdds(XTime(x), Half(b), Half(c));
      TimesUnfolds(x, b);
      TimesUnfolds(x, c);
      TimesUnfolds(x, Xor(b, c));
      var (l, m) := (if Odd(b) then x else Byte(0), if Odd(c) then x else Byte(0));
      XorExchanges(l, Times(XTime(x), Half(b)), m, Times(XTime(x), Half(c)));
      XorZero(x);
      XorZero(Byte(0));
    }
  }

  lemma TimesTwo(x: Byte, b: Byte)
    requires b.v < 0x80
    ensures Times(x, Byte(b.v << 1)) == Times(XTime(x), b)
  {
    hide *;
    DoubleHalves(b);
    TimesUnfolds(x, Byte(b.v << 1));
    XorZero(Times(XTime(x), b));
  }

  lemma DoubleHalves(b: Byte)
    requires b.v < 0x80
    ensures !Odd(Byte(b.v << 1)) && Half(Byte(b.v << 1)) == b
  {
  }

  lemma TimesOne(x: Byte)
    ensures Times(x, Byte(1)) == x
  {
    hide *;
    TimesUnfolds(x, Byte(1));
    OneHalves();
    TimesZero(XTime(x));
    XorZero(x);
  }

  lemma OneHalves()
    ensures Odd(Byte(1)) && Half(Byte(1)) == Byte(0)
  {
  }

  lemma TimesPowers(x: Byte)
    ensures Times(x, Byte(1)) == x && Times(x, Byte(2)) == XTime(x)
    ensures Times(x, Byte(4)) == XTime(XTime(x)) && Times(x, Byte(8)) == XTime(XTime(XTime(x)))
  {
    hide *;
    TimesOne(x);
    TimesOne(XTime(x));
    TimesOne(XTime(XTime(x)));
    TimesOne(XTime(XTime(XTime(x))));
    TimesTwo(x, Byte(1));
    TimesTwo(x, Byte(2));
    TimesTwo(XTime(x), Byte(1));
    TimesTwo(x, Byte(4));
    TimesTwo(XTime(x), Byte(2));
    TimesTwo(XTime(XTime(x)), Byte(1));
  }

  /** The macros f2, f3, f9, fb, fd and fe multiply by the constants in their names. */
  lemma MacrosMultiply(x: Byte)
    ensures F2(x) == Times(x, Byte(0x2)) && F3(x) == Times(x, Byte(0x3))
    ensures F4(x) == Times(x, Byte(0x4)) && F8(x) == Times(x, Byte(0x8))
    ensures F9(x) == Times(x, Byte(0x9)) && FB(x) == Times(x, Byte(0xb))
    ensures FD(x) == Times(x, Byte(0xd)) && FE(x) == Times(x, Byte(0xe))
  {
    hide F2, F4, F8, XTime, Times;
    F2IsXTime(x);
    F4IsXTime(x);
    F8IsXTime(x);
    TimesPowers(x);
    TimesAdds(x, Byte(2), Byte(1));
    TimesAdds(x, Byte(8), Byte(1));
    TimesAdds(x, Byte(8), Byte(2));
    TimesAdds(x, Byte(8), Byte(4));
    TimesAdds(x, Byte(0xa), Byte(1));
    TimesAdds(x, Byte(0xc), Byte(1));
    TimesAdds(x, Byte(0xc), Byte(2));
  }

  lemma {:induction false} TimesCommutesWithXTime(x: Byte, b: Byte)
    ensures Times(XTime(x), b) == XTime(Times(x, b))
    decreases b.v
  {
    hide *;
    XTimeZero();
    if b == Byte(0) {
      TimesZero(x);
      TimesZero(XTime(x));
    } else {
      TimesCommutesWithXTime(XTime(x), Half(b));
      TimesUnfolds(x, b);
      TimesUnfolds(XTime(x), b);
      XTimeLinear(if Odd(b) then x else Byte(0), Times(XTime(x), Half(b)));
    }
  }

  lemma XTimeZero()
    ensures XTime(Byte(0)) == Byte(0)
  {
  }

  // ---------- rows of the MixColumns matrices ----------

  function Sum4(a: Byte, b: Byte, c: Byte, d: Byte): Byte {
    Xor(Xor(Xor(a, b), c), d)
  }

  function MixRow(a: Byte, b: Byte, c: Byte, d: Byte): Byte {
    Sum4(F2(a), F3(b), c, d)
  }

  function InvMixRow(a: Byte, b: Byte, c: Byte, d: Byte): Byte {
    Sum4(FE(a), FB(b), FD(c), F9(d))
  }

  /** Four field elements: a column of the state, or the coefficients of a linear form on columns. */
  datatype Column = Column(a: Byte, b: Byte, c: Byte, d: Byte)

  function Add(k: Column, l: Column): Column {
    Column(Xor(k.a, l.a), Xor(k.b, l.b), Xor(k.c, l.c), Xor(k.d, l.d))
  }

  function Double(k: Column): Column {
    Column(Byte(k.a.v << 1), Byte(k.b.v << 1), Byte(k.c.v << 1), Byte(k.d.v << 1))
  }

  function Dot(k: Column, v: Column): Byte {
    Sum4(Times(v.a, k.a), Times(v.b, k.b), Times(v.c, k.c), Times(v.d, k.d))
  }

  predicate Small(k: Column) {
    k.a.v < 0x80 && k.b.v < 0x80 && k.c.v < 0x80 && k.d.v < 0x80
  }

  lemma DotAdds(k: Column, l: Column, v: Column)
    ensures Xor(Dot(k, v), Dot(l, v)) == Dot(Add(k, l), v)
  {
    hide Xor, Times;
    TimesAdds(v.a, k.a, l.a);
    TimesAdds(v.b, k.b, l.b);
    TimesAdds(v.c, k.c, l.c);
    TimesAdds(v.d, k.d, l.d);
    var (ka, kb, kc, kd) := (Times(v.a, k.a), Times(v.b, k.b), Times(v.c, k.c), Times(v.d, k.d));
    var (la, lb, lc, ld) := (Times(v.a, l.a), Times(v.b, l.b), Times(v.c, l.c), Times(v.d, l.d));
    XorExchanges(ka, la, kb, lb);
    XorExchanges(Xor(ka, kb), Xor(la, lb), kc, lc);
    XorExchanges(Xor(Xor(ka, kb), kc), Xor(Xor(la, lb), lc), kd, ld);
  }

  lemma DotDoubles(k: Column, v: Column)
    requires Small(k)
    ensures XTime(Dot(k, v)) == Dot(Double(k), v)
  {
    hide Xor, Times, XTime;
    TimesTwo(v.a, k.a);
    TimesTwo(v.b, k.b);
    TimesTwo(v.c, k.c);
    TimesTwo(v.d, k.d);
    TimesCommutesWithXTime(v.a, k.a);
    TimesCommutesWithXTime(v.b, k.b);
    TimesCommutesWithXTime(v.c, k.c);
    TimesCommutesWithXTime(v.d, k.d);
    var (a, b, c, d) := (Times(v.a, k.a), Times(v.b, k.b), Times(v.c, k.c), Times(v.d, k.d));
    XTimeLinear(a, b);
    XTimeLinear(Xor(a, b), c);
    XTimeLinear(Xor(Xor(a, b), c), d);
  }

  /** The multipliers of the inverse matrix, applied to a linear form with small coefficients. */
  lemma MacrosOnDot(k: Column, v: Column)
    requires k.a.v < 0x10 && k.b.v < 0x10 && k.c.v < 0x10 && k.d.v < 0x10
    ensures var (k2, k4, k8) := (Double(k), Double(Double(k)), Double(Double(Double(k))));
            && F2(Dot(k, v)) == Dot(k2, v)
            && F3(Dot(k, v)) == Dot(Add(k2, k), v)
            && F9(Dot(k, v)) == Dot(Add(k8, k), v)
            && FB(Dot(k, v)) == Dot(Add(Add(k8, k2), k), v)
            && FD(Dot(k, v)) == Dot(Add(Add(k8, k4), k), v)
            && FE(Dot(k, v)) == Dot(Add(Add(k8, k4), k2), v)
  {
    var (k2, k4, k8) := (Double(k), Double(Double(k)), Double(Double(Double(k))));
    assert Small(k) && Small(k2) && Small(k4);
    hide Xor, Times, XTime, F2, F4, F8, Dot, Double, Add;
    F2IsXTime(Dot(k, v));
    F4IsXTime(Dot(k, v));
    F8IsXTime(Dot(k, v));
    DotDoubles(k, v);
    DotDoubles(k2, v);
    DotDoubles(k4, v);
    DotAdds(k2, k, v);
    DotAdds(k8, k, v);
    DotAdds(k8, k2, v);
    DotAdds(k8, k4, v);
    DotAdds(Add(k8, k2), k, v);
    DotAdds(Add(k8, k4), k, v);
    DotAdds(Add(k8, k4), k2, v);
  }

  lemma Sum4Rotates(a: Byte, b: Byte, c: Byte, d: Byte)
    ensures Sum4(a, b, c, d) == Sum4(b, c, d, a)
  {
    hide Xor;
    XorRegroups(a, b, c);
    XorRegroups(a, Xor(b, c), d);
    XorCommutes(a, Xor(Xor(b, c), d));
  }

  lemma UnitForm(v: Column)
    ensures Dot(Column(Byte(1), Byte(0), Byte(0), Byte(0)), v) == v.a
  {
    hide Xor;
    XorZero(v.a);
    TimesPowers(v.a);
  }

  lemma DotSum4(k: Column, l: Column, m: Column, n: Column, v: Column)
    ensures Sum4(Dot(k, v), Dot(l, v), Dot(m, v), Dot(n, v)) == Dot(Add(Add(Add(k, l), m), n), v)
  {
    hide Xor, Dot, Add;
    DotAdds(k, l, v);
    DotAdds(Add(k, l), m, v);
    DotAdds(Add(Add(k, l), m), n, v);
  }

  lemma MixRowIsDot(a: Byte, b: Byte, c: Byte, d: Byte)
    ensures MixRow(a, b, c, d) == Dot(Column(Byte(2), Byte(3), Byte(1), Byte(1)), Column(a, b, c, d))
  {
    hide Xor, F2, F3, Times, Sum4;
    MacrosMultiply(a);
    MacrosMultiply(b);
    TimesPowers(c);
    TimesPowers(d);
  }

  lemma InvMixRowIsDot(a: Byte, b: Byte, c: Byte, d: Byte)
    ensures InvMixRow(a, b, c, d) == Dot(Column(Byte(0xe), Byte(0xb), Byte(0xd), Byte(9)), Column(a, b, c, d))
  {
    hide Xor, F9, FB, FD, FE, Times, Sum4;
    MacrosMultiply(a);
    MacrosMultiply(b);
    MacrosMultiply(c);
    MacrosMultiply(d);
  }

  function Rotate(k: Column): Column {
    Column(k.b, k.c, k.d, k.a)
  }

  lemma DotRotates(k: Column, v: Column)
    ensures Dot(Rotate(k), Rotate(v)) == Dot(k, v)
  {
    hide Xor, Times, Sum4;
    Sum4Rotates(Times(v.a, k.a), Times(v.b, k.b), Times(v.c, k.c), Times(v.d, k.d));
  }

  /** The four rows of a circulant matrix with first row `k`, as linear forms on the same column. */
  lemma RowsOfCirculant(k: Column, v: Column)
    ensures var r := Rotate;
            && Dot(k, r(v)) == Dot(r(r(r(k))), v)
            && Dot(k, r(r(v))) == Dot(r(r(k)), v)
            && Dot(k, r(r(r(v)))) == Dot(r(k), v)
  {
    hide Dot;
    DotRotates(Rotate(Rotate(Rotate(k))), v);
    DotRotates(Rotate(Rotate(Rotate(k))), Rotate(v));
    DotRotates(Rotate(Rotate(k)), v);
    DotRotates(Rotate(Rotate(Rotate(k))), Rotate(Rotate(v)));
    DotRotates(Rotate(Rotate(k)), Rotate(v));
    DotRotates(Rotate(k), v);
  }

  /** The inverse matrix undoes the MixColumns matrix on every column. */
  lemma InvMixRowOfMixRow(a: Byte, b: Byte, c: Byte, d: Byte)
    ensures InvMixRow(MixRow(a, b, c, d), MixRow(b, c, d, a), MixRow(c, d, a, b), MixRow(d, a, b, c)) == a
  {
    var v := Column(a, b, c, d);
    var (k0, k1, k2, k3) :=
      (Column(Byte(2), Byte(3), Byte(1), Byte(1)), Column(Byte(1), Byte(2), Byte(3), Byte(1)),
       Column(Byte(1), Byte(1), Byte(2), Byte(3)), Column(Byte(3), Byte(1), Byte(1), Byte(2)));
    var e0 := Add(Add(Double(Double(Double(k0))), Double(Double(k0))), Double(k0));
    var e1 := Add(Add(Double(Double(Double(k1))), Double(k1)), k1);
    var e2 := Add(Add(Double(Double(Double(k2))), Double(Double(k2))), k2);
    var e3 := Add(Double(Double(Double(k3))), k3);
    assert Add(Add(Add(e0, e1), e2), e3) == Column(Byte(1), Byte(0), Byte(0), Byte(0));
    hide Xor, F9, FB, FD, FE, Dot, MixRow, Sum4, Add, Double;
    MixRowIsDot(a, b, c, d);
    MixRowIsDot(b, c, d, a);
    MixRowIsDot(c, d, a, b);
    MixRowIsDot(d, a, b, c);
    RowsOfCirculant(k0, v);
    MacrosOnDot(k0, v);
    MacrosOnDot(k1, v);
    MacrosOnDot(k2, v);
    MacrosOnDot(k3, v);
    DotSum4(e0, e1, e2, e3, v);
    UnitForm(v);
  }

  /** ... and the MixColumns matrix undoes the inverse matrix. */
  lemma MixRowOfInvMixRow(a: Byte, b: Byte, c: Byte, d: Byte)
    ensures MixRow(InvMixRow(a, b, c, d), InvMixRow(b, c, d, a), InvMixRow(c, d, a, b), InvMixRow(d, a, b, c)) == a
  {
    var v := Column(a, b, c, d);
    var (k0, k1, k2, k3) :=
      (Column(Byte(0xe), Byte(0xb), Byte(0xd), Byte(9)), Column(Byte(9), Byte(0xe), Byte(0xb), Byte(0xd)),
       Column(Byte(0xd), Byte(9), Byte(0xe), Byte(0xb)), Column(Byte(0xb), Byte(0xd), Byte(9), Byte(0xe)));
    var (e0, e1) := (Double(k0), Add(Double(k1), k1));
    assert Add(Add(Add(e0, e1), k2), k3) == Column(Byte(1), Byte(0), Byte(0), Byte(0));
    hide Xor, F2, F3, Dot, InvMixRow, Sum4, Add, Double;
    InvMixRowIsDot(a, b, c, d);
    InvMixRowIsDot(b, c, d, a);
    InvMixRowIsDot(c, d, a, b);
    InvMixRowIsDot(d, a, b, c);
    RowsOfCirculant(k0, v);
    MacrosOnDot(k0, v);
    MacrosOnDot(k1, v);
    DotSum4(e0, e1, k2, k3, v);
    UnitForm(v);
  }
}
