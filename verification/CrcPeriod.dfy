/**
 tools/payload_crc.c again: which errors of two bits the CRC detects. This depends on the period of x, that is, on the
 number of division steps after which the register 1 comes back. The generator is x + 1 times a polynomial of degree
 15 modulo which x has the period 2^15 - 1 = 7 * 31 * 151.
 */
module CrcPeriod {
  import opened BitStrings
  import opened PayloadCrc

  const PERIOD := 32767

  /** One step without a new bit multiplies by x. */
  function TimesX(r: bv16): bv16 {
    StepOne(r, 0)
  }

  lemma TimesXDivides(r: bv16)
    ensures TimesX(r) == DivisionStep(r, false)
  {
    StepOneDivides(r, false);
    assert One(false) == 0;
    hide StepOne, DivisionStep;
  }

  function Shifted(r: bv16, n: nat): bv16 {
    if n == 0 then r else TimesX(Shifted(r, n - 1))
  }

  /** x to the power n, modulo the generator. */
  function Power(n: nat): bv16 {
    Shifted(1, n)
  }

  lemma TimesXAdds(r: bv16, s: bv16)
    ensures TimesX(Plus(r, s)) == Plus(TimesX(r), TimesX(s))
  {
    StepLinear(r, s, false, false);
    hide DivisionStep, Plus, TimesX;
    TimesXDivides(r);
    TimesXDivides(s);
    TimesXDivides(Plus(r, s));
  }

  lemma {:induction false} ShiftedAdds(r: bv16, s: bv16, n: nat)
    ensures Shifted(Plus(r, s), n) == Plus(Shifted(r, n), Shifted(s, n))
  {
    hide TimesX, Plus;
    if n > 0 {
      ShiftedAdds(r, s, n - 1);
      TimesXAdds(Shifted(r, n - 1), Shifted(s, n - 1));
    }
  }

  lemma {:induction false} ShiftedTwice(r: bv16, m: nat, n: nat)
    ensures Shifted(r, m + n) == Shifted(Shifted(r, m), n)
  {
    hide TimesX;
    if n > 0 {
      ShiftedTwice(r, m, n - 1);
    }
  }

  lemma {:induction false} NothingShifted(n: nat)
    ensures Shifted(0, n) == 0
  {
    if n > 0 {
      NothingShifted(n - 1);
    }
  }

  // ---------- multiplication of powers ----------

  /** One step of Horner's scheme: multiply by x and add `b` or nothing. */
  function Horner(h: bv16, b: bv16, bit: bv16): bv16 {
    var top := h >> 15;
    (h << 1) ^ top ^ (top << 5) ^ (top << 12) ^ (b & (0 - (bit & 1)))
  }

  lemma HornerIs(h: bv16, b: bv16, bit: bv16)
    ensures Horner(h, b, bit) == Plus(TimesX(h), if bit & 1 == 1 then b else 0)
  {
  }

  function HornerFour(h: bv16, b: bv16, bits: bv16): bv16 {
    Horner(Horner(Horner(Horner(h, b, bits >> 3), b, bits >> 2), b, bits >> 1), b, bits)
  }

  /** The product of two registers modulo the generator. */
  function Times(a: bv16, b: bv16): bv16 {
    HornerFour(HornerFour(HornerFour(HornerFour(0, b, a >> 12), b, a >> 8), b, a >> 4), b, a)
  }

  lemma HornerShifted(h: bv16, b: bv16, bit: bv16, n: nat)
    ensures Shifted(Horner(h, b, bit), n) == Horner(Shifted(h, n), Shifted(b, n), bit)
  {
    hide TimesX, Plus, Shifted, Horner;
    HornerIs(h, b, bit);
    HornerIs(Shifted(h, n), Shifted(b, n), bit);
    ShiftedAdds(TimesX(h), if bit & 1 == 1 then b else 0, n);
    XCommutes(h, n);
    NothingShifted(n);
  }

  lemma {:induction false} XCommutes(h: bv16, n: nat)
    ensures Shifted(TimesX(h), n) == TimesX(Shifted(h, n))
  {
    hide TimesX;
    if n > 0 {
      XCommutes(h, n - 1);
    }
  }

  lemma HornerFourShifted(h: bv16, b: bv16, bits: bv16, n: nat)
    ensures Shifted(HornerFour(h, b, bits), n) == HornerFour(Shifted(h, n), Shifted(b, n), bits)
  {
    hide Horner, Shifted;
    var h3 := Horner(h, b, bits >> 3);
    var h2 := Horner(h3, b, bits >> 2);
    var h1 := Horner(h2, b, bits >> 1);
    HornerShifted(h, b, bits >> 3, n);
    HornerShifted(h3, b, bits >> 2, n);
    HornerShifted(h2, b, bits >> 1, n);
    HornerShifted(h1, b, bits, n);
  }

  lemma TimesShifted(a: bv16, b: bv16, n: nat)
    ensures Shifted(Times(a, b), n) == Times(a, Shifted(b, n))
  {
    hide HornerFour, Shifted;
    var h3 := HornerFour(0, b, a >> 12);
    var h2 := HornerFour(h3, b, a >> 8);
    var h1 := HornerFour(h2, b, a >> 4);
    NothingShifted(n);
    HornerFourShifted(0, b, a >> 12, n);
    HornerFourShifted(h3, b, a >> 8, n);
    HornerFourShifted(h2, b, a >> 4, n);
    HornerFourShifted(h1, b, a, n);
  }

  lemma FourBits(h: bv16, bits: bv16)
    requires h == bits >> 4
    ensures HornerFour(h, 1, bits) == bits
  {
  }

  lemma Quarters(a: bv16)
    ensures 0 == (a >> 12) >> 4 && a >> 12 == (a >> 8) >> 4 && a >> 8 == (a >> 4) >> 4
  {
  }

  /** A register is the sum of the powers of x that its bits stand for. */
  lemma TimesOne(a: bv16)
    ensures Times(a, 1) == a
  {
    Quarters(a);
    hide HornerFour;
    FourBits(0, a >> 12);
    FourBits(a >> 12, a >> 8);
    FourBits(a >> 8, a >> 4);
    FourBits(a >> 4, a);
  }

  lemma PowersMultiply(m: nat, n: nat)
    ensures Power(m + n) == Times(Power(m), Power(n))
  {
    hide Times, Shifted;
    ShiftedTwice(1, m, n);
    TimesOne(Power(m));
    TimesShifted(Power(m), 1, n);
  }

  /** From the power n to the powers 2n and 2n + 1. */
  lemma NextPower(n: nat, v: bv16, w: bv16, odd: bool)
    requires Power(n) == v && w == (if odd then TimesX(Times(v, v)) else Times(v, v))
    ensures Power(2 * n + if odd then 1 else 0) == w
  {
    PowersMultiply(n, n);
    hide Times, TimesX;
    assert Shifted(1, 2 * n + 1) == TimesX(Shifted(1, 2 * n));
  }

  lemma FirstPowers()
    ensures Power(1) == 2
  {
    assert TimesX(1) == 2;
    hide TimesX;
    assert Shifted(1, 0) == 1;
  }

  // ---------- four powers ----------

  lemma Squares217()
    ensures TimesX(Times(0x2, 0x2)) == 0x8 && Times(0x8, 0x8) == 0x40 && TimesX(Times(0x40, 0x40)) == 0x2000
    ensures TimesX(Times(0x2000, 0x2000)) == 0x89a9 && Times(0x89a9, 0x89a9) == 0x1168
            && Times(0x1168, 0x1168) == 0x3750
    ensures TimesX(Times(0x3750, 0x3750)) == 0x48e3
  {
  }

  lemma Squares1057()
    ensures Times(0x2, 0x2) == 0x4 && Times(0x4, 0x4) == 0x10 && Times(0x10, 0x10) == 0x100
    ensures Times(0x100, 0x100) == 0x1021 && TimesX(Times(0x1021, 0x1021)) == 0x6e60 && Times(0x6e60, 0x6e60) == 0xc1c6
    ensures Times(0xc1c6, 0xc1c6) == 0x4e8a && Times(0x4e8a, 0x4e8a) == 0x5946 && Times(0x5946, 0x5946) == 0x78b3
    ensures TimesX(Times(0x78b3, 0x78b3)) == 0xf2af
  {
  }

  lemma Squares4681()
    ensures Times(0x2, 0x2) == 0x4 && Times(0x4, 0x4) == 0x10 && TimesX(Times(0x10, 0x10)) == 0x200
    ensures Times(0x200, 0x200) == 0x4084 && Times(0x4084, 0x4084) == 0x4363 && TimesX(Times(0x4363, 0x4363)) == 0x8fa6
    ensures Times(0x8fa6, 0x8fa6) == 0x4388 && Times(0x4388, 0x4388) == 0x1396
            && TimesX(Times(0x1396, 0x1396)) == 0x4500
    ensures Times(0x4500, 0x4500) == 0x163 && Times(0x163, 0x163) == 0x424 && TimesX(Times(0x424, 0x424)) == 0x2c42
  {
  }

  lemma Squares255()
    ensures TimesX(Times(0x2, 0x2)) == 0x8 && TimesX(Times(0x8, 0x8)) == 0x80 && TimesX(Times(0x80, 0x80)) == 0x8000
    ensures TimesX(Times(0x8000, 0x8000)) == 0x1b98 && TimesX(Times(0x1b98, 0x1b98)) == 0xd420
            && TimesX(Times(0xd420, 0xd420)) == 0x577e
    ensures TimesX(Times(0x577e, 0x577e)) == 0xcf04
  {
  }

  lemma Squares32767()
    ensures TimesX(Times(0xcf04, 0xcf04)) == 0x9fe && TimesX(Times(0x9fe, 0x9fe)) == 0x1b62
            && TimesX(Times(0x1b62, 0x1b62)) == 0x7ea8
    ensures TimesX(Times(0x7ea8, 0x7ea8)) == 0x554f && TimesX(Times(0x554f, 0x554f)) == 0x440e
            && TimesX(Times(0x440e, 0x440e)) == 0x222c
    ensures TimesX(Times(0x222c, 0x222c)) == 0x1
  {
  }

  lemma Power217()
    ensures Power(217) == 0x48e3
  {
    hide Power, Times, TimesX;
    FirstPowers();
    Squares217();
    NextPower(1, 0x2, 0x8, true);
    NextPower(3, 0x8, 0x40, false);
    NextPower(6, 0x40, 0x2000, true);
    NextPower(13, 0x2000, 0x89a9, true);
    NextPower(27, 0x89a9, 0x1168, false);
    NextPower(54, 0x1168, 0x3750, false);
    NextPower(108, 0x3750, 0x48e3, true);
  }

  lemma Power1057()
    ensures Power(1057) == 0xf2af
  {
    hide Power, Times, TimesX;
    FirstPowers();
    Squares1057();
    NextPower(1, 0x2, 0x4, false);
    NextPower(2, 0x4, 0x10, false);
    NextPower(4, 0x10, 0x100, false);
    NextPower(8, 0x100, 0x1021, false);
    NextPower(16, 0x1021, 0x6e60, true);
    NextPower(33, 0x6e60, 0xc1c6, false);
    NextPower(66, 0xc1c6, 0x4e8a, false);
    NextPower(132, 0x4e8a, 0x5946, false);
    NextPower(264, 0x5946, 0x78b3, false);
    NextPower(528, 0x78b3, 0xf2af, true);
  }

  lemma Power4681()
    ensures Power(4681) == 0x2c42
  {
    hide Power, Times, TimesX;
    FirstPowers();
    Squares4681();
    NextPower(1, 0x2, 0x4, false);
    NextPower(2, 0x4, 0x10, false);
    NextPower(4, 0x10, 0x200, true);
    NextPower(9, 0x200, 0x4084, false);
    NextPower(18, 0x4084, 0x4363, false);
    NextPower(36, 0x4363, 0x8fa6, true);
    NextPower(73, 0x8fa6, 0x4388, false);
    NextPower(146, 0x4388, 0x1396, false);
    NextPower(292, 0x1396, 0x4500, true);
    NextPower(585, 0x4500, 0x163, false);
    NextPower(1170, 0x163, 0x424, false);
    NextPower(2340, 0x424, 0x2c42, true);
  }

  lemma Power255()
    ensures Power(255) == 0xcf04
  {
    hide Power, Times, TimesX;
    FirstPowers();
    Squares255();
    NextPower(1, 0x2, 0x8, true);
    NextPower(3, 0x8, 0x80, true);
    NextPower(7, 0x80, 0x8000, true);
    NextPower(15, 0x8000, 0x1b98, true);
    NextPower(31, 0x1b98, 0xd420, true);
    NextPower(63, 0xd420, 0x577e, true);
    NextPower(127, 0x577e, 0xcf04, true);
  }

  lemma Power32767()
    ensures Power(32767) == 0x1
  {
    hide Power, Times, TimesX;
    Power255();
    Squares32767();
    NextPower(255, 0xcf04, 0x9fe, true);
    NextPower(511, 0x9fe, 0x1b62, true);
    NextPower(1023, 0x1b62, 0x7ea8, true);
    NextPower(2047, 0x7ea8, 0x554f, true);
    NextPower(4095, 0x554f, 0x440e, true);
    NextPower(8191, 0x440e, 0x222c, true);
    NextPower(16383, 0x222c, 0x1, true);
  }

  // ---------- the period ----------

  /** After `n` steps the register 1 is back. */
  predicate Returns(n: nat) {
    Power(n) == 1
  }

  lemma ReturnsLater(m: nat, n: nat)
    requires Returns(m)
    ensures Returns(m + n) <==> Returns(n)
  {
    ShiftedTwice(1, m, n);
    hide Shifted;
  }

  lemma {:induction false} MultipleReturns(m: nat, k: nat)
    requires Returns(m)
    ensures Returns(m * k)
  {
    if k == 0 {
      assert Shifted(1, 0) == 1;
    } else {
      hide Returns;
      MultipleReturns(m, k - 1);
      OneMultipleMore(m, k - 1);
      ReturnsLater(m, m * (k - 1));
    }
  }

  lemma OneMultipleMore(m: nat, k: nat)
    ensures m * (k + 1) == m + m * k
  {
  }

  lemma Divided(a: nat, b: nat, g: nat)
    requires g > 0 && a % g == 0 && b % g == 0
    ensures (a + b) % g == 0
  {
    var (x, y) := (a / g, b / g);
    assert a + b == g * (x + y);
    Multiple(g, x + y);
  }

  lemma Multiple(g: nat, x: nat)
    requires g > 0
    ensures (g * x) % g == 0
  {
    var (q, r) := (g * x / g, (g * x) % g);
    assert g * (x - q) == r;
    if x > q {
      AtLeast(g, x - q);
    } else if x < q {
      AtLeast(g, q - x);
    }
  }

  lemma AtLeast(g: nat, k: nat)
    requires k >= 1
    ensures g * k >= g
  {
  }

  /** Euclid's algorithm: the register is back after the greatest common divisor of two returns. */
  lemma {:induction false} CommonReturn(c: nat, s: nat, t: nat) returns (g: nat)
    requires s > 0 && t > 0 && Returns(c * s) && Returns(c * t)
    ensures g > 0 && s % g == 0 && t % g == 0 && Returns(c * g)
    decreases s + t
  {
    hide Returns;
    if s == t {
      g := s;
    } else if s < t {
      assert c * t == c * s + c * (t - s);
      ReturnsLater(c * s, c * (t - s));
      g := CommonReturn(c, s, t - s);
      Divided(s, t - s, g);
    } else {
      assert c * s == c * t + c * (s - t);
      ReturnsLater(c * t, c * (s - t));
      g := CommonReturn(c, s - t, t);
      Divided(t, s - t, g);
    }
  }

  predicate Prime(p: nat) {
    p > 1 && forall g :: 1 < g < p ==> p % g != 0
  }

  /** A prime factor of the period, without which the register does not come back, divides every return. */
  lemma FactorDivides(c: nat, p: nat, n: nat)
    requires Prime(p) && c * p == PERIOD && !Returns(c) && n > 0 && Returns(n)
    ensures n % p == 0
  {
    Power32767();
    MultipleReturns(n, c);
    assert n * c == c * n;
    hide Returns;
    var g := CommonReturn(c, p, n);
    if g > 1 {
      SmallerDivisor(p, g);
    }
  }

  lemma SmallerDivisor(p: nat, g: nat)
    requires Prime(p) && g > 1 && p % g == 0
    ensures g == p
  {
  }

  lemma FactorsArePrime()
    ensures Prime(7) && Prime(31) && Prime(151)
  {
    forall g | 1 < g < 151
      ensures 151 % g != 0
    {
      PrimeOf151(g);
    }
  }

  lemma PrimeOf151(g: nat)
    requires 1 < g < 151
    ensures 151 % g != 0
  {
    if 151 % g == 0 {
      var h := 151 / g;
      assert g * h == 151;
      if g <= 12 {
        NoSmallFactor(g, h);
      } else {
        NoSmallFactor(h, g);
      }
    }
  }

  lemma NoSmallFactor(g: nat, h: nat)
    requires 1 < g <= 12
    ensures g * h != 151
  {
  }

  lemma AllFactors(n: nat)
    requires n % 7 == 0 && n % 31 == 0 && n % 151 == 0
    ensures n % PERIOD == 0
  {
    Combined(n, n / 7, n / 31, n / 151);
  }

  lemma Combined(n: nat, a: nat, b: nat, c: nat)
    requires n == 7 * a == 31 * b == 151 * c
    ensures n % PERIOD == 0
  {
    var k := 9 * b - 2 * a;
    assert a == 31 * k;
    assert n == PERIOD * (135 * c - 194 * k);
  }

  /** x has the period 32767: 2^15 - 1 is the least number of steps after which the register 1 is back. */
  lemma PeriodOfX(n: nat)
    ensures Returns(n) <==> n % PERIOD == 0
  {
    Power32767();
    if n % PERIOD == 0 {
      MultipleReturns(PERIOD, n / PERIOD);
    }
    if n > 0 && Returns(n) {
      Power217();
      Power1057();
      Power4681();
      FactorsArePrime();
      hide Power, Prime;
      FactorDivides(4681, 7, n);
      FactorDivides(1057, 31, n);
      FactorDivides(217, 151, n);
      AllFactors(n);
    }
  }

  // ---------- two errors ----------

  lemma NewBit(r: bv16)
    ensures DivisionStep(r, true) == 0 <==> DivisionStep(r, false) == 1
  {
  }

  lemma {:induction false} RemainderOfPower(n: nat)
    ensures Remainder([true] + Zero(n)) == Power(n)
  {
    hide DivisionStep, TimesX;
    if n == 0 {
      assert [true] + Zero(0) == [] + [true];
      FirstBit();
    } else {
      RemainderOfPower(n - 1);
      TimesXDivides(Power(n - 1));
      assert [true] + Zero(n) == [true] + Zero(n - 1) + [false];
      RemainderOfOne([true] + Zero(n - 1), false);
      hide Remainder;
    }
  }

  lemma FirstBit()
    ensures Remainder([] + [true]) == 1
  {
    RemainderOfOne([], true);
    RemainderOfNothing();
    hide Remainder;
  }

  /** x^d + 1, with zeros around it, has the remainder zero exactly if d is a multiple of the period. */
  lemma TwoTermsDivisible(i: nat, d: nat, k: nat)
    requires d > 0
    ensures Remainder(Zero(i) + ([true] + Zero(d - 1) + [true]) + Zero(k)) == 0 <==> d % PERIOD == 0
  {
    var core := [true] + Zero(d - 1) + [true];
    hide Remainder, DivisionStep, TimesX;
    ZeroStepsInjective(Zero(i) + core, k);
    ManyLeadingZeros(i, core);
    RemainderOfOne([true] + Zero(d - 1), true);
    RemainderOfPower(d - 1);
    NewBit(Power(d - 1));
    TimesXDivides(Power(d - 1));
    PeriodOfX(d);
  }

  /** The bits differ exactly at `i` and at `j`. */
  predicate DifferAt(p: Poly, q: Poly, i: nat, j: nat) {
    |p| == |q| && i < j < |p| && forall k :: 0 <= k < |p| ==> (p[k] != q[k] <==> k == i || k == j)
  }

  lemma SumOfTwo(p: Poly, q: Poly, i: nat, j: nat)
    requires DifferAt(p, q, i, j)
    ensures Sum(p, q) == Zero(i) + ([true] + Zero(j - i - 1) + [true]) + Zero(|p| - j - 1)
  {
  }

  /**
   Two payloads of any length that differ in exactly two bits have the same CRC if and only if these are a multiple of
   32767 bits apart.
   */
  lemma TwoErrorsIff(a: seq<bv8>, b: seq<bv8>, i: nat, j: nat)
    requires |a| == |b| && DifferAt(MessageBits(a), MessageBits(b), i, j)
    ensures Crc(a) == Crc(b) <==> (j - i) % PERIOD == 0
  {
    var (p, q) := (MessageBits(a), MessageBits(b));
    hide Crc, MessageBits, Remainder, Sum, Plus;
    CrcIsRemainder(a);
    CrcIsRemainder(b);
    RemainderLinear(p, q);
    PlusIsZero(Remainder(p), Remainder(q));
    SumOfTwo(p, q, i, j);
    TwoTermsDivisible(i, j - i, |p| - j - 1);
  }

  lemma {:induction false} OneTerm(p: Poly) returns (j: nat)
    requires Terms(p) == 1
    ensures j < |p| && forall k :: 0 <= k < |p| ==> (p[k] <==> k == j)
  {
    var n := |p| - 1;
    if p[n] {
      j := n;
      NoTerm(p[..n]);
      assert forall k :: 0 <= k < n ==> p[k] == p[..n][k];
    } else {
      j := OneTerm(p[..n]);
      assert forall k :: 0 <= k < n ==> p[k] == p[..n][k];
    }
  }

  lemma {:induction false} NoTerm(p: Poly)
    requires Terms(p) == 0
    ensures forall k :: 0 <= k < |p| ==> !p[k]
  {
    if p != [] {
      NoTerm(p[..|p| - 1]);
      assert forall k :: 0 <= k < |p| - 1 ==> p[k] == p[..|p| - 1][k];
    }
  }

  lemma {:induction false} TwoTerms(p: Poly) returns (i: nat, j: nat)
    requires Terms(p) == 2
    ensures i < j < |p| && forall k :: 0 <= k < |p| ==> (p[k] <==> k == i || k == j)
  {
    var n := |p| - 1;
    if p[n] {
      j := n;
      i := OneTerm(p[..n]);
    } else {
      i, j := TwoTerms(p[..n]);
    }
    assert forall k :: 0 <= k < n ==> p[k] == p[..n][k];
  }

  lemma TermsDiffer(p: Poly, q: Poly) returns (i: nat, j: nat)
    requires |p| == |q| && Terms(Sum(p, q)) == 2
    ensures DifferAt(p, q, i, j)
  {
    hide Terms;
    i, j := TwoTerms(Sum(p, q));
    assert forall k :: 0 <= k < |p| ==> Sum(p, q)[k] == (p[k] != q[k]);
  }

  /** Every two wrong bits change the CRC of a payload of at most 4095 bytes; the size has eight bits. */
  lemma TwoErrorsDetected(a: seq<bv8>, b: seq<bv8>)
    requires |a| == |b| <= 4095 && Terms(Sum(MessageBits(a), MessageBits(b))) == 2
    ensures Crc(a) != Crc(b)
  {
    hide MessageBits, Crc, Terms, Sum;
    var i, j := TermsDiffer(MessageBits(a), MessageBits(b));
    TwoErrorsIff(a, b, i, j);
  }
}
