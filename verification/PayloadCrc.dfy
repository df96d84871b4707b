/** tools/payload_crc.c: the CRC-16 of a LoRa payload is the remainder of a polynomial division. */
module PayloadCrc {
  import opened BitStrings

  // ---------- the program ----------

  /** The sixteen assignments to `next` in lora_crc16, one for each bit. */
  function NextCrc(d: bv8, c: bv16): bv16 {
    var w := d as bv16;
    (((w >> 0) & 1) ^ ((c >> 12) & 1) ^ ((c >> 8) & 1))
    + ((((w >> 1) & 1) ^ ((c >> 13) & 1) ^ ((c >> 9) & 1)) << 1)
    + ((((w >> 2) & 1) ^ ((c >> 14) & 1) ^ ((c >> 10) & 1)) << 2)
    + ((((w >> 3) & 1) ^ ((c >> 15) & 1) ^ ((c >> 11) & 1)) << 3)
    + ((((w >> 4) & 1) ^ ((c >> 12) & 1)) << 4)
    + ((((w >> 5) & 1) ^ ((c >> 13) & 1) ^ ((c >> 12) & 1) ^ ((c >> 8) & 1)) << 5)
    + ((((w >> 6) & 1) ^ ((c >> 14) & 1) ^ ((c >> 13) & 1) ^ ((c >> 9) & 1)) << 6)
    + ((((w >> 7) & 1) ^ ((c >> 15) & 1) ^ ((c >> 14) & 1) ^ ((c >> 10) & 1)) << 7)
    + ((((c >> 0) & 1) ^ ((c >> 15) & 1) ^ ((c >> 11) & 1)) << 8)
    + ((((c >> 1) & 1) ^ ((c >> 12) & 1)) << 9)
    + ((((c >> 2) & 1) ^ ((c >> 13) & 1)) << 10)
    + ((((c >> 3) & 1) ^ ((c >> 14) & 1)) << 11)
    + ((((c >> 4) & 1) ^ ((c >> 15) & 1) ^ ((c >> 12) & 1) ^ ((c >> 8) & 1)) << 12)
    + ((((c >> 5) & 1) ^ ((c >> 13) & 1) ^ ((c >> 9) & 1)) << 13)
    + ((((c >> 6) & 1) ^ ((c >> 14) & 1) ^ ((c >> 10) & 1)) << 14)
    + ((((c >> 7) & 1) ^ ((c >> 15) & 1) ^ ((c >> 11) & 1)) << 15)
  }

  /** The CRC after all bytes of `m`. */
  function Crc(m: seq<bv8>): bv16 {
    if m == [] then 0 else NextCrc(m[|m| - 1], Crc(m[..|m| - 1]))
  }

  /** sx1302_lora_payload_crc; the payload size has eight bits. */
  method ComputeCrc(data: array<bv8>, size: nat) returns (crc: bv16)
    requires size < 0x100 && size <= data.Length
    ensures crc == Remainder(MessageBits(data[..size]))
  {
    hide NextCrc, Remainder;
    var i := 0;
    crc := 0;
    while i < size
      invariant 0 <= i <= size && crc == Crc(data[..i])
    {
      assert data[..i + 1][..i] == data[..i];
      crc := NextCrc(data[i], crc);
      i := i + 1;
    }
    CrcIsRemainder(data[..size]);
  }

  // ---------- division of polynomials over GF(2) ----------

  /** A polynomial: its coefficients, the highest power first. */
  type Poly = Bits

  function Sum(p: Poly, q: Poly): (s: Poly)
    requires |p| == |q|
    ensures |s| == |p| && forall i :: 0 <= i < |p| ==> s[i] == (p[i] != q[i])
  {
    if p == [] then [] else Sum(p[..|p| - 1], q[..|q| - 1]) + [p[|p| - 1] != q[|q| - 1]]
  }

  /** The schoolbook product: one shifted copy of `p` for every coefficient of `q`. */
  function Product(q: Poly, p: Poly): (r: Poly)
    requires |p| >= 1
    ensures |r| == |q| + |p| - 1
  {
    if q == [] then Zero(|p| - 1)
    else Sum([false] + Product(q[1..], p), (if q[0] then p else Zero(|p|)) + Zero(|q| - 1))
  }

  /** Some polynomial times `p` is `n`. */
  ghost predicate Divides(p: Poly, n: Poly)
    requires |p| >= 1
  {
    exists q: Poly :: Product(q, p) == n
  }

  /** x^16 + x^12 + x^5 + 1. */
  const GENERATOR: Poly :=
    [true, false, false, false, true, false, false, false, false, false, false, true, false, false, false, false, true]

  /** One step of the long division: the next coefficient is brought down. */
  function DivisionStep(r: bv16, bit: bool): bv16 {
    var shifted := (r << 1) | (if bit then 1 else 0);
    if r & 0x8000 == 0 then shifted else shifted ^ 0x1021
  }

  /** The remainder left by the coefficients of `p`. */
  function Remainder(p: Poly): bv16 {
    if p == [] then 0 else DivisionStep(Remainder(p[..|p| - 1]), p[|p| - 1])
  }

  function DataBit(d: bv8, k: bv8): bool
    requires k < 8
  {
    (d >> k) & 1 == 1
  }

  /** The bits of a byte, the highest first. */
  function ByteBits(d: bv8): (p: Poly)
    ensures |p| == 8
  {
    [DataBit(d, 7), DataBit(d, 6), DataBit(d, 5), DataBit(d, 4),
     DataBit(d, 3), DataBit(d, 2), DataBit(d, 1), DataBit(d, 0)]
  }

  function MessageBits(m: seq<bv8>): (p: Poly)
    ensures |p| == 8 * |m|
  {
    if m == [] then [] else MessageBits(m[..|m| - 1]) + ByteBits(m[|m| - 1])
  }

  // ---------- the unrolled network does eight steps ----------

  /** One, two or four steps at once: the bits shifted out come back as multiples of x^12 + x^5 + 1. */
  function StepOne(r: bv16, n: bv16): bv16 {
    var h := r >> 15;
    (r << 1) ^ n ^ h ^ (h << 5) ^ (h << 12)
  }

  function StepTwo(r: bv16, n: bv16): bv16 {
    var h := r >> 14;
    (r << 2) ^ n ^ h ^ (h << 5) ^ (h << 12)
  }

  function StepFour(r: bv16, n: bv16): bv16 {
    var h := r >> 12;
    (r << 4) ^ n ^ h ^ (h << 5) ^ (h << 12)
  }

  function One(bit: bool): bv16 {
    if bit then 1 else 0
  }

  lemma StepOneDivides(r: bv16, bit: bool)
    ensures DivisionStep(r, bit) == StepOne(r, One(bit))
  {
    BringDown(r, One(bit));
    if r & 0x8000 == 0 {
      assert r >> 15 == 0;
    } else {
      assert r >> 15 == 1;
    }
  }

  lemma BringDown(r: bv16, n: bv16)
    requires n < 2
    ensures (r << 1) | n == (r << 1) ^ n
  {
  }

  lemma StepTwoIsTwice(r: bv16, n: bv16)
    requires n < 4
    ensures StepOne(StepOne(r, n >> 1), n & 1) == StepTwo(r, n)
  {
  }

  lemma StepFourIsTwice(r: bv16, n: bv16)
    requires n < 16
    ensures StepTwo(StepTwo(r, n >> 2), n & 3) == StepFour(r, n)
  {
  }

  function HighHalf(d: bv8): bv16 {
    (d as bv16) >> 4
  }

  function LowHalf(d: bv8): bv16 {
    (d as bv16) & 15
  }

  function StepEight(d: bv8, r: bv16): bv16 {
    StepFour(StepFour(r, HighHalf(d)), LowHalf(d))
  }

  lemma LowNibble(d: bv8, r: bv16)
    ensures NextCrc(d, r) & 0x000f == StepEight(d, r) & 0x000f
  {
  }

  lemma SecondNibble(d: bv8, r: bv16)
    ensures NextCrc(d, r) & 0x00f0 == StepEight(d, r) & 0x00f0
  {
  }

  lemma ThirdNibble(d: bv8, r: bv16)
    ensures NextCrc(d, r) & 0x0f00 == StepEight(d, r) & 0x0f00
  {
  }

  lemma HighNibble(d: bv8, r: bv16)
    ensures NextCrc(d, r) & 0xf000 == StepEight(d, r) & 0xf000
  {
  }

  lemma EqualByNibbles(x: bv16, y: bv16)
    requires x & 0x000f == y & 0x000f && x & 0x00f0 == y & 0x00f0 && x & 0x0f00 == y & 0x0f00
             && x & 0xf000 == y & 0xf000
    ensures x == y
  {
  }

  /** The unrolled network is two steps by a nibble. */
  lemma NextCrcIsTwice(d: bv8, r: bv16)
    ensures NextCrc(d, r) == StepEight(d, r)
  {
    hide NextCrc, StepEight;
    LowNibble(d, r);
    SecondNibble(d, r);
    ThirdNibble(d, r);
    HighNibble(d, r);
    EqualByNibbles(NextCrc(d, r), StepEight(d, r));
  }

  function FourSteps(r: bv16, b3: bool, b2: bool, b1: bool, b0: bool): bv16 {
    DivisionStep(DivisionStep(DivisionStep(DivisionStep(r, b3), b2), b1), b0)
  }

  /** `n` is the number with these four bits. */
  predicate Nibble(n: bv16, b3: bool, b2: bool, b1: bool, b0: bool) {
    n < 16 && One(b3) == n >> 3 && One(b2) == (n >> 2) & 1 && One(b1) == (n >> 1) & 1 && One(b0) == n & 1
  }

  /** Four division steps with the bits of a nibble. */
  lemma NibbleSteps(r: bv16, n: bv16, b3: bool, b2: bool, b1: bool, b0: bool)
    requires Nibble(n, b3, b2, b1, b0)
    ensures FourSteps(r, b3, b2, b1, b0) == StepFour(r, n)
  {
    NibbleHalves(n);
    hide DivisionStep, StepOne, StepTwo, StepFour, One;
    var r3 := DivisionStep(r, b3);
    var r2 := DivisionStep(r3, b2);
    var r1 := DivisionStep(r2, b1);
    StepOneDivides(r, b3);
    StepOneDivides(r3, b2);
    StepOneDivides(r2, b1);
    StepOneDivides(r1, b0);
    StepTwoIsTwice(r, n >> 2);
    StepTwoIsTwice(r2, n & 3);
    StepFourIsTwice(r, n);
  }

  lemma NibbleHalves(n: bv16)
    requires n < 16
    ensures (n >> 2) >> 1 == n >> 3 && (n & 3) >> 1 == (n >> 1) & 1 && (n & 3) & 1 == n & 1 && n >> 2 < 4 && n & 3 < 4
  {
  }

  lemma ByteNibbles(d: bv8)
    ensures Nibble(HighHalf(d), DataBit(d, 7), DataBit(d, 6), DataBit(d, 5), DataBit(d, 4))
    ensures Nibble(LowHalf(d), DataBit(d, 3), DataBit(d, 2), DataBit(d, 1), DataBit(d, 0))
  {
  }

  function EightSteps(r: bv16, b: Poly): bv16
    requires |b| == 8
  {
    FourSteps(FourSteps(r, b[0], b[1], b[2], b[3]), b[4], b[5], b[6], b[7])
  }

  function ByteSteps(d: bv8, r: bv16): bv16 {
    FourSteps(FourSteps(r, DataBit(d, 7), DataBit(d, 6), DataBit(d, 5), DataBit(d, 4)),
              DataBit(d, 3), DataBit(d, 2), DataBit(d, 1), DataBit(d, 0))
  }

  lemma EightStepsOfByte(d: bv8, r: bv16)
    ensures EightSteps(r, ByteBits(d)) == ByteSteps(d, r)
  {
    hide FourSteps, DataBit;
  }

  /** One call of lora_crc16 is eight steps of the long division. */
  lemma NextCrcIsEightSteps(d: bv8, r: bv16)
    ensures NextCrc(d, r) == EightSteps(r, ByteBits(d))
  {
    EightStepsOfByte(d, r);
    hide StepFour, NextCrc, FourSteps, DataBit, HighHalf, LowHalf, Nibble, EightSteps, ByteBits;
    ByteNibbles(d);
    NextCrcIsTwice(d, r);
    NibbleSteps(r, HighHalf(d), DataBit(d, 7), DataBit(d, 6), DataBit(d, 5), DataBit(d, 4));
    NibbleSteps(StepFour(r, HighHalf(d)), LowHalf(d), DataBit(d, 3), DataBit(d, 2), DataBit(d, 1), DataBit(d, 0));
  }

  lemma RemainderOfByte(m: Poly, b: Poly)
    requires |b| == 8
    ensures Remainder(m + b) == EightSteps(Remainder(m), b)
  {
    SplitByte(m, b);
    RemainderOfFour(m, b[0], b[1], b[2], b[3]);
    RemainderOfFour(m + [b[0], b[1], b[2], b[3]], b[4], b[5], b[6], b[7]);
    hide FourSteps, Remainder;
  }

  lemma SplitByte(m: Poly, b: Poly)
    requires |b| == 8
    ensures m + b == m + [b[0], b[1], b[2], b[3]] + [b[4], b[5], b[6], b[7]]
  {
  }

  lemma RemainderOfFour(m: Poly, b3: bool, b2: bool, b1: bool, b0: bool)
    ensures Remainder(m + [b3, b2, b1, b0]) == FourSteps(Remainder(m), b3, b2, b1, b0)
  {
    hide DivisionStep, Remainder;
    RemainderOfOne(m, b3);
    RemainderOfOne(m + [b3], b2);
    RemainderOfOne(m + [b3] + [b2], b1);
    RemainderOfOne(m + [b3] + [b2] + [b1], b0);
    assert m + [b3, b2, b1, b0] == m + [b3] + [b2] + [b1] + [b0];
  }

  lemma RemainderOfOne(m: Poly, b: bool)
    ensures Remainder(m + [b]) == DivisionStep(Remainder(m), b)
  {
    hide DivisionStep;
    assert (m + [b])[..|m|] == m;
  }

  lemma RemainderOfNothing()
    ensures Remainder([]) == 0
  {
  }

  /** The payload CRC is the remainder of the message polynomial. */
  lemma {:induction false} CrcIsRemainder(m: seq<bv8>)
    ensures Crc(m) == Remainder(MessageBits(m))
  {
    hide NextCrc, Remainder, ByteBits, EightSteps;
    if m == [] {
      RemainderOfNothing();
    } else {
      CrcIsRemainder(m[..|m| - 1]);
      NextCrcIsEightSteps(m[|m| - 1], Crc(m[..|m| - 1]));
      RemainderOfByte(MessageBits(m[..|m| - 1]), ByteBits(m[|m| - 1]));
    }
  }

  // ---------- the remainder is linear, and zero steps are injective ----------

  function Plus(r: bv16, s: bv16): bv16 {
    r ^ s
  }

  lemma StepLinear(r: bv16, s: bv16, a: bool, b: bool)
    ensures DivisionStep(Plus(r, s), a != b) == Plus(DivisionStep(r, a), DivisionStep(s, b))
  {
    hide DivisionStep, StepOne, One, Plus;
    StepOneDivides(r, a);
    StepOneDivides(s, b);
    StepOneDivides(Plus(r, s), a != b);
    OneLinear(a, b);
    StepOneLinear(r, s, One(a), One(b));
  }

  lemma OneLinear(a: bool, b: bool)
    ensures One(a != b) == Plus(One(a), One(b))
  {
  }

  lemma StepOneLinear(r: bv16, s: bv16, m: bv16, n: bv16)
    ensures StepOne(Plus(r, s), Plus(m, n)) == Plus(StepOne(r, m), StepOne(s, n))
  {
    StepOneAdds(r, s, m, n);
    hide StepOne;
  }

  lemma StepOneAdds(r: bv16, s: bv16, m: bv16, n: bv16)
    ensures StepOne(r ^ s, m ^ n) == StepOne(r, m) ^ StepOne(s, n)
  {
    hide StepOne;
    calc {
      StepOne(r ^ s, m ^ n);
    == { InputAdds(r ^ s, m ^ n); }
      StepOne(r ^ s, 0) ^ (m ^ n);
    == { RegisterAdds(r, s); }
      (StepOne(r, 0) ^ StepOne(s, 0)) ^ (m ^ n);
    == { Crosswise(StepOne(r, 0), StepOne(s, 0), m, n); }
      (StepOne(r, 0) ^ m) ^ (StepOne(s, 0) ^ n);
    == { InputAdds(r, m); InputAdds(s, n); }
      StepOne(r, m) ^ StepOne(s, n);
    }
  }

  lemma InputAdds(r: bv16, n: bv16)
    ensures StepOne(r, n) == StepOne(r, 0) ^ n
  {
  }

  lemma RegisterAdds(r: bv16, s: bv16)
    ensures StepOne(r ^ s, 0) == StepOne(r, 0) ^ StepOne(s, 0)
  {
  }

  lemma Crosswise(a: bv16, b: bv16, c: bv16, d: bv16)
    ensures (a ^ b) ^ (c ^ d) == (a ^ c) ^ (b ^ d)
  {
  }

  /** The remainder of a sum is the sum of the remainders. */
  lemma {:induction false} RemainderLinear(p: Poly, q: Poly)
    requires |p| == |q|
    ensures Remainder(Sum(p, q)) == Plus(Remainder(p), Remainder(q))
  {
    hide DivisionStep;
    if p == [] {
      assert Plus(0, 0) == 0;
    } else {
      var n := |p| - 1;
      hide Plus;
      RemainderLinear(p[..n], q[..n]);
      StepLinear(Remainder(p[..n]), Remainder(q[..n]), p[n], q[n]);
      assert Sum(p, q)[..n] == Sum(p[..n], q[..n]);
    }
  }

  lemma ZeroStep(r: bv16)
    ensures DivisionStep(r, false) == 0 <==> r == 0
  {
    if r & 0x8000 != 0 {
      assert (r << 1) & 1 == 0;
    }
  }

  lemma {:induction false} ZeroStepsInjective(p: Poly, n: nat)
    ensures Remainder(p + Zero(n)) == 0 <==> Remainder(p) == 0
  {
    hide DivisionStep, Remainder;
    if n == 0 {
      assert p + Zero(0) == p;
    } else {
      ZeroStepsInjective(p, n - 1);
      assert p + Zero(n) == (p + Zero(n - 1)) + [false];
      RemainderOfOne(p + Zero(n - 1), false);
      ZeroStep(Remainder(p + Zero(n - 1)));
    }
  }

  // ---------- Remainder is the remainder of the division by GENERATOR ----------

  lemma {:induction false} LeadingZeros(p: Poly)
    ensures Remainder([false] + p) == Remainder(p)
  {
    hide DivisionStep;
    if p == [] {
      assert ([false] + p)[..0] == [];
      ZeroStep(0);
    } else {
      var n := |p| - 1;
      LeadingZeros(p[..n]);
      assert ([false] + p)[..n + 1] == [false] + p[..n];
    }
  }

  lemma {:induction false} ManyLeadingZeros(n: nat, p: Poly)
    ensures Remainder(Zero(n) + p) == Remainder(p)
  {
    hide DivisionStep, Remainder;
    if n == 0 {
      assert Zero(0) + p == p;
    } else {
      ManyLeadingZeros(n - 1, p);
      LeadingZeros(Zero(n - 1) + p);
      assert Zero(n) + p == [false] + (Zero(n - 1) + p);
    }
  }

  /** Below degree 16 nothing is divided: only zero has remainder zero. */
  lemma {:induction false} ShortRemainder(p: Poly)
    requires |p| <= 16 && Remainder(p) == 0
    ensures p == Zero(|p|)
  {
    if p != [] {
      var n := |p| - 1;
      ShortRegister(p[..n]);
      LimitBound(n);
      LastBit(Remainder(p[..n]), p[n]);
      ShortRemainder(p[..n]);
    }
  }

  function Twice(r: bv16): bv16 {
    r << 1
  }

  predicate Less(r: bv16, s: bv16) {
    r < s
  }

  /** 2^n. */
  function Limit(n: nat): bv16
    requires n <= 15
  {
    if n == 0 then 1 else Twice(Limit(n - 1))
  }

  lemma {:induction false} LimitBound(n: nat)
    requires n <= 15
    ensures Limit(n) <= 0x8000 && (n < 15 ==> Limit(n) <= 0x4000)
  {
    if n < 8 {
      LimitLow(n);
    } else {
      assert Limit(7) == 0x80;
      LimitHigh(n);
    }
  }

  lemma LimitLow(n: nat)
    requires n < 8
    ensures Limit(n) <= 0x80
  {
    assert Limit(1) == 2 && Limit(2) == 4 && Limit(3) == 8 && Limit(4) == 16 && Limit(5) == 32 && Limit(6) == 64
           && Limit(7) == 128;
  }

  lemma LimitHigh(n: nat)
    requires 8 <= n <= 15
    ensures Limit(n) <= 0x8000 && (n < 15 ==> Limit(n) <= 0x4000)
  {
    assert Limit(8) == 0x100 && Limit(9) == 0x200 && Limit(10) == 0x400 && Limit(11) == 0x800;
    assert Limit(12) == 0x1000 && Limit(13) == 0x2000 && Limit(14) == 0x4000 && Limit(15) == 0x8000;
  }

  predicate BelowLimit(r: bv16, n: nat)
    requires n <= 15
  {
    Less(r, Limit(n))
  }

  lemma LimitTop(n: nat)
    requires n < 15
    ensures Less(Limit(n), 0x4001)
  {
    LimitBound(n);
    hide Limit;
  }

  lemma StepBelowLimit(r: bv16, b: bool, n: nat)
    requires n < 15 && BelowLimit(r, n)
    ensures BelowLimit(DivisionStep(r, b), n + 1)
  {
    LimitTop(n);
    LimitNext(n);
    hide DivisionStep, Limit, Less, Twice;
    ShortStep(r, b, Limit(n));
  }

  /** Until the register is full it holds the bits read so far. */
  lemma {:induction false} ShortRegister(p: Poly)
    requires |p| <= 15
    ensures BelowLimit(Remainder(p), |p|)
  {
    if p == [] {
      RemainderOfNothing();
      LimitNext(0);
    } else {
      hide *;
      var n := |p| - 1;
      ShortRegister(p[..n]);
      assert p == p[..n] + [p[n]];
      RemainderOfOne(p[..n], p[n]);
      StepBelowLimit(Remainder(p[..n]), p[n], n);
    }
  }

  lemma LimitNext(n: nat)
    requires n < 15
    ensures Limit(0) == 1 && Limit(n + 1) == Twice(Limit(n))
  {
  }

  lemma ShortStep(r: bv16, b: bool, limit: bv16)
    requires Less(r, limit) && Less(limit, 0x4001)
    ensures Less(DivisionStep(r, b), Twice(limit))
  {
  }

  lemma LastBit(r: bv16, b: bool)
    requires r < 0x8000 && DivisionStep(r, b) == 0
    ensures r == 0 && !b
  {
  }

  lemma RemainderOfGenerator()
    ensures Remainder(GENERATOR) == 0
  {
    GeneratorBytes();
    var (a, b) := (ByteBits(0x88), ByteBits(0x10));
    RemainderOfByte([], a);
    RemainderOfByte(a, b);
    RemainderOfOne(a + b, true);
    NextCrcIsEightSteps(0x88, 0);
    NextCrcIsEightSteps(0x10, 0x88);
    assert [] + a == a;
    hide EightSteps, Remainder, ByteBits;
    RemainderOfNothing();
  }

  lemma GeneratorBytes()
    ensures GENERATOR == ByteBits(0x88) + ByteBits(0x10) + [true]
    ensures NextCrc(0x88, 0) == 0x88 && NextCrc(0x10, 0x88) == 0x8810 && DivisionStep(0x8810, true) == 0
  {
  }

  /** The leading coefficient times the generator, shifted to the top of a polynomial of length `n + 17`. */
  function Top(b: bool, n: nat): (t: Poly)
    ensures |t| == n + 17
  {
    (if b then GENERATOR else Zero(17)) + Zero(n)
  }

  lemma {:induction false} ProductsHaveNoRemainder(q: Poly)
    ensures Remainder(Product(q, GENERATOR)) == 0
  {
    hide Remainder;
    if q == [] {
      ManyLeadingZeros(16, []);
      assert Zero(16) + [] == Zero(16);
      RemainderOfNothing();
    } else {
      var rest := Product(q[1..], GENERATOR);
      ProductsHaveNoRemainder(q[1..]);
      LeadingZeros(rest);
      FirstTerm(q[0], |q| - 1);
      RemainderLinear([false] + rest, Top(q[0], |q| - 1));
      PlusZero();
    }
  }

  lemma FirstTerm(b: bool, n: nat)
    ensures Remainder(Top(b, n)) == 0
  {
    hide Remainder;
    RemainderOfGenerator();
    ManyLeadingZeros(17, []);
    assert Zero(17) + [] == Zero(17);
    RemainderOfNothing();
    ZeroStepsInjective(GENERATOR, n);
    ZeroStepsInjective(Zero(17), n);
  }

  lemma PlusZero()
    ensures Plus(0, 0) == 0
  {
  }

  /** One line of the schoolbook division: the leading coefficient is cancelled. */
  function Reduced(p: Poly): (r: Poly)
    requires |p| >= 17
    ensures |r| == |p| - 1
  {
    Sum(p, Top(p[0], |p| - 17))[1..]
  }

  lemma SumWithTop(p: Poly)
    requires |p| >= 17
    ensures Sum(p, Top(p[0], |p| - 17)) == [false] + Reduced(p)
  {
    TopStartsWith(p[0], |p| - 17);
    SumStartsWith(p, Top(p[0], |p| - 17));
    hide *;
    FirstAndRest(Sum(p, Top(p[0], |p| - 17)));
  }

  lemma SumStartsWith(p: Poly, q: Poly)
    requires |p| == |q| > 0
    ensures Sum(p, q)[0] == (p[0] != q[0])
  {
  }

  lemma FirstAndRest(p: Poly)
    requires p != []
    ensures p == [p[0]] + p[1..]
  {
  }

  lemma ReducedKeepsRemainder(p: Poly)
    requires |p| >= 17
    ensures Remainder(Reduced(p)) == Remainder(p)
  {
    hide *;
    SumWithTop(p);
    FirstTerm(p[0], |p| - 17);
    RemainderLinear(p, Top(p[0], |p| - 17));
    PlusNothing(Remainder(p));
    LeadingZeros(Reduced(p));
  }

  lemma TopStartsWith(b: bool, n: nat)
    ensures Top(b, n)[0] == b
  {
  }

  lemma PlusNothing(r: bv16)
    ensures Plus(r, 0) == r
  {
  }

  lemma SumCancels(p: Poly, t: Poly)
    requires |p| == |t|
    ensures Sum(Sum(p, t), t) == p
  {
  }

  lemma ProductOfReduced(p: Poly, q: Poly)
    requires |p| >= 17 && Product(q, GENERATOR) == Reduced(p)
    ensures Product([p[0]] + q, GENERATOR) == p
  {
    var top := Top(p[0], |p| - 17);
    assert |q| == |p| - 17;
    assert ([p[0]] + q)[1..] == q;
    SumWithTop(p);
    SumCancels(p, top);
  }

  /** The long division: a polynomial without remainder is a multiple of the generator. */
  lemma {:induction false} NoRemainderDivides(p: Poly) returns (q: Poly)
    requires |p| >= 16 && Remainder(p) == 0
    ensures Product(q, GENERATOR) == p
    decreases |p|
  {
    hide Remainder, Reduced;
    if |p| == 16 {
      ShortRemainder(p);
      q := [];
    } else {
      ReducedKeepsRemainder(p);
      var tail := NoRemainderDivides(Reduced(p));
      ProductOfReduced(p, tail);
      q := [p[0]] + tail;
    }
  }

  /** A polynomial leaves no remainder exactly if the generator divides it. */
  lemma NoRemainderIffDivisible(p: Poly)
    requires |p| >= 16
    ensures Remainder(p) == 0 <==> Divides(GENERATOR, p)
  {
    hide Remainder, Product;
    if Remainder(p) == 0 {
      var q := NoRemainderDivides(p);
    }
    if Divides(GENERATOR, p) {
      var q :| Product(q, GENERATOR) == p;
      ProductsHaveNoRemainder(q);
    }
  }

  lemma AddedTwice(r: bv16, s: bv16)
    ensures Plus(Plus(r, s), s) == r
  {
  }

  lemma AddedToNothing(s: bv16)
    ensures Plus(0, s) == s && Plus(s, s) == 0
  {
  }

  lemma PlusIsZero(r: bv16, s: bv16)
    ensures Plus(r, s) == 0 <==> r == s
  {
    hide Plus;
    AddedTwice(r, s);
    AddedToNothing(s);
  }

  /** `r` without its leading zeros removed: a short polynomial written with the length of a long one. */
  function Padded(n: nat, r: Poly): (p: Poly)
    requires |r| <= n
    ensures |p| == n
  {
    Zero(n - |r|) + r
  }

  /**
   The remainder of the division by the generator, as a polynomial `r` of degree below 16: the message
   minus `r` is a multiple of the generator exactly if `r` holds the same register.
   */
  lemma RemainderOfDivision(p: Poly, r: Poly)
    requires |p| >= 16 && |r| == 16
    ensures Remainder(p) == Remainder(r) <==> Divides(GENERATOR, Sum(p, Padded(|p|, r)))
  {
    hide Remainder, Plus, Divides, Sum;
    ManyLeadingZeros(|p| - 16, r);
    RemainderLinear(p, Padded(|p|, r));
    NoRemainderIffDivisible(Sum(p, Padded(|p|, r)));
    PlusIsZero(Remainder(p), Remainder(r));
  }

  /** Different polynomials of degree below 16 are different remainders. */
  lemma ShortRemaindersDiffer(r: Poly, s: Poly)
    requires |r| == |s| <= 16 && Remainder(r) == Remainder(s)
    ensures r == s
  {
    hide Remainder, Plus;
    RemainderLinear(r, s);
    PlusIsZero(Remainder(r), Remainder(s));
    ShortRemainder(Sum(r, s));
    assert forall i :: 0 <= i < |r| ==> !Sum(r, s)[i];
  }

  // ---------- error detection ----------

  /** The two polynomials agree outside the window of 16 coefficients that starts at `i`. */
  predicate AgreeOutside(p: Poly, q: Poly, i: nat)
    requires |p| == |q|
  {
    forall k :: 0 <= k < |p| && !(i <= k < i + 16) ==> p[k] == q[k]
  }

  lemma EqualIfSumZero(p: Poly, q: Poly)
    requires |p| == |q| && Sum(p, q) == Zero(|p|)
    ensures p == q
  {
    assert forall k :: 0 <= k < |p| ==> Sum(p, q)[k] == (p[k] != q[k]);
  }

  /** A difference inside a window is a short polynomial between zeros. */
  lemma WindowOfSum(p: Poly, q: Poly, i: nat, n: nat)
    requires |p| == |q| && AgreeOutside(p, q, i) && i + n <= |p| && (n == 16 || i + n == |p|)
    ensures Sum(p, q) == Zero(i) + Sum(p, q)[i..i + n] + Zero(|p| - i - n)
  {
  }

  /** Two polynomials with the same remainder that agree outside a window are equal. */
  lemma WindowDetected(p: Poly, q: Poly, i: nat)
    requires |p| == |q| && AgreeOutside(p, q, i) && Remainder(p) == Remainder(q)
    ensures p == q
  {
    hide Remainder, Plus, AgreeOutside;
    if i >= |p| {
      BeyondTheEnd(p, q, i);
    } else {
      var n := if i + 16 <= |p| then 16 else |p| - i;
      var w := Sum(p, q)[i..i + n];
      WindowOfSum(p, q, i, n);
      RemainderLinear(p, q);
      PlusIsZero(Remainder(p), Remainder(q));
      ZeroStepsInjective(Zero(i) + w, |p| - i - n);
      ManyLeadingZeros(i, w);
      ShortRemainder(w);
      assert Sum(p, q) == Zero(|p|);
      EqualIfSumZero(p, q);
    }
  }

  lemma BeyondTheEnd(p: Poly, q: Poly, i: nat)
    requires |p| == |q| <= i && AgreeOutside(p, q, i)
    ensures p == q
  {
  }

  lemma EqualByteBits(d: bv8, e: bv8)
    requires ByteBits(d) == ByteBits(e)
    ensures d == e
  {
    EqualByBits(d, e, ByteBits(d), ByteBits(e));
  }

  lemma EqualByBits(d: bv8, e: bv8, p: Poly, q: Poly)
    requires p == ByteBits(d) && q == ByteBits(e) && p == q
    ensures d == e
  {
    assert p[0] == q[0] && p[1] == q[1] && p[2] == q[2] && p[3] == q[3];
    assert p[4] == q[4] && p[5] == q[5] && p[6] == q[6] && p[7] == q[7];
  }

  /** The bits determine the bytes. */
  lemma {:induction false} MessageBitsInjective(a: seq<bv8>, b: seq<bv8>)
    requires |a| == |b| && MessageBits(a) == MessageBits(b)
    ensures a == b
  {
    hide ByteBits;
    if a != [] {
      var n := |a| - 1;
      assert MessageBits(a)[..8 * n] == MessageBits(a[..n]) && MessageBits(a)[8 * n..] == ByteBits(a[n]);
      assert MessageBits(b)[..8 * n] == MessageBits(b[..n]) && MessageBits(b)[8 * n..] == ByteBits(b[n]);
      MessageBitsInjective(a[..n], b[..n]);
      EqualByteBits(a[n], b[n]);
      assert a == a[..n] + [a[n]] && b == b[..n] + [b[n]];
    }
  }

  /** Every error burst of at most 16 bits, wherever it starts, changes the CRC. */
  lemma BurstDetected(a: seq<bv8>, b: seq<bv8>, i: nat)
    requires |a| == |b| && AgreeOutside(MessageBits(a), MessageBits(b), i)
    ensures Crc(a) == Crc(b) <==> a == b
  {
    hide *;
    if Crc(a) == Crc(b) {
      CrcIsRemainder(a);
      CrcIsRemainder(b);
      WindowDetected(MessageBits(a), MessageBits(b), i);
      MessageBitsInjective(a, b);
    }
  }

  /** Two payloads that differ only in two neighbouring bytes never have the same CRC. */
  lemma NeighbouringBytesDetected(a: seq<bv8>, b: seq<bv8>, k: nat)
    requires |a| == |b| && k + 2 <= |a| && a[..k] == b[..k] && a[k + 2..] == b[k + 2..]
    ensures Crc(a) == Crc(b) <==> a == b
  {
    hide Crc, MessageBits;
    BitsAround(a, k);
    BitsAround(b, k);
    BurstDetected(a, b, 8 * k);
  }

  lemma ThreeParts<T>(a: seq<T>, k: nat, n: nat)
    requires k <= n <= |a|
    ensures a == a[..k] + a[k..n] + a[n..]
  {
  }

  lemma BitsAround(a: seq<bv8>, k: nat)
    requires k + 2 <= |a|
    ensures MessageBits(a) == MessageBits(a[..k]) + MessageBits(a[k..k + 2]) + MessageBits(a[k + 2..])
  {
    hide *;
    ThreeParts(a, k, k + 2);
    BitsOfJoin(a[..k], a[k..k + 2]);
    BitsOfJoin(a[..k] + a[k..k + 2], a[k + 2..]);
  }

  /** The number of terms of a polynomial. */
  function Terms(p: Poly): nat {
    if p == [] then 0 else Terms(p[..|p| - 1]) + (if p[|p| - 1] then 1 else 0)
  }

  lemma {:induction false} TermsOfSum(p: Poly, q: Poly)
    requires |p| == |q|
    ensures (Terms(Sum(p, q)) - Terms(p) - Terms(q)) % 2 == 0
  {
    if p != [] {
      var n := |p| - 1;
      TermsOfSum(p[..n], q[..n]);
      assert Sum(p, q)[..n] == Sum(p[..n], q[..n]);
    }
  }

  lemma {:induction false} TermsOfJoin(p: Poly, q: Poly)
    ensures Terms(p + q) == Terms(p) + Terms(q)
  {
    if q == [] {
      assert p + q == p;
    } else {
      var n := |q| - 1;
      TermsOfJoin(p, q[..n]);
      assert (p + q)[..|p| + n] == p + q[..n];
    }
  }

  lemma {:induction false} TermsOfZero(n: nat)
    ensures Terms(Zero(n)) == 0
  {
    if n > 0 {
      TermsOfZero(n - 1);
      assert Zero(n)[..n - 1] == Zero(n - 1);
    }
  }

  lemma TermsOfGenerator()
    ensures Terms(GENERATOR) == 4
  {
    var (z3, z6, z4) :=
      ([false, false, false], [false, false, false, false, false, false], [false, false, false, false]);
    assert GENERATOR == [true] + z3 + [true] + z6 + [true] + z4 + [true];
    assert z3 == Zero(3) && z6 == Zero(6) && z4 == Zero(4);
    TermsOfZero(3);
    TermsOfZero(6);
    TermsOfZero(4);
    TermsOfOne();
    hide Terms;
    TermsOfJoin([true] + z3 + [true] + z6 + [true] + z4, [true]);
    TermsOfJoin([true] + z3 + [true] + z6 + [true], z4);
    TermsOfJoin([true] + z3 + [true] + z6, [true]);
    TermsOfJoin([true] + z3 + [true], z6);
    TermsOfJoin([true] + z3, [true]);
    TermsOfJoin([true], z3);
  }

  lemma TermsOfOne()
    ensures Terms([true]) == 1 && Terms([false]) == 0
  {
    assert [true][..0] == [] && [false][..0] == [];
  }

  lemma TermsOfTop(b: bool, n: nat)
    ensures Terms(Top(b, n)) % 2 == 0
  {
    hide Terms;
    TermsOfGenerator();
    TermsOfZero(17);
    TermsOfZero(n);
    TermsOfJoin(if b then GENERATOR else Zero(17), Zero(n));
  }

  /** x + 1 divides the generator, so a multiple of the generator has an even number of terms. */
  lemma {:induction false} ProductsAreEven(q: Poly)
    ensures Terms(Product(q, GENERATOR)) % 2 == 0
  {
    hide Terms, Top;
    if q == [] {
      TermsOfZero(16);
    } else {
      var rest := Product(q[1..], GENERATOR);
      ProductsAreEven(q[1..]);
      TermsOfOne();
      TermsOfJoin([false], rest);
      TermsOfTop(q[0], |q| - 1);
      ProductTop(q);
      TermsOfSum([false] + rest, Top(q[0], |q| - 1));
    }
  }

  lemma ProductTop(q: Poly)
    requires q != []
    ensures Product(q, GENERATOR) == Sum([false] + Product(q[1..], GENERATOR), Top(q[0], |q| - 1))
  {
  }

  lemma NoRemainderIsEven(p: Poly)
    requires Remainder(p) == 0
    ensures Terms(p) % 2 == 0
  {
    hide Remainder, Product, Terms;
    if |p| <= 16 {
      ShortRemainder(p);
      TermsOfZero(|p|);
    } else {
      var q := NoRemainderDivides(p);
      ProductsAreEven(q);
    }
  }

  /** Every odd number of wrong bits, wherever they are, changes the CRC. */
  lemma OddErrorsDetected(a: seq<bv8>, b: seq<bv8>)
    requires |a| == |b| && Terms(Sum(MessageBits(a), MessageBits(b))) % 2 == 1
    ensures Crc(a) != Crc(b)
  {
    hide *;
    var (p, q) := (MessageBits(a), MessageBits(b));
    CrcIsRemainder(a);
    CrcIsRemainder(b);
    RemainderLinear(p, q);
    PlusIsZero(Remainder(p), Remainder(q));
    if Remainder(Sum(p, q)) == 0 {
      NoRemainderIsEven(Sum(p, q));
    }
  }

  // ---------- the appended CRC ----------

  function Word(high: bv8, low: bv8): bv16 {
    ((high as bv16) << 8) | (low as bv16)
  }

  function HighByte(r: bv16): bv8 {
    (r >> 8) as bv8
  }

  function LowByte(r: bv16): bv8 {
    (r & 0xff) as bv8
  }

  /** Sixteen bits in an empty register stay what they are. */
  lemma TwoStepsFromZero(x: bv8, y: bv8)
    ensures NextCrc(y, NextCrc(x, 0)) == Word(x, y)
  {
    NextFromZero(x);
    LowNibbleOfTwo(x, y);
  }

  lemma NextFromZero(x: bv8)
    ensures NextCrc(x, 0) == x as bv16
  {
  }

  lemma LowNibbleOfTwo(x: bv8, y: bv8)
    ensures NextCrc(y, x as bv16) == Word(x, y)
  {
  }

  lemma CrcOfTwo(x: bv8, y: bv8)
    ensures Crc([x, y]) == Word(x, y)
  {
    TwoStepsFromZero(x, y);
    hide NextCrc, Word;
    var m := [x];
    assert m[..0] == [];
    assert Crc(m) == NextCrc(x, 0);
    assert [x, y][..1] == m;
  }

  lemma {:induction false} BitsOfJoin(a: seq<bv8>, b: seq<bv8>)
    ensures MessageBits(a + b) == MessageBits(a) + MessageBits(b)
  {
    hide ByteBits;
    if b == [] {
      assert a + b == a;
    } else {
      BitsOfJoin(a, b[..|b| - 1]);
      assert (a + b)[..|a + b| - 1] == a + b[..|b| - 1];
    }
  }

  lemma ZeroByteBits()
    ensures ByteBits(0) == Zero(8)
  {
  }

  lemma BitsOfZeros()
    ensures MessageBits([0, 0]) == Zero(16)
  {
    ZeroByteBits();
    hide ByteBits;
    assert [0, 0] == [0] + [0];
    BitsOfJoin([0], [0]);
    assert MessageBits([0]) == Zero(8) by {
      var m: seq<bv8> := [0];
      assert m[..0] == [];
    }
  }

  /** Two more bytes are added to the remainder of the message shifted by sixteen. */
  lemma CrcWithTwoBytes(m: seq<bv8>, x: bv8, y: bv8)
    ensures Crc(m + [x, y]) == Plus(Crc(m + [0, 0]), Word(x, y))
  {
    hide Crc, Remainder, MessageBits, Plus, Word;
    var (p, t) := (MessageBits(m), MessageBits([x, y]));
    CrcIsRemainder(m + [x, y]);
    CrcIsRemainder(m + [0, 0]);
    CrcIsRemainder([x, y]);
    BitsOfJoin(m, [x, y]);
    BitsOfJoin(m, [0, 0]);
    BitsOfZeros();
    ManyLeadingZeros(|p|, t);
    RemainderLinear(p + Zero(16), Zero(|p|) + t);
    assert Sum(p + Zero(16), Zero(|p|) + t) == p + t;
    CrcOfTwo(x, y);
  }

  lemma BytesOfWord(x: bv8, y: bv8)
    ensures HighByte(Word(x, y)) == x && LowByte(Word(x, y)) == y
  {
  }

  lemma WordOfItsBytes(r: bv16)
    ensures Word(HighByte(r), LowByte(r)) == r
  {
  }

  lemma WordOfBytes(r: bv16, x: bv8, y: bv8)
    ensures Plus(r, Word(x, y)) == 0 <==> x == HighByte(r) && y == LowByte(r)
  {
    BytesOfWord(x, y);
    WordOfItsBytes(r);
    PlusIsZero(r, Word(x, y));
    hide *;
  }

  /** Exactly one pair of bytes appended to a message gives the CRC 0: the CRC of the message and two zeros. */
  lemma AppendedCrc(m: seq<bv8>, x: bv8, y: bv8)
    ensures Crc(m + [x, y]) == 0 <==> [x, y] == [HighByte(Crc(m + [0, 0])), LowByte(Crc(m + [0, 0]))]
  {
    hide *;
    CrcWithTwoBytes(m, x, y);
    WordOfBytes(Crc(m + [0, 0]), x, y);
  }

  // ---------- a known answer ----------

  lemma CrcNext(m: seq<bv8>, n: nat)
    requires n < |m|
    ensures Crc(m[..n + 1]) == NextCrc(m[n], Crc(m[..n]))
  {
    assert m[..n + 1][..n] == m[..n];
    hide NextCrc;
  }

  lemma CheckSteps()
    ensures NextCrc(0x31, 0x0000) == 0x0031
    ensures NextCrc(0x32, 0x0031) == 0x3132
    ensures NextCrc(0x33, 0x3132) == 0x1441
    ensures NextCrc(0x34, 0x1441) == 0x1381
    ensures NextCrc(0x35, 0x1381) == 0xa367
    ensures NextCrc(0x36, 0xa367) == 0xe2bf
    ensures NextCrc(0x37, 0xe2bf) == 0x625b
    ensures NextCrc(0x38, 0x625b) == 0x17dc
    ensures NextCrc(0x39, 0x17dc) == 0xbeef
    ensures NextCrc(0x00, 0xbeef) == 0xa915
    ensures NextCrc(0x00, 0xa915) == 0x31c3
  {
  }

  /** The CRC of "123456789" and two zero bytes is the check value of CRC-16/XMODEM, which shifts them in by itself. */
  lemma CheckValue()
    ensures Crc([0x31, 0x32, 0x33, 0x34, 0x35, 0x36, 0x37, 0x38, 0x39, 0x00, 0x00]) == 0x31c3
  {
    CheckSteps();
    hide NextCrc, Crc;
    NothingYet();
    var m: seq<bv8> := [0x31, 0x32, 0x33, 0x34, 0x35, 0x36, 0x37, 0x38, 0x39, 0x00, 0x00];
    CrcNext(m, 0);
    CrcNext(m, 1);
    CrcNext(m, 2);
    CrcNext(m, 3);
    CrcNext(m, 4);
    CrcNext(m, 5);
    CrcNext(m, 6);
    CrcNext(m, 7);
    CrcNext(m, 8);
    CrcNext(m, 9);
    CrcNext(m, 10);
    assert m[..11] == m && m[..0] == [];
  }

  lemma NothingYet()
    ensures Crc([]) == 0
  {
  }
}
