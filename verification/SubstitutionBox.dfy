/** The two substitution tables of aes.c, checked against the definition of FIPS 197. */
module SubstitutionBox {
  import opened Bytes
  import opened GaloisField

  /** Row `h` of sb_data: the sixteen entries whose index has high nibble `h`. */
  function SBoxRow(h: bv8): bv128 {
    if h == 0x0 then 0x637c777bf26b6fc53001672bfed7ab76
    else if h == 0x1 then 0xca82c97dfa5947f0add4a2af9ca472c0
    else if h == 0x2 then 0xb7fd9326363ff7cc34a5e5f171d83115
    else if h == 0x3 then 0x04c723c31896059a071280e2eb27b275
    else if h == 0x4 then 0x09832c1a1b6e5aa0523bd6b329e32f84
    else if h == 0x5 then 0x53d100ed20fcb15b6acbbe394a4c58cf
    else if h == 0x6 then 0xd0efaafb434d338545f9027f503c9fa8
    else if h == 0x7 then 0x51a3408f929d38f5bcb6da2110fff3d2
    else if h == 0x8 then 0xcd0c13ec5f974417c4a77e3d645d1973
    else if h == 0x9 then 0x60814fdc222a908846eeb814de5e0bdb
    else if h == 0xa then 0xe0323a0a4906245cc2d3ac629195e479
    else if h == 0xb then 0xe7c8376d8dd54ea96c56f4ea657aae08
    else if h == 0xc then 0xba78252e1ca6b4c6e8dd741f4bbd8b8a
    else if h == 0xd then 0x703eb5664803f60e613557b986c11d9e
    else if h == 0xe then 0xe1f8981169d98e949b1e87e9ce5528df
    else 0x8ca1890dbfe6426841992d0fb054bb16
  }

  /** Row `h` of isb_data. */
  function InvSBoxRow(h: bv8): bv128 {
    if h == 0x0 then 0x52096ad53036a538bf40a39e81f3d7fb
    else if h == 0x1 then 0x7ce339829b2fff87348e4344c4dee9cb
    else if h == 0x2 then 0x547b9432a6c2233dee4c950b42fac34e
    else if h == 0x3 then 0x082ea16628d924b2765ba2496d8bd125
    else if h == 0x4 then 0x72f8f66486689816d4a45ccc5d65b692
    else if h == 0x5 then 0x6c704850fdedb9da5e154657a78d9d84
    else if h == 0x6 then 0x90d8ab008cbcd30af7e45805b8b34506
    else if h == 0x7 then 0xd02c1e8fca3f0f02c1afbd0301138a6b
    else if h == 0x8 then 0x3a9111414f67dcea97f2cfcef0b4e673
    else if h == 0x9 then 0x96ac7422e7ad3585e2f937e81c75df6e
    else if h == 0xa then 0x47f11a711d29c5896fb7620eaa18be1b
    else if h == 0xb then 0xfc563e4bc6d279209adbc0fe78cd5af4
    else if h == 0xc then 0x1fdda8338807c731b11210592780ec5f
    else if h == 0xd then 0x60517fa919b54a0d2de57a9f93c99cef
    else if h == 0xe then 0xa0e03b4dae2af5b0c8ebbb3c83539961
    else 0x172b047eba77d626e169146355210c7d
  }

  /** Entry `column` of a row, halving the row once for each bit of the column number. */
  function Entry(row: bv128, column: bv8): bv8 {
    var eight := if column & 8 == 0 then row >> 64 else row;
    var four := if column & 4 == 0 then eight >> 32 else eight;
    var two := if column & 2 == 0 then four >> 16 else four;
    var one := if column & 1 == 0 then two >> 8 else two;
    (one & 0xff) as bv8
  }

  function Look(x: bv8): bv8 { Entry(SBoxRow(x >> 4), x) }
  function InvLook(x: bv8): bv8 { Entry(InvSBoxRow(x >> 4), x) }

  lemma InvLookOfLook(x: bv8)
    ensures InvLook(Look(x)) == x
  {
    LowInvLookOfLook(x & 0x7f);
    HighInvLookOfLook(x | 0x80);
    hide Look, InvLook;
  }

  lemma LowInvLookOfLook(x: bv8)
    requires x < 0x80
    ensures InvLook(Look(x)) == x
  {
  }

  lemma HighInvLookOfLook(x: bv8)
    requires x >= 0x80
    ensures InvLook(Look(x)) == x
  {
  }

  lemma LookOfInvLook(x: bv8)
    ensures Look(InvLook(x)) == x
  {
    LowLookOfInvLook(x & 0x7f);
    HighLookOfInvLook(x | 0x80);
    hide Look, InvLook;
  }

  lemma LowLookOfInvLook(x: bv8)
    requires x < 0x80
    ensures Look(InvLook(x)) == x
  {
  }

  lemma HighLookOfInvLook(x: bv8)
    requires x >= 0x80
    ensures Look(InvLook(x)) == x
  {
  }

  function SBox(x: Byte): Byte { Byte(Look(x.v)) }
  function InvSBox(x: Byte): Byte { Byte(InvLook(x.v)) }

  /** The two tables are inverse permutations of the octets. */
  lemma SBoxInverts(x: Byte)
    ensures InvSBox(SBox(x)) == x && SBox(InvSBox(x)) == x
  {
    hide Look, InvLook;
    InvLookOfLook(x.v);
    LookOfInvLook(x.v);
  }

  // ---------- section 5.1.1 of FIPS 197: the inverse in GF(2^8), then an affine transformation ----------

  function Affine(b: Byte): Byte {
    Byte(AffineBits(b.v))
  }

  function AffineBits(b: bv8): bv8 {
    b ^ ((b << 1) | (b >> 7)) ^ ((b << 2) | (b >> 6)) ^ ((b << 3) | (b >> 5)) ^ ((b << 4) | (b >> 4)) ^ 0x63
  }

  /** What the affine transformation is applied to. */
  function InvAffine(b: Byte): Byte {
    Byte(InvAffineBits(b.v))
  }

  lemma AffineInverts(b: Byte)
    ensures Affine(InvAffine(b)) == b
  {
    BitsInvert(b.v);
    hide AffineBits, InvAffineBits;
  }

  lemma BitsInvert(b: bv8)
    ensures AffineBits(InvAffineBits(b)) == b
  {
  }

  function InvAffineBits(b: bv8): bv8 {
    ((b << 1) | (b >> 7)) ^ ((b << 3) | (b >> 5)) ^ ((b << 6) | (b >> 2)) ^ 0x05
  }

  function Double(x: bv8): bv8 {
    if x & 0x80 == 0 then x << 1 else (x << 1) ^ 0x1b
  }

  /** One bit of a product and the rest of it. */
  function Term(x: bv8, b: bv8, rest: bv8): bv8 {
    (if b & 1 == 1 then x else 0) ^ rest
  }

  function FourTerms(x: bv8, b: bv8, rest: bv8): bv8 {
    Term(x, b, Term(Double(x), b >> 1, Term(Double(Double(x)), b >> 2, Term(Double(Double(Double(x))), b >> 3, rest))))
  }

  function Double4(x: bv8): bv8 {
    Double(Double(Double(Double(x))))
  }

  /** The product of FIPS 197 section 4.2 on bare bits. */
  function Product(x: bv8, b: bv8): bv8 {
    FourTerms(x, b, FourTerms(Double4(x), b >> 4, 0))
  }

  lemma DoubleIsXTime(x: bv8, b: bv8)
    ensures XTime(Byte(x)) == Byte(Double(x)) && Half(Byte(b)) == Byte(b >> 1)
  {
  }

  lemma TermIsXor(x: bv8, b: bv8, rest: Byte)
    ensures Xor(if Odd(Byte(b)) then Byte(x) else Byte(0), rest).v == Term(x, b, rest.v)
  {
  }

  lemma UnfoldBits(x: bv8, b: bv8)
    ensures Times(Byte(x), Byte(b)).v == Term(x, b, Times(Byte(Double(x)), Byte(b >> 1)).v)
  {
    hide Times, XTime, Half, Odd, Xor, Term, Double;
    TimesUnfolds(Byte(x), Byte(b));
    DoubleIsXTime(x, b);
    TermIsXor(x, b, Times(Byte(Double(x)), Byte(b >> 1)));
  }

  lemma ShiftedTwice(b: bv8)
    ensures (b >> 1) >> 1 == b >> 2 && (b >> 2) >> 1 == b >> 3 && (b >> 3) >> 1 == b >> 4 && (b >> 4) >> 4 == 0
  {
  }

  lemma TimesFourTerms(x: bv8, b: bv8)
    ensures Times(Byte(x), Byte(b)).v == FourTerms(x, b, Times(Byte(Double4(x)), Byte(b >> 4)).v)
  {
    hide Double, Term, Times;
    ShiftedTwice(b);
    UnfoldBits(x, b);
    UnfoldBits(Double(x), b >> 1);
    UnfoldBits(Double(Double(x)), b >> 2);
    UnfoldBits(Double(Double(Double(x))), b >> 3);
  }

  lemma ProductIsTimes(x: bv8, b: bv8)
    ensures Times(Byte(x), Byte(b)).v == Product(x, b)
  {
    hide FourTerms, Double4, Times;
    TimesFourTerms(x, b);
    TimesFourTerms(Double4(x), b >> 4);
    ShiftedTwice(b);
    TimesZero(Byte(Double4(Double4(x))));
  }

  /** `y` is the inverse of `x`, or both are zero. */
  predicate InverseBits(x: bv8, y: bv8) {
    if x == 0 then y == 0 else Product(x, y) == 1
  }

  lemma FirstQuarter(x: bv8)
    requires x < 0x40
    ensures InverseBits(x, InvAffineBits(Look(x)))
  {
  }

  lemma SecondQuarter(x: bv8)
    requires 0x40 <= x < 0x80
    ensures InverseBits(x, InvAffineBits(Look(x)))
  {
  }

  lemma ThirdQuarter(x: bv8)
    requires 0x80 <= x < 0xc0
    ensures InverseBits(x, InvAffineBits(Look(x)))
  {
  }

  lemma LastQuarter(x: bv8)
    requires 0xc0 <= x
    ensures InverseBits(x, InvAffineBits(Look(x)))
  {
  }

  lemma LookIsInverse(x: bv8)
    ensures InverseBits(x, InvAffineBits(Look(x)))
  {
    hide *;
    if x < 0x40 {
      FirstQuarter(x);
    } else if x < 0x80 {
      SecondQuarter(x);
    } else if x < 0xc0 {
      ThirdQuarter(x);
    } else {
      LastQuarter(x);
    }
  }

  lemma InverseIsInverse(x: bv8, y: bv8)
    requires InverseBits(x, y)
    ensures if x == 0 then y == 0 else Times(Byte(x), Byte(y)) == Byte(1)
  {
    ProductIsTimes(x, y);
    hide Product, Times;
  }

  /** Every table entry is the affine transformation of the inverse of its index, zero standing for its own inverse. */
  lemma SBoxIsStandard(x: Byte)
    ensures var y := InvAffine(SBox(x));
            SBox(x) == Affine(y) && (if x == Byte(0) then y == Byte(0) else Times(x, y) == Byte(1))
  {
    AffineInverts(SBox(x));
    hide Affine, Look, Times, InvAffineBits, InverseBits;
    LookIsInverse(x.v);
    InverseIsInverse(x.v, InvAffineBits(Look(x.v)));
  }
}
