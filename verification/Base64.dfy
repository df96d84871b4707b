/** fwd/src/base64.c: binary to Base64 and back, without and with padding. */
module Base64 {
  import opened BitStrings
  import opened Bytes
  import opened Options

  // ---------- the alphabet ----------

  /** '='. */
  const CODE_PAD := Byte(61)

  /** None where the program exits. */
  function CodeToChar(x: Byte): Option<Byte> {
    if x.v <= 25 then Some(Byte(65 + x.v))               // 'A' + x
    else if x.v <= 51 then Some(Byte(97 + (x.v - 26)))   // 'a' + (x - 26)
    else if x.v <= 61 then Some(Byte(48 + (x.v - 52)))   // '0' + (x - 52)
    else if x.v == 62 then Some(Byte(43))                // '+'
    else if x.v == 63 then Some(Byte(47))                // '/'
    else None
  }

  /** None where the program exits. */
  function CharToCode(c: Byte): Option<Byte> {
    if 65 <= c.v <= 90 then Some(Byte(c.v - 65))
    else if 97 <= c.v <= 122 then Some(Byte(c.v - 97 + 26))
    else if 48 <= c.v <= 57 then Some(Byte(c.v - 48 + 52))
    else if c.v == 43 then Some(Byte(62))
    else if c.v == 47 then Some(Byte(63))
    else None
  }

  predicate IsCode(x: Byte) {
    x.v < 64
  }

  lemma CodesHaveChars(x: Byte)
    ensures CodeToChar(x).Some? <==> IsCode(x)
    ensures IsCode(x) ==> CharToCode(CodeToChar(x).value) == Some(x)
  {
  }

  lemma CharsHaveCodes(c: Byte)
    ensures CharToCode(c).Some? ==> IsCode(CharToCode(c).value) && CodeToChar(CharToCode(c).value) == Some(c)
    ensures CharToCode(CODE_PAD) == None
  {
  }

  // ---------- blocks of three bytes and four characters ----------

  /** The 24 bits of a block, in a uint32_t. */
  datatype Block = Block(v: bv32)

  function FromBytes(x: Byte, y: Byte, z: Byte): Block {
    Block(((x.v as bv32) << 16) | ((y.v as bv32) << 8) | (z.v as bv32))
  }

  function FromCodes(p: Byte, q: Byte, r: Byte, s: Byte): Block {
    Block((((p.v as bv32) & 0x3f) << 18) | (((q.v as bv32) & 0x3f) << 12)
          | (((r.v as bv32) & 0x3f) << 6) | ((s.v as bv32) & 0x3f))
  }

  function Sextet(b: Block, k: nat): Byte
    requires k < 4
  {
    if k == 0 then Byte(((b.v >> 18) & 0x3f) as bv8)
    else if k == 1 then Byte(((b.v >> 12) & 0x3f) as bv8)
    else if k == 2 then Byte(((b.v >> 6) & 0x3f) as bv8)
    else Byte((b.v & 0x3f) as bv8)
  }

  function Octet(b: Block, k: nat): Byte
    requires k < 3
  {
    if k == 0 then Byte(((b.v >> 16) & 0xff) as bv8)
    else if k == 1 then Byte(((b.v >> 8) & 0xff) as bv8)
    else Byte((b.v & 0xff) as bv8)
  }

  predicate Bits24(b: Block) {
    b.v < 0x1000000
  }

  lemma SextetsOfBlock(b: Block)
    requires Bits24(b)
    ensures FromCodes(Sextet(b, 0), Sextet(b, 1), Sextet(b, 2), Sextet(b, 3)) == b
  {
  }

  lemma SextetsAreCodes(b: Block)
    ensures IsCode(Sextet(b, 0)) && IsCode(Sextet(b, 1)) && IsCode(Sextet(b, 2)) && IsCode(Sextet(b, 3))
  {
  }

  lemma OctetsOfBytes(x: Byte, y: Byte, z: Byte)
    ensures var b := FromBytes(x, y, z); Bits24(b) && Octet(b, 0) == x && Octet(b, 1) == y && Octet(b, 2) == z
  {
  }

  lemma OctetsOfBlock(b: Block)
    requires Bits24(b)
    ensures FromBytes(Octet(b, 0), Octet(b, 1), Octet(b, 2)) == b
  {
  }

  lemma SextetsOfCodes(p: Byte, q: Byte, r: Byte, s: Byte)
    requires IsCode(p) && IsCode(q) && IsCode(r) && IsCode(s)
    ensures var b := FromCodes(p, q, r, s);
            Bits24(b) && Sextet(b, 0) == p && Sextet(b, 1) == q && Sextet(b, 2) == r && Sextet(b, 3) == s
  {
  }

  /** Bytes that are not there leave zero bits. */
  lemma MissingBytes(x: Byte, y: Byte)
    ensures Sextet(FromBytes(x, y, Byte(0)), 3) == Byte(0) && Sextet(FromBytes(x, Byte(0), Byte(0)), 2) == Byte(0)
    ensures FromBytes(Byte(0), Byte(0), Byte(0)) == FromCodes(Byte(0), Byte(0), Byte(0), Byte(0))
  {
  }

  /** The code has no bits in its lower four, or two, places. */
  predicate LowBitsZero(q: Byte, bits: nat) {
    if bits == 4 then q.v & 15 == 0 else q.v & 3 == 0
  }

  lemma TwoCodes(p: Byte, q: Byte)
    requires IsCode(p) && IsCode(q)
    ensures var b := FromBytes(Octet(FromCodes(p, q, Byte(0), Byte(0)), 0), Byte(0), Byte(0));
            Sextet(b, 0) == p && (Sextet(b, 1) == q <==> LowBitsZero(q, 4))
  {
  }

  lemma ThreeCodes(p: Byte, q: Byte, r: Byte)
    requires IsCode(p) && IsCode(q) && IsCode(r)
    ensures var a := FromCodes(p, q, r, Byte(0));
            var b := FromBytes(Octet(a, 0), Octet(a, 1), Byte(0));
            Sextet(b, 0) == p && Sextet(b, 1) == q && (Sextet(b, 2) == r <==> LowBitsZero(r, 2))
  {
  }

  // ---------- parts of a string: up to three bytes, up to four characters ----------

  function Char(x: Byte): Byte
    requires IsCode(x)
  {
    CodesHaveChars(x);
    CodeToChar(x).value
  }

  predicate Alphabet(c: seq<Byte>) {
    forall i :: 0 <= i < |c| ==> CharToCode(c[i]).Some?
  }

  lemma AlphabetParts(c: seq<Byte>, n: nat)
    requires n <= |c|
    ensures Alphabet(c) <==> Alphabet(c[..n]) && Alphabet(c[n..])
  {
    assert c == c[..n] + c[n..];
  }

  /** The bits of up to three bytes. */
  function BytesToBlock(s: seq<Byte>): Block {
    FromBytes(if |s| > 0 then s[0] else Byte(0), if |s| > 1 then s[1] else Byte(0), if |s| > 2 then s[2] else Byte(0))
  }

  function CodeAt(c: seq<Byte>, i: nat): Byte
    requires Alphabet(c)
  {
    if i < |c| then CharToCode(c[i]).value else Byte(0)
  }

  /** The bits of up to four characters. */
  function CharsToBlock(c: seq<Byte>): Block
    requires Alphabet(c)
  {
    FromCodes(CodeAt(c, 0), CodeAt(c, 1), CodeAt(c, 2), CodeAt(c, 3))
  }

  function BlockChar(b: Block, k: nat): Byte
    requires k < 4
  {
    SextetsAreCodes(b);
    Char(Sextet(b, k))
  }

  function BlockChars(b: Block, n: nat): (c: seq<Byte>)
    requires n <= 4
    ensures |c| == n
  {
    [BlockChar(b, 0), BlockChar(b, 1), BlockChar(b, 2), BlockChar(b, 3)][..n]
  }

  function BlockBytes(b: Block, n: nat): (s: seq<Byte>)
    requires n <= 3
    ensures |s| == n
  {
    [Octet(b, 0), Octet(b, 1), Octet(b, 2)][..n]
  }

  lemma BlockCharIs(b: Block, k: nat)
    requires k < 4
    ensures CharToCode(BlockChar(b, k)) == Some(Sextet(b, k))
  {
    SextetsAreCodes(b);
    CodesHaveChars(Sextet(b, k));
  }

  lemma CharsOfBlock(b: Block, n: nat)
    requires n <= 4
    ensures var c := BlockChars(b, n);
            Alphabet(c) && forall i :: 0 <= i < 4 ==> CodeAt(c, i) == if i < n then Sextet(b, i) else Byte(0)
  {
    hide BlockChar, Sextet;
    BlockCharIs(b, 0);
    BlockCharIs(b, 1);
    BlockCharIs(b, 2);
    BlockCharIs(b, 3);
    hide CharToCode;
  }

  /** How many characters a part of so many bytes needs, and how many bytes a part of so many characters gives. */
  function CharsFor(bytes: nat): nat {
    if bytes == 0 then 0 else bytes + 1
  }

  function BytesFor(chars: nat): nat {
    if chars == 0 then 0 else chars - 1
  }

  lemma LowSextets(s: seq<Byte>)
    requires |s| <= 3
    ensures var b := BytesToBlock(s);
            && Bits24(b) && (|s| <= 2 ==> Sextet(b, 3) == Byte(0)) && (|s| <= 1 ==> Sextet(b, 2) == Byte(0))
            && (|s| == 0 ==> b == FromCodes(Byte(0), Byte(0), Byte(0), Byte(0)))
  {
    var (x, y, z) :=
      (if |s| > 0 then s[0] else Byte(0), if |s| > 1 then s[1] else Byte(0), if |s| > 2 then s[2] else Byte(0));
    OctetsOfBytes(x, y, z);
    MissingBytes(x, y);
    hide Sextet, FromBytes, FromCodes, Octet;
  }

  /** The characters of a part determine its bits. */
  lemma PartToChars(s: seq<Byte>)
    requires |s| <= 3
    ensures var c := BlockChars(BytesToBlock(s), CharsFor(|s|)); Alphabet(c) && CharsToBlock(c) == BytesToBlock(s)
  {
    var b := BytesToBlock(s);
    LowSextets(s);
    hide Sextet, BytesToBlock, BlockChars, CodeAt, Alphabet, FromCodes, Bits24;
    CharsOfBlock(b, CharsFor(|s|));
    SextetsOfBlock(b);
  }

  lemma PartToBytes(s: seq<Byte>)
    requires |s| <= 3
    ensures BlockBytes(BytesToBlock(s), |s|) == s
  {
    OctetsOfBytes(if |s| > 0 then s[0] else Byte(0), if |s| > 1 then s[1] else Byte(0),
                  if |s| > 2 then s[2] else Byte(0));
    hide Octet, FromBytes;
  }

  // ---------- whole strings ----------

  /** Three bytes give four characters; one or two bytes at the end give two or three. */
  function EncodeNoPad(s: seq<Byte>): seq<Byte> {
    if |s| < 3 then BlockChars(BytesToBlock(s), CharsFor(|s|))
    else BlockChars(BytesToBlock(s[..3]), 4) + EncodeNoPad(s[3..])
  }

  /** Every character is in the alphabet, and none is left alone at the end. */
  predicate Decodable(c: seq<Byte>) {
    Alphabet(c) && |c| % 4 != 1
  }

  lemma DecodableRest(c: seq<Byte>)
    requires |c| >= 4
    ensures Decodable(c) <==> Alphabet(c[..4]) && Decodable(c[4..])
  {
    AlphabetParts(c, 4);
    hide Alphabet;
  }

  function DecodeNoPad(c: seq<Byte>): seq<Byte>
    requires Decodable(c)
  {
    if |c| < 4 then BlockBytes(CharsToBlock(c), BytesFor(|c|))
    else
      DecodableRest(c);
      BlockBytes(CharsToBlock(c[..4]), 3) + DecodeNoPad(c[4..])
  }

  lemma {:induction false} EncodedLength(s: seq<Byte>)
    ensures |EncodeNoPad(s)| == 4 * (|s| / 3) + CharsFor(|s| % 3)
  {
    if |s| >= 3 {
      EncodedLength(s[3..]);
    }
  }

  lemma NotOne(c: seq<Byte>)
    requires Decodable(c)
    ensures |c| != 1 && Alphabet(c)
  {
  }

  // ---------- decoding undoes encoding ----------

  lemma Split<T>(a: seq<T>, b: seq<T>)
    ensures (a + b)[..|a|] == a && (a + b)[|a|..] == b
  {
  }

  lemma FirstBlock(a: seq<Byte>, b: seq<Byte>)
    requires |a| == 4 && Alphabet(a) && Decodable(b)
    ensures Decodable(a + b) && DecodeNoPad(a + b) == BlockBytes(CharsToBlock(a), 3) + DecodeNoPad(b)
  {
    Split(a, b);
    DecodableRest(a + b);
    hide Decodable, Alphabet, CharsToBlock, BlockBytes;
  }

  lemma LastPart(c: seq<Byte>)
    requires |c| < 4 && |c| != 1 && Alphabet(c)
    ensures Decodable(c) && DecodeNoPad(c) == BlockBytes(CharsToBlock(c), BytesFor(|c|))
  {
    hide Alphabet, CharsToBlock, BlockBytes;
  }

  /** Decoding an encoded string gives it back. */
  lemma {:induction false} RoundTrip(s: seq<Byte>)
    ensures Decodable(EncodeNoPad(s)) && DecodeNoPad(EncodeNoPad(s)) == s
  {
    hide Decodable, DecodeNoPad, Alphabet, CharsToBlock, BytesToBlock, BlockChars, BlockBytes;
    if |s| < 3 {
      PartToChars(s);
      PartToBytes(s);
      LastPart(BlockChars(BytesToBlock(s), CharsFor(|s|)));
    } else {
      PartToChars(s[..3]);
      PartToBytes(s[..3]);
      RoundTrip(s[3..]);
      FirstBlock(BlockChars(BytesToBlock(s[..3]), 4), EncodeNoPad(s[3..]));
    }
  }

  // ---------- encoding undoes decoding ----------

  /** The bits of the last character that no byte uses. */
  predicate UnusedBitsZero(c: seq<Byte>)
    requires Decodable(c)
  {
    && (|c| % 4 == 2 ==> LowBitsZero(CodeAt(c, |c| - 1), 4))
    && (|c| % 4 == 3 ==> LowBitsZero(CodeAt(c, |c| - 1), 2))
  }

  lemma SameChar(c: Byte, b: Block, k: nat)
    requires CharToCode(c).Some? && k < 4
    ensures BlockChar(b, k) == c <==> Sextet(b, k) == CharToCode(c).value
  {
    BlockCharIs(b, k);
    CharsHaveCodes(c);
    hide CharToCode, Sextet, CodeToChar;
  }

  lemma SameChars(c: seq<Byte>, b: Block)
    requires |c| <= 4 && Alphabet(c)
    ensures BlockChars(b, |c|) == c <==> forall i :: 0 <= i < |c| ==> Sextet(b, i) == CodeAt(c, i)
  {
    forall i | 0 <= i < |c|
      ensures BlockChars(b, |c|)[i] == c[i] <==> Sextet(b, i) == CodeAt(c, i)
    {
      SameChar(c[i], b, i);
      hide CharToCode, Sextet, CodeToChar, BlockChar;
    }
    hide CharToCode, Sextet, CodeToChar, BlockChar, BlockChars, CodeAt;
  }

  lemma CodesAreCodes(c: seq<Byte>, i: nat)
    requires Alphabet(c)
    ensures IsCode(CodeAt(c, i))
  {
    if i < |c| {
      CharsHaveCodes(c[i]);
    }
    hide CharToCode;
  }

  /** A part as it is encoded again. */
  function Reencoded(c: seq<Byte>): seq<Byte>
    requires |c| <= 4 && Decodable(c)
  {
    BlockChars(BytesToBlock(BlockBytes(CharsToBlock(c), BytesFor(|c|))), |c|)
  }

  lemma ReencodedFour(c: seq<Byte>)
    requires |c| == 4 && Alphabet(c)
    ensures Reencoded(c) == c
  {
    hide Sextet, Octet, IsCode, Alphabet, CodeAt, FromCodes, FromBytes, BlockChars, Bits24, BytesToBlock, BlockBytes;
    CodesAreCodes(c, 0);
    CodesAreCodes(c, 1);
    CodesAreCodes(c, 2);
    CodesAreCodes(c, 3);
    SextetsOfCodes(CodeAt(c, 0), CodeAt(c, 1), CodeAt(c, 2), CodeAt(c, 3));
    ThreeBytes(CharsToBlock(c));
    SameChars(c, CharsToBlock(c));
  }

  lemma ThreeBytes(b: Block)
    requires Bits24(b)
    ensures BytesToBlock(BlockBytes(b, 3)) == b
  {
    OctetsOfBlock(b);
    hide Octet, FromBytes;
  }

  lemma ReencodedThree(c: seq<Byte>)
    requires |c| == 3 && Alphabet(c)
    ensures Reencoded(c) == c <==> LowBitsZero(CodeAt(c, 2), 2)
  {
    CodesAreCodes(c, 0);
    CodesAreCodes(c, 1);
    CodesAreCodes(c, 2);
    MissingCode(c);
    hide Sextet, Octet, IsCode, Alphabet, CodeAt, FromCodes, FromBytes, BlockChars, LowBitsZero;
    ThreeCodes(CodeAt(c, 0), CodeAt(c, 1), CodeAt(c, 2));
    SameChars(c, BytesToBlock(BlockBytes(CharsToBlock(c), 2)));
  }

  lemma ReencodedTwo(c: seq<Byte>)
    requires |c| == 2 && Alphabet(c)
    ensures Reencoded(c) == c <==> LowBitsZero(CodeAt(c, 1), 4)
  {
    CodesAreCodes(c, 0);
    CodesAreCodes(c, 1);
    MissingCode(c);
    hide Sextet, Octet, IsCode, Alphabet, CodeAt, FromCodes, FromBytes, BlockChars, LowBitsZero;
    TwoCodes(CodeAt(c, 0), CodeAt(c, 1));
    SameChars(c, BytesToBlock(BlockBytes(CharsToBlock(c), 1)));
  }

  /** A last part encodes to itself exactly if its unused bits are zero. */
  lemma PartReencodes(c: seq<Byte>)
    requires |c| < 4 && Decodable(c)
    ensures Reencoded(c) == c <==> UnusedBitsZero(c)
  {
    hide Reencoded, LowBitsZero, CodeAt, Alphabet;
    if |c| == 3 {
      ReencodedThree(c);
    } else if |c| == 2 {
      ReencodedTwo(c);
    } else {
      NothingReencoded(c);
    }
  }

  lemma NothingReencoded(c: seq<Byte>)
    requires |c| == 0
    ensures Reencoded(c) == []
  {
  }

  lemma MissingCode(c: seq<Byte>)
    requires Alphabet(c)
    ensures (|c| <= 3 ==> CodeAt(c, 3) == Byte(0)) && (|c| <= 2 ==> CodeAt(c, 2) == Byte(0))
  {
  }

  lemma EncodeFirst(a: seq<Byte>, b: seq<Byte>)
    requires |a| == 3
    ensures EncodeNoPad(a + b) == BlockChars(BytesToBlock(a), 4) + EncodeNoPad(b)
  {
    Split(a, b);
    hide BytesToBlock, BlockChars;
  }

  lemma BlocksLeft(size: nat, i: nat)
    requires 4 * i <= size
    ensures (size - 4 * i) % 4 == size % 4
  {
  }

  lemma UnusedBitsOfRest(c: seq<Byte>)
    requires Decodable(c) && |c| >= 4
    ensures Decodable(c[4..]) && (UnusedBitsZero(c[4..]) <==> UnusedBitsZero(c))
  {
    DecodableRest(c);
    BlocksLeft(|c|, 1);
    hide LowBitsZero, CharToCode, Alphabet, Decodable;
    assert |c| % 4 >= 2 ==> c[4..][|c| - 5] == c[|c| - 1];
  }

  lemma SameFront<T>(a: seq<T>, x: seq<T>, y: seq<T>)
    ensures a + x == a + y <==> x == y
  {
    Split(a, x);
    Split(a, y);
  }

  /** A decodable string encodes to itself again exactly if the unused bits of its last character are zero. */
  lemma {:induction false} ReencodeIff(c: seq<Byte>)
    requires Decodable(c)
    ensures EncodeNoPad(DecodeNoPad(c)) == c <==> UnusedBitsZero(c)
  {
    hide Decodable, Alphabet, CharsToBlock, BytesToBlock, BlockChars, BlockBytes, UnusedBitsZero, EncodeNoPad;
    if |c| < 4 {
      PartReencodes(c);
      LastEncoded(c);
    } else {
      var (first, rest) := (c[..4], c[4..]);
      DecodableRest(c);
      UnusedBitsOfRest(c);
      ReencodedFour(first);
      ReencodeIff(rest);
      EncodeFirst(BlockBytes(CharsToBlock(first), 3), DecodeNoPad(rest));
      SameFront(first, EncodeNoPad(DecodeNoPad(rest)), rest);
      assert c == first + rest;
    }
  }

  lemma LastEncoded(c: seq<Byte>)
    requires |c| < 4 && Decodable(c)
    ensures EncodeNoPad(DecodeNoPad(c)) == Reencoded(c)
  {
    NotOne(c);
    hide CharsToBlock, BytesToBlock, BlockChars, BlockBytes, Alphabet;
  }

  // ---------- padding ----------

  /** The characters that fill up the last group of four. */
  function Padding(s: seq<Byte>): seq<Byte> {
    if |s| % 3 == 1 then [CODE_PAD, CODE_PAD] else if |s| % 3 == 2 then [CODE_PAD] else []
  }

  function EncodePadded(s: seq<Byte>): seq<Byte> {
    EncodeNoPad(s) + Padding(s)
  }

  /** What b64_to_bin passes on. */
  function Stripped(c: seq<Byte>): seq<Byte> {
    if |c| % 4 == 0 && |c| >= 4 then
      if c[|c| - 2] == CODE_PAD then c[..|c| - 2]
      else if c[|c| - 1] == CODE_PAD then c[..|c| - 1]
      else c
    else c
  }

  lemma NoPadInside(c: seq<Byte>)
    requires Alphabet(c)
    ensures CODE_PAD !in c
  {
    forall i | 0 <= i < |c|
      ensures c[i] != CODE_PAD
    {
      CharsHaveCodes(c[i]);
      hide CharToCode;
    }
  }

  lemma StrippedPadding(c: seq<Byte>, n: nat)
    requires CODE_PAD !in c && (|c| + n) % 4 == 0 && (n == 0 || (n == 1 && |c| > 1) || (n == 2 && |c| > 0))
    ensures Stripped(c + (if n == 2 then [CODE_PAD, CODE_PAD] else if n == 1 then [CODE_PAD] else [])) == c
  {
    if n == 0 {
      assert c + [] == c;
    }
  }

  /** The padding fills up the last group; what is left of the text when it is taken off is no whole group. */
  lemma PaddingFits(s: seq<Byte>)
    ensures var (c, n) := (EncodeNoPad(s), |Padding(s)|);
            (|c| + n) % 4 == 0 && (n == 0 || (n == 1 && |c| > 1) || (n == 2 && |c| > 0))
  {
    EncodedLength(s);
    hide EncodeNoPad;
    var q := |s| / 3;
    assert |EncodeNoPad(s)| + |Padding(s)| == 4 * (q + if |s| % 3 == 0 then 0 else 1);
  }

  lemma NothingToStrip(c: seq<Byte>)
    requires CODE_PAD !in c
    ensures Stripped(c) == c
  {
  }

  /** b64_to_bin gives back what either encoder was given. */
  lemma PaddedRoundTrip(s: seq<Byte>)
    ensures |EncodePadded(s)| % 4 == 0
    ensures Stripped(EncodePadded(s)) == EncodeNoPad(s) == Stripped(EncodeNoPad(s))
    ensures Decodable(EncodeNoPad(s)) && DecodeNoPad(EncodeNoPad(s)) == s
  {
    hide EncodeNoPad, CharToCode, DecodeNoPad, Stripped, Alphabet;
    RoundTrip(s);
    var c := EncodeNoPad(s);
    NoPadInside(c);
    NothingToStrip(c);
    PaddingFits(s);
    StrippedPadding(c, |Padding(s)|);
  }

  function Pads(n: nat): seq<Byte> {
    if n == 2 then [CODE_PAD, CODE_PAD] else if n == 1 then [CODE_PAD] else []
  }

  lemma PaddingIs(s: seq<Byte>)
    ensures Padding(s) == Pads((4 - |EncodeNoPad(s)| % 4) % 4) && |EncodeNoPad(s)| % 4 != 1
  {
    EncodedLength(s);
    hide EncodeNoPad;
  }

  /**
   A string encodes to itself, padding included, exactly if the unused bits are zero and what b64_to_bin takes off
   is the padding of what it leaves.
   */
  lemma PaddedReencodeIff(c: seq<Byte>)
    requires Decodable(Stripped(c))
    ensures EncodePadded(DecodeNoPad(Stripped(c))) == c <==>
            UnusedBitsZero(Stripped(c)) && c == Stripped(c) + Pads((4 - |Stripped(c)| % 4) % 4)
  {
    hide Decodable, DecodeNoPad, EncodeNoPad, UnusedBitsZero, Padding, Stripped, Pads;
    var u := Stripped(c);
    var s := DecodeNoPad(u);
    ReencodeIff(u);
    PaddingIs(s);
    PaddedRoundTrip(s);
  }

  /** The padded decoder looks at one padding character only: it decodes `AA=B`, which no byte string encodes to. */
  lemma MisplacedPaddingIsDecoded()
    ensures var c := [Byte(0x41), Byte(0x41), CODE_PAD, Byte(0x42)];
            && Stripped(c) == [Byte(0x41), Byte(0x41)] && Decodable(Stripped(c))
            && EncodePadded(DecodeNoPad(Stripped(c))) != c
  {
    var c := [Byte(0x41), Byte(0x41), CODE_PAD, Byte(0x42)];
    assert Stripped(c) == [Byte(0x41), Byte(0x41)];
    assert CharToCode(Byte(0x41)).Some?;
    assert Decodable(Stripped(c));
    hide Decodable, DecodeNoPad, EncodeNoPad, UnusedBitsZero, CharToCode;
    PaddedReencodeIff(c);
    assert (Stripped(c) + Pads(2))[3] == CODE_PAD;
  }

  // ---------- section 4 of RFC 4648: the bits are regrouped ----------

  function Bit(x: Byte, k: nat): bool
    requires k < 8
  {
    if k == 0 then x.v & 1 != 0 else if k == 1 then x.v & 2 != 0 else if k == 2 then x.v & 4 != 0
    else if k == 3 then x.v & 8 != 0 else if k == 4 then x.v & 16 != 0 else if k == 5 then x.v & 32 != 0
    else if k == 6 then x.v & 64 != 0 else x.v & 128 != 0
  }

  function EightBits(x: Byte): (b: Bits)
    ensures |b| == 8
  {
    [Bit(x, 7), Bit(x, 6), Bit(x, 5), Bit(x, 4), Bit(x, 3), Bit(x, 2), Bit(x, 1), Bit(x, 0)]
  }

  function SixBits(x: Byte): (b: Bits)
    ensures |b| == 6
  {
    [Bit(x, 5), Bit(x, 4), Bit(x, 3), Bit(x, 2), Bit(x, 1), Bit(x, 0)]
  }

  /** The bits of the bytes, the highest of the first byte first. */
  function ByteBits(s: seq<Byte>): (b: Bits)
    ensures |b| == 8 * |s|
  {
    if s == [] then [] else ByteBits(s[..|s| - 1]) + EightBits(s[|s| - 1])
  }

  /** The bits that the characters stand for, six each. */
  function CharBits(c: seq<Byte>): (b: Bits)
    requires Alphabet(c)
    ensures |b| == 6 * |c|
  {
    if c == [] then [] else CharBits(c[..|c| - 1]) + SixBits(CharToCode(c[|c| - 1]).value)
  }

  lemma {:induction false} ByteBitsJoin(a: seq<Byte>, b: seq<Byte>)
    ensures ByteBits(a + b) == ByteBits(a) + ByteBits(b)
  {
    hide EightBits;
    if b == [] {
      assert a + b == a;
    } else {
      ByteBitsJoin(a, b[..|b| - 1]);
      assert (a + b)[..|a + b| - 1] == a + b[..|b| - 1];
    }
  }

  lemma AlphabetJoins(a: seq<Byte>, b: seq<Byte>)
    ensures Alphabet(a + b) <==> Alphabet(a) && Alphabet(b)
  {
    Split(a, b);
    AlphabetParts(a + b, |a|);
    hide Alphabet;
  }

  lemma {:induction false} CharBitsJoin(a: seq<Byte>, b: seq<Byte>)
    requires Alphabet(a) && Alphabet(b)
    ensures Alphabet(a + b) && CharBits(a + b) == CharBits(a) + CharBits(b)
  {
    hide SixBits, CharToCode;
    AlphabetJoins(a, b);
    if b == [] {
      assert a + b == a;
    } else {
      AlphabetParts(b, |b| - 1);
      CharBitsJoin(a, b[..|b| - 1]);
      assert (a + b)[..|a + b| - 1] == a + b[..|b| - 1];
    }
  }

  /** The six-bit groups of three bytes. */
  lemma Regrouped(x: Byte, y: Byte, z: Byte)
    ensures var b := FromBytes(x, y, z);
            SixBits(Sextet(b, 0)) + SixBits(Sextet(b, 1)) + SixBits(Sextet(b, 2)) + SixBits(Sextet(b, 3))
            == EightBits(x) + EightBits(y) + EightBits(z)
  {
    FirstGroup(x, y, z);
    SecondGroup(x, y, z);
    ThirdGroup(x, y, z);
    FourthGroup(x, y, z);
    Slices(EightBits(x), EightBits(y), EightBits(z));
    hide SixBits, EightBits, FromBytes, Sextet;
  }

  lemma Slices<T>(x: seq<T>, y: seq<T>, z: seq<T>)
    requires |x| == |y| == |z| == 8
    ensures x[..6] + (x[6..] + y[..4]) + (y[4..] + z[..2]) + z[2..] == x + y + z
  {
  }

  lemma FirstGroup(x: Byte, y: Byte, z: Byte)
    ensures SixBits(Sextet(FromBytes(x, y, z), 0)) == EightBits(x)[..6]
  {
  }

  lemma SecondBits(x: Byte, y: Byte, z: Byte)
    ensures var q := Sextet(FromBytes(x, y, z), 1);
            && Bit(q, 5) == Bit(x, 1) && Bit(q, 4) == Bit(x, 0)
            && Bit(q, 3) == Bit(y, 7) && Bit(q, 2) == Bit(y, 6) && Bit(q, 1) == Bit(y, 5) && Bit(q, 0) == Bit(y, 4)
  {
  }

  lemma SecondGroup(x: Byte, y: Byte, z: Byte)
    ensures SixBits(Sextet(FromBytes(x, y, z), 1)) == EightBits(x)[6..] + EightBits(y)[..4]
  {
    SecondBits(x, y, z);
    hide Bit, Sextet, FromBytes;
  }

  lemma ThirdBits(x: Byte, y: Byte, z: Byte)
    ensures var r := Sextet(FromBytes(x, y, z), 2);
            && Bit(r, 5) == Bit(y, 3) && Bit(r, 4) == Bit(y, 2) && Bit(r, 3) == Bit(y, 1) && Bit(r, 2) == Bit(y, 0)
            && Bit(r, 1) == Bit(z, 7) && Bit(r, 0) == Bit(z, 6)
  {
  }

  lemma ThirdGroup(x: Byte, y: Byte, z: Byte)
    ensures SixBits(Sextet(FromBytes(x, y, z), 2)) == EightBits(y)[4..] + EightBits(z)[..2]
  {
    ThirdBits(x, y, z);
    hide Bit, Sextet, FromBytes;
  }

  lemma FourthGroup(x: Byte, y: Byte, z: Byte)
    ensures SixBits(Sextet(FromBytes(x, y, z), 3)) == EightBits(z)[2..]
  {
  }

  /** The bits of the first characters of a block. */
  lemma {:induction false} CharBitsOfBlock(b: Block, n: nat)
    requires n < 4
    ensures Alphabet(BlockChars(b, n)) && Alphabet(BlockChars(b, n + 1))
    ensures CharBits(BlockChars(b, n + 1)) == CharBits(BlockChars(b, n)) + SixBits(Sextet(b, n))
  {
    CharsOfBlock(b, n);
    CharsOfBlock(b, n + 1);
    BlockCharIs(b, n);
    hide Alphabet, CharToCode, Sextet, BlockChar, SixBits;
    assert BlockChars(b, n + 1)[..n] == BlockChars(b, n) && BlockChars(b, n + 1)[n] == BlockChar(b, n);
  }

  lemma FirstChars(b: Block)
    ensures Alphabet(BlockChars(b, 0)) && CharBits(BlockChars(b, 0)) == []
    ensures Alphabet(BlockChars(b, 2)) && CharBits(BlockChars(b, 2)) == SixBits(Sextet(b, 0)) + SixBits(Sextet(b, 1))
    ensures Alphabet(BlockChars(b, 3))
            && CharBits(BlockChars(b, 3)) == CharBits(BlockChars(b, 2)) + SixBits(Sextet(b, 2))
    ensures Alphabet(BlockChars(b, 4))
            && CharBits(BlockChars(b, 4)) == CharBits(BlockChars(b, 3)) + SixBits(Sextet(b, 3))
  {
    CharBitsOfBlock(b, 0);
    CharBitsOfBlock(b, 1);
    CharBitsOfBlock(b, 2);
    CharBitsOfBlock(b, 3);
    hide Alphabet, SixBits, Sextet;
    assert BlockChars(b, 0) == [];
    hide BlockChars;
  }

  lemma FirstBytes(s: seq<Byte>)
    requires |s| <= 3
    ensures ByteBits(s) == if |s| == 0 then [] else if |s| == 1 then EightBits(s[0])
                           else if |s| == 2 then EightBits(s[0]) + EightBits(s[1])
                           else EightBits(s[0]) + EightBits(s[1]) + EightBits(s[2])
  {
    hide EightBits;
    if |s| >= 2 {
      FirstBytes(s[..|s| - 1]);
    }
  }

  lemma ZeroByte()
    ensures EightBits(Byte(0))[..4] == Zero(4) && EightBits(Byte(0))[..2] == Zero(2)
  {
  }

  /** How many zero bits fill up the last character. */
  function FillBits(bytes: nat): nat {
    if bytes == 1 then 4 else if bytes == 2 then 2 else 0
  }

  predicate PartRegroups(s: seq<Byte>)
    requires |s| <= 3
  {
    var c := BlockChars(BytesToBlock(s), CharsFor(|s|));
    Alphabet(c) && CharBits(c) == ByteBits(s) + Zero(FillBits(|s|))
  }

  lemma OneByteRegroups(s: seq<Byte>)
    requires |s| == 1
    ensures PartRegroups(s)
  {
    var zero := Byte(0);
    FirstBytes(s);
    FirstChars(FromBytes(s[0], zero, zero));
    FirstGroup(s[0], zero, zero);
    SecondGroup(s[0], zero, zero);
    ZeroByte();
    hide SixBits, EightBits, FromBytes, Sextet, CharBits, ByteBits, BlockChars, Alphabet;
    FillOne(EightBits(s[0]), Zero(4));
  }

  lemma FillOne<T>(x: seq<T>, z: seq<T>)
    requires |x| == 8
    ensures x[..6] + (x[6..] + z) == x + z
  {
  }

  lemma TwoBytesRegroup(s: seq<Byte>)
    requires |s| == 2
    ensures PartRegroups(s)
  {
    var zero := Byte(0);
    FirstBytes(s);
    FirstChars(FromBytes(s[0], s[1], zero));
    FirstGroup(s[0], s[1], zero);
    SecondGroup(s[0], s[1], zero);
    ThirdGroup(s[0], s[1], zero);
    ZeroByte();
    hide SixBits, EightBits, FromBytes, Sextet, CharBits, ByteBits, BlockChars, Alphabet;
    FillTwo(EightBits(s[0]), EightBits(s[1]), Zero(2));
  }

  lemma FillTwo<T>(x: seq<T>, y: seq<T>, z: seq<T>)
    requires |x| == 8 && |y| == 8
    ensures x[..6] + (x[6..] + y[..4]) + (y[4..] + z) == x + y + z
  {
  }

  lemma ThreeBytesRegroup(s: seq<Byte>)
    requires |s| == 3
    ensures PartRegroups(s)
  {
    FirstBytes(s);
    FirstChars(FromBytes(s[0], s[1], s[2]));
    Regrouped(s[0], s[1], s[2]);
    hide SixBits, EightBits, FromBytes, Sextet, CharBits, ByteBits, BlockChars, Alphabet;
    NothingAdded(ByteBits(s), Zero(0));
  }

  lemma NothingAdded<T>(x: seq<T>, z: seq<T>)
    requires |z| == 0
    ensures x + z == x
  {
  }

  lemma PartBits(s: seq<Byte>)
    requires |s| <= 3
    ensures PartRegroups(s)
  {
    if |s| == 1 {
      OneByteRegroups(s);
    } else if |s| == 2 {
      TwoBytesRegroup(s);
    } else if |s| == 3 {
      ThreeBytesRegroup(s);
    } else {
      NothingRegroups(s);
    }
    hide PartRegroups;
  }

  lemma NothingRegroups(s: seq<Byte>)
    requires |s| == 0
    ensures PartRegroups(s)
  {
    FirstChars(BytesToBlock(s));
    hide BlockChars, BytesToBlock;
  }

  /**
   The encoding is the bit string of the input, filled up with zeros to a multiple of six, read six bits at a time.
   */
  lemma {:induction false} EncodingRegroupsBits(s: seq<Byte>)
    ensures Alphabet(EncodeNoPad(s)) && CharBits(EncodeNoPad(s)) == ByteBits(s) + Zero(FillBits(|s| % 3))
  {
    hide CharBits, ByteBits, BlockChars, BytesToBlock, Alphabet;
    if |s| < 3 {
      PartBits(s);
    } else {
      var (first, rest) := (s[..3], s[3..]);
      PartBits(first);
      NothingAdded(ByteBits(first), Zero(0));
      EncodingRegroupsBits(rest);
      CharBitsJoin(BlockChars(BytesToBlock(first), 4), EncodeNoPad(rest));
      ByteBitsJoin(first, rest);
      assert s == first + rest;
      Regrouping(ByteBits(first), ByteBits(rest), Zero(FillBits(|s| % 3)));
    }
  }

  // ---------- the program ----------

  lemma CharOfBlock(b: Block, n: nat, k: nat)
    requires k < n <= 4
    ensures BlockChars(b, n)[..k + 1] == BlockChars(b, n)[..k] + [BlockChar(b, k)]
  {
    hide BlockChar;
    var all := [BlockChar(b, 0), BlockChar(b, 1), BlockChar(b, 2), BlockChar(b, 3)];
    assert all[k] == BlockChar(b, k) by {
      assert k == 0 || k == 1 || k == 2 || k == 3;
    }
    assert BlockChars(b, n) == all[..n];
  }

  lemma ByteOfBlock(b: Block, n: nat, k: nat)
    requires k < n <= 3
    ensures BlockBytes(b, n)[..k + 1] == BlockBytes(b, n)[..k] + [Octet(b, k)]
  {
    hide Octet;
    var all := [Octet(b, 0), Octet(b, 1), Octet(b, 2)];
    assert all[k] == Octet(b, k) by {
      assert k == 0 || k == 1 || k == 2;
    }
    assert BlockBytes(b, n) == all[..n];
  }

  /** The first `n` characters of a block are written at `at`. */
  method PutChars(out: array<Byte>, at: nat, b: Block, n: nat)
    requires n <= 4 && at + n <= out.Length
    modifies out
    ensures out[..at + n] == old(out[..at]) + BlockChars(b, n) && out[at + n..] == old(out[at + n..])
  {
    hide BlockChar, BlockChars;
    var k := 0;
    while k < n
      invariant 0 <= k <= n
      invariant out[..at + k] == old(out[..at]) + BlockChars(b, n)[..k] && out[at + k..] == old(out[at + k..])
    {
      CharOfBlock(b, n, k);
      out[at + k] := BlockChar(b, k);
      k := k + 1;
    }
  }

  /** What the buffer holds after `text` and a null character have been written to it. */
  function Terminated(before: seq<Byte>, text: seq<Byte>): seq<Byte>
    requires |text| < |before|
  {
    text + [Byte(0)] + before[|text| + 1..]
  }

  /**
   bin_to_b64_nopad. Nothing is written if the buffer is too small; an empty input writes the null character
   without looking at the size of the buffer.
   */
  method BinToB64NoPad(inp: array?<Byte>, size: nat, out: array?<Byte>, maxLen: int) returns (rc: int)
    requires inp != null ==> size <= inp.Length && inp != out
    requires out != null ==> maxLen <= out.Length && (size == 0 ==> out.Length > 0)
    modifies out
    ensures inp == null || out == null ==> rc == -1
    ensures inp != null && out != null ==>
              var text := EncodeNoPad(inp[..size]);
              if size == 0 || maxLen > |text|
              then rc == |text| < out.Length && out[..] == Terminated(old(out[..]), text)
              else rc == -1 && out[..] == old(out[..])
  {
    if out == null || inp == null {
      return -1;
    }
    ghost var s := inp[..size];
    if size == 0 {
      EmptyText(s);
      out[0] := Byte(0);
      return 0;
    }
    var fullBlocks := size / 3;
    var lastChars := CharsFor(size % 3);
    EncodedLength(s);
    if maxLen < 4 * fullBlocks + lastChars + 1 {
      return -1;
    }
    EncodeAll(inp, size, out);
    rc := 4 * fullBlocks + lastChars;
  }

  lemma EmptyText(s: seq<Byte>)
    requires s == []
    ensures EncodeNoPad(s) == []
  {
  }

  lemma EncodeStep(s: seq<Byte>)
    ensures EncodeNoPad(s) ==
            if |s| < 3 then BlockChars(BytesToBlock(s), CharsFor(|s|))
            else BlockChars(FromBytes(s[0], s[1], s[2]), 4) + EncodeNoPad(s[3..])
  {
    hide BlockChars, FromBytes;
  }

  lemma Regrouping<T>(a: seq<T>, b: seq<T>, c: seq<T>)
    ensures a + (b + c) == a + b + c
  {
  }

  lemma EncodeStepAt(s: seq<Byte>, i: nat)
    requires 3 * i + 3 <= |s|
    ensures EncodeNoPad(s[3 * i..]) ==
            BlockChars(FromBytes(s[3 * i], s[3 * i + 1], s[3 * i + 2]), 4) + EncodeNoPad(s[3 * (i + 1)..])
  {
    EncodeStep(s[3 * i..]);
    hide EncodeNoPad, BlockChars, FromBytes;
    assert s[3 * i..][3..] == s[3 * (i + 1)..];
  }

  /** The characters of `i` full blocks are in the buffer, and nothing else is changed. */
  ghost predicate Encoding(s: seq<Byte>, i: nat, before: seq<Byte>, now: seq<Byte>) {
    && 3 * i <= |s| && 4 * i <= |now| == |before| && now[4 * i..] == before[4 * i..]
    && now[..4 * i] + EncodeNoPad(s[3 * i..]) == EncodeNoPad(s)
  }

  lemma EncodingStarts(s: seq<Byte>, out: seq<Byte>)
    ensures Encoding(s, 0, out, out)
  {
    hide EncodeNoPad;
    assert s[0..] == s && out[..0] + EncodeNoPad(s) == EncodeNoPad(s);
  }

  lemma EncodingStep(s: seq<Byte>, i: nat, before: seq<Byte>, start: seq<Byte>, now: seq<Byte>)
    requires Encoding(s, i, before, start) && 3 * i + 3 <= |s| && 4 * i + 4 <= |start| == |now|
    requires now[..4 * i + 4] == start[..4 * i] + BlockChars(FromBytes(s[3 * i], s[3 * i + 1], s[3 * i + 2]), 4)
    requires now[4 * i + 4..] == start[4 * i + 4..]
    ensures Encoding(s, i + 1, before, now)
  {
    EncodeStepAt(s, i);
    hide EncodeNoPad, BlockChars, FromBytes;
    Regrouping(start[..4 * i], BlockChars(FromBytes(s[3 * i], s[3 * i + 1], s[3 * i + 2]), 4),
               EncodeNoPad(s[3 * (i + 1)..]));
    assert start[4 * i + 4..] == start[4 * i..][4..] && before[4 * i + 4..] == before[4 * i..][4..];
  }

  /** One full block. */
  method EncodeOne(inp: array<Byte>, ghost s: seq<Byte>, out: array<Byte>, i: nat, ghost before: seq<Byte>)
    requires inp != out && |s| <= inp.Length && s == inp[..|s|] && 3 * i + 3 <= |s| && 4 * i + 4 <= out.Length
    requires Encoding(s, i, before, out[..])
    modifies out
    ensures Encoding(s, i + 1, before, out[..])
  {
    hide Encoding, EncodeNoPad, BlockChars, FromBytes;
    ghost var start := out[..];
    var b := FromBytes(inp[3 * i], inp[3 * i + 1], inp[3 * i + 2]);
    PutChars(out, 4 * i, b, 4);
    EncodingStep(s, i, before, start, out[..]);
  }

  /** The loop over the full blocks. */
  method EncodeFull(inp: array<Byte>, ghost s: seq<Byte>, out: array<Byte>, fullBlocks: nat)
    requires inp != out && |s| <= inp.Length && s == inp[..|s|] && 3 * fullBlocks <= |s| && 4 * fullBlocks <= out.Length
    modifies out
    ensures Encoding(s, fullBlocks, old(out[..]), out[..])
  {
    var i := 0;
    EncodingStarts(s, out[..]);
    hide Encoding;
    while i < fullBlocks
      invariant 0 <= i <= fullBlocks && Encoding(s, i, old(out[..]), out[..])
    {
      EncodeOne(inp, s, out, i, old(out[..]));
      i := i + 1;
    }
  }

  /** The last part and the null character. */
  method EncodeLast(inp: array<Byte>, size: nat, out: array<Byte>, i: nat, lastBytes: nat)
    requires inp != out && 3 * i + lastBytes == size <= inp.Length && lastBytes < 3
    requires 4 * i + CharsFor(lastBytes) < out.Length
    modifies out
    ensures |EncodeNoPad(inp[3 * i..size])| == CharsFor(lastBytes)
    ensures out[..] == Terminated(old(out[..]), old(out[..4 * i]) + EncodeNoPad(inp[3 * i..size]))
  {
    ghost var rest := inp[3 * i..size];
    EncodeStep(rest);
    hide EncodeNoPad, BlockChars, FromBytes;
    var zero := Byte(0);
    var b := FromBytes(if lastBytes > 0 then inp[3 * i] else zero,
                       if lastBytes > 1 then inp[3 * i + 1] else zero, zero);
    PutChars(out, 4 * i, b, CharsFor(lastBytes));
    out[4 * i + CharsFor(lastBytes)] := zero;
  }

  lemma SameTail(a: seq<Byte>, b: seq<Byte>, text: seq<Byte>, n: nat)
    requires |a| == |b| && n <= |text| < |a| && a[n..] == b[n..]
    ensures Terminated(a, text) == Terminated(b, text)
  {
    var k := |text| + 1;
    assert a[k..] == a[n..][k - n..] && b[k..] == b[n..][k - n..];
  }

  method EncodeAll(inp: array<Byte>, size: nat, out: array<Byte>)
    requires inp != out && size <= inp.Length && |EncodeNoPad(inp[..size])| < out.Length
    modifies out
    ensures out[..] == Terminated(old(out[..]), EncodeNoPad(inp[..size]))
  {
    var fullBlocks, lastBytes := size / 3, size % 3;
    EncodedLength(inp[..size]);
    hide EncodeNoPad, Terminated;
    EncodeFull(inp, inp[..size], out, fullBlocks);
    assert inp[..size][3 * fullBlocks..] == inp[3 * fullBlocks..size];
    SameTail(old(out[..]), out[..], EncodeNoPad(inp[..size]), 4 * fullBlocks);
    EncodeLast(inp, size, out, fullBlocks, lastBytes);
  }

  /** A decoder returns a length or -1, or ends the program at a character outside the alphabet. */
  datatype Outcome = Return(rc: int) | Exit

  /** The block of `n` characters; None where char_to_code exits. */
  method GetBlock(inp: array<Byte>, at: nat, n: nat) returns (b: Option<Block>)
    requires n <= 4 && at + n <= inp.Length
    ensures b == if Alphabet(inp[at..at + n]) then Some(CharsToBlock(inp[at..at + n])) else None
  {
    ghost var c := inp[at..at + n];
    var codes: seq<Byte> := [];
    hide CharToCode, FromCodes;
    while |codes| < n
      invariant |codes| <= n && forall i :: 0 <= i < |codes| ==> CharToCode(c[i]) == Some(codes[i])
    {
      var code := CharToCode(inp[at + |codes|]);
      if code == None {
        assert c[|codes|] == inp[at + |codes|];
        return None;
      }
      codes := codes + [code.value];
    }
    var zero := Byte(0);
    b := Some(FromCodes(if n > 0 then codes[0] else zero, if n > 1 then codes[1] else zero,
                        if n > 2 then codes[2] else zero, if n > 3 then codes[3] else zero));
  }

  /** The first `n` bytes of a block are written at `at`. */
  method PutBytes(out: array<Byte>, at: nat, b: Block, n: nat)
    requires n <= 3 && at + n <= out.Length
    modifies out
    ensures out[..at + n] == old(out[..at]) + BlockBytes(b, n) && out[at + n..] == old(out[at + n..])
  {
    hide Octet, BlockBytes;
    var k := 0;
    while k < n
      invariant 0 <= k <= n
      invariant out[..at + k] == old(out[..at]) + BlockBytes(b, n)[..k] && out[at + k..] == old(out[at + k..])
    {
      ByteOfBlock(b, n, k);
      out[at + k] := Octet(b, k);
      k := k + 1;
    }
  }

  lemma DecodeStep(c: seq<Byte>)
    requires |c| % 4 != 1
    ensures |c| >= 4 ==> (Decodable(c) <==> Alphabet(c[..4]) && Decodable(c[4..])) && |c[4..]| % 4 != 1
    ensures |c| < 4 ==> (Decodable(c) <==> Alphabet(c))
    ensures Decodable(c) && |c| < 4 ==> DecodeNoPad(c) == BlockBytes(CharsToBlock(c), BytesFor(|c|))
    ensures Decodable(c) && |c| >= 4 ==> DecodeNoPad(c) == BlockBytes(CharsToBlock(c[..4]), 3) + DecodeNoPad(c[4..])
  {
    if |c| >= 4 {
      DecodableRest(c);
    }
    hide Alphabet, CharsToBlock, BlockBytes;
  }

  /** What is left to decode gives, after what is in the buffer, the whole result; and it can be decoded if all can. */
  ghost predicate Decoding(all: seq<Byte>, rest: seq<Byte>, done: seq<Byte>) {
    && (Decodable(all) <==> Decodable(rest))
    && (Decodable(all) ==> done + DecodeNoPad(rest) == DecodeNoPad(all))
  }

  lemma DecodingStarts(all: seq<Byte>)
    ensures Decoding(all, all, [])
  {
    if Decodable(all) {
      assert [] + DecodeNoPad(all) == DecodeNoPad(all);
    }
  }

  lemma DecodingGoesOn(all: seq<Byte>, rest: seq<Byte>, done: seq<Byte>)
    requires Decoding(all, rest, done) && |rest| >= 4 && |rest| % 4 != 1
    ensures Alphabet(rest[..4]) ==> Decoding(all, rest[4..], done + BlockBytes(CharsToBlock(rest[..4]), 3))
    ensures !Alphabet(rest[..4]) ==> !Decodable(all)
  {
    DecodeStep(rest);
    hide Decodable, DecodeNoPad, Alphabet, CharsToBlock, BlockBytes;
    if Alphabet(rest[..4]) && Decodable(all) {
      Regrouping(done, BlockBytes(CharsToBlock(rest[..4]), 3), DecodeNoPad(rest[4..]));
    }
  }

  /** The bytes of `i` full blocks are in the buffer, and nothing else is changed. */
  ghost predicate DecodingTo(c: seq<Byte>, i: nat, before: seq<Byte>, now: seq<Byte>) {
    && 4 * i <= |c| && 3 * i <= |now| == |before| && now[3 * i..] == before[3 * i..]
    && Decoding(c, c[4 * i..], now[..3 * i])
  }

  /** One full block more. */
  lemma DecodingStep(c: seq<Byte>, i: nat, before: seq<Byte>, start: seq<Byte>, now: seq<Byte>)
    requires DecodingTo(c, i, before, start) && 4 * i + 4 <= |c| && |c| % 4 != 1
    ensures !Alphabet(c[4 * i..4 * i + 4]) ==> !Decodable(c)
    ensures
      && 3 * i + 3 <= |start| == |now| && now[3 * i + 3..] == start[3 * i + 3..]
      && Alphabet(c[4 * i..4 * i + 4])
      && now[..3 * i + 3] == start[..3 * i] + BlockBytes(CharsToBlock(c[4 * i..4 * i + 4]), 3) ==>
        DecodingTo(c, i + 1, before, now)
  {
    hide Decoding, Alphabet, CharsToBlock, BlockBytes, Decodable, DecodeNoPad;
    BlocksLeft(|c|, i);
    DecodingGoesOn(c, c[4 * i..], start[..3 * i]);
    assert c[4 * i..][..4] == c[4 * i..4 * i + 4] && c[4 * i..][4..] == c[4 * (i + 1)..];
    if 3 * i + 3 <= |start| {
      assert start[3 * i + 3..] == start[3 * i..][3..] && before[3 * i + 3..] == before[3 * i..][3..];
    }
  }

  /** One full block; false where the program exits. */
  method DecodeOne(inp: array<Byte>, ghost c: seq<Byte>, out: array<Byte>, i: nat, ghost before: seq<Byte>)
    returns (ok: bool)
    requires inp != out && |c| <= inp.Length && c == inp[..|c|]
    requires 4 * i + 4 <= |c| && 3 * i + 3 <= out.Length && |c| % 4 != 1 && DecodingTo(c, i, before, out[..])
    modifies out
    ensures if ok then DecodingTo(c, i + 1, before, out[..]) else !Decodable(c)
  {
    hide DecodingTo, Alphabet, CharsToBlock, BlockBytes, Decodable, DecodeNoPad;
    ghost var start := out[..];
    assert c[4 * i..4 * i + 4] == inp[4 * i..4 * i + 4];
    var b := GetBlock(inp, 4 * i, 4);
    ok := b != None;
    if ok {
      PutBytes(out, 3 * i, b.value, 3);
    }
    DecodingStep(c, i, before, start, out[..]);
  }

  /** The loop over the full blocks; false where the program exits. */
  method DecodeFull(inp: array<Byte>, ghost c: seq<Byte>, out: array<Byte>, fullBlocks: nat) returns (ok: bool)
    requires inp != out && |c| <= inp.Length && c == inp[..|c|]
    requires 4 * fullBlocks <= |c| && 3 * fullBlocks <= out.Length && |c| % 4 != 1
    modifies out
    ensures if ok then DecodingTo(c, fullBlocks, old(out[..]), out[..]) else !Decodable(c)
  {
    var i := 0;
    ok := true;
    assert c[0..] == c && out[..][..0] == [];
    DecodingStarts(c);
    hide DecodingTo, Decodable;
    while i < fullBlocks && ok
      invariant 0 <= i <= fullBlocks
      invariant if ok then DecodingTo(c, i, old(out[..]), out[..]) else !Decodable(c)
    {
      ok := DecodeOne(inp, c, out, i, old(out[..]));
      i := i + 1;
    }
  }

  /** The last part; false where the program exits. */
  method DecodeLast(inp: array<Byte>, size: nat, out: array<Byte>, i: nat, lastChars: nat) returns (ok: bool)
    requires inp != out && 4 * i + lastChars == size <= inp.Length && lastChars < 4 && lastChars != 1
    requires 3 * i + BytesFor(lastChars) <= out.Length && Decoding(inp[..size], inp[..size][4 * i..], out[..3 * i])
    modifies out
    ensures ok <==> Decodable(inp[..size])
    ensures ok ==> out[..3 * i + BytesFor(lastChars)] == DecodeNoPad(inp[..size])
    ensures out[3 * i + BytesFor(lastChars)..] == old(out[3 * i + BytesFor(lastChars)..])
  {
    assert inp[4 * i..size] == inp[..size][4 * i..];
    DecodeStep(inp[4 * i..size]);
    hide Alphabet, CharsToBlock, BlockBytes, Decodable, DecodeNoPad;
    ok := false;
    var b := GetBlock(inp, 4 * i, lastChars);
    if b != None {
      PutBytes(out, 3 * i, b.value, BytesFor(lastChars));
      ok := true;
    }
  }

  /** The buffer after `bytes` have been written to it. */
  function Filled(before: seq<Byte>, bytes: seq<Byte>): seq<Byte>
    requires |bytes| <= |before|
  {
    bytes + before[|bytes|..]
  }

  /** The decoded length if the string can be decoded. */
  function ResultLength(size: nat): nat {
    3 * (size / 4) + BytesFor(size % 4)
  }

  /**
   b64_to_bin_nopad. A lone last character and a small buffer are reported with -1 before any character is looked
   at; after that a character outside the alphabet ends the program.
   */
  method B64ToBinNoPad(inp: array?<Byte>, size: nat, out: array?<Byte>, maxLen: int) returns (r: Outcome)
    requires inp != null ==> size <= inp.Length && inp != out
    requires out != null ==> maxLen <= out.Length
    modifies out
    ensures inp == null || out == null ==> r == Return(-1)
    ensures inp != null && out != null ==>
              var c := inp[..size];
              if size == 0 then r == Return(0) && out[..] == old(out[..])
              else if size % 4 == 1 || maxLen < ResultLength(size) then r == Return(-1) && out[..] == old(out[..])
              else if !Decodable(c) then r == Exit
              else
                && r == Return(|DecodeNoPad(c)|) && |DecodeNoPad(c)| <= out.Length
                && out[..] == Filled(old(out[..]), DecodeNoPad(c))
  {
    if out == null || inp == null {
      return Return(-1);
    }
    if size == 0 {
      return Return(0);
    }
    var fullBlocks, lastChars := size / 4, size % 4;
    if lastChars == 1 {
      return Return(-1);
    }
    var resultLen := 3 * fullBlocks + BytesFor(lastChars);
    if maxLen < resultLen {
      return Return(-1);
    }
    r := DecodeAll(inp, size, out, fullBlocks, lastChars);
  }

  method DecodeAll(inp: array<Byte>, size: nat, out: array<Byte>, fullBlocks: nat, lastChars: nat) returns (r: Outcome)
    requires inp != out && 4 * fullBlocks + lastChars == size <= inp.Length && lastChars < 4 && lastChars != 1
    requires 3 * fullBlocks + BytesFor(lastChars) <= out.Length
    modifies out
    ensures !Decodable(inp[..size]) ==> r == Exit
    ensures Decodable(inp[..size]) ==>
              var s := DecodeNoPad(inp[..size]);
              r == Return(|s|) && |s| == 3 * fullBlocks + BytesFor(lastChars) && out[..] == Filled(old(out[..]), s)
  {
    hide Decoding, Decodable, DecodeNoPad;
    var ok := DecodeFull(inp, inp[..size], out, fullBlocks);
    if !ok {
      return Exit;
    }
    ok := DecodeLast(inp, size, out, fullBlocks, lastChars);
    if !ok {
      return Exit;
    }
    ghost var n := 3 * fullBlocks + BytesFor(lastChars);
    assert out[..] == out[..n] + out[n..];
    r := Return(3 * fullBlocks + BytesFor(lastChars));
  }

  method PutPadding(out: array<Byte>, len: nat, n: nat, ghost text: seq<Byte>, ghost before: seq<Byte>)
    requires (n == 1 || n == 2) && len == |text| && len + n < out.Length == |before|
             && out[..] == Terminated(before, text)
    modifies out
    ensures out[..] == Terminated(before, text + Pads(n))
  {
    if n == 2 {
      out[len], out[len + 1], out[len + 2] := CODE_PAD, CODE_PAD, Byte(0);
    } else {
      out[len], out[len + 1] := CODE_PAD, Byte(0);
    }
  }

  /** The switch of bin_to_b64: `len` characters have been written. */
  method AddPadding(out: array<Byte>, len: nat, maxLen: int, ghost s: seq<Byte>, ghost before: seq<Byte>)
    returns (rc: int)
    requires maxLen <= out.Length == |before| && len == |EncodeNoPad(s)| < out.Length
    requires out[..] == Terminated(before, EncodeNoPad(s))
    modifies out
    ensures rc == if Padding(s) == [] || maxLen > |EncodePadded(s)| then |EncodePadded(s)| else -1
    ensures rc != -1 ==> rc < out.Length && out[..] == Terminated(before, EncodePadded(s))
    ensures rc == -1 ==> out[..] == old(out[..])
  {
    PaddingIs(s);
    ghost var text := EncodeNoPad(s);
    hide EncodeNoPad, Terminated, Padding;
    rc := len;
    if len % 4 == 2 {
      if maxLen >= len + 2 + 1 {
        PutPadding(out, len, 2, text, before);
        rc := len + 2;
      } else {
        rc := -1;
      }
    } else if len % 4 == 3 {
      if maxLen >= len + 1 + 1 {
        PutPadding(out, len, 1, text, before);
        rc := len + 1;
      } else {
        rc := -1;
      }
    } else {
      assert text + [] == text;
    }
  }

  /** bin_to_b64: without room for the padding it fails after the unpadded string has been written. */
  method BinToB64(inp: array?<Byte>, size: nat, out: array?<Byte>, maxLen: int) returns (rc: int)
    requires inp != null ==> size <= inp.Length && inp != out
    requires out != null ==> maxLen <= out.Length && (size == 0 ==> out.Length > 0)
    modifies out
    ensures inp == null || out == null ==> rc == -1
    ensures inp != null && out != null ==>
              var text := EncodePadded(inp[..size]);
              if size == 0 || maxLen > |text|
              then rc == |text| < out.Length && out[..] == Terminated(old(out[..]), text)
              else
                && rc == -1
                && var unpadded := EncodeNoPad(inp[..size]);
                   out[..] == if maxLen > |unpadded| then Terminated(old(out[..]), unpadded) else old(out[..])
  {
    hide EncodeNoPad, Terminated;
    rc := BinToB64NoPad(inp, size, out, maxLen);
    if rc != -1 {
      rc := AddPadding(out, rc, maxLen, inp[..size], old(out[..]));
    }
  }

  /** b64_to_bin decodes what is left when the padding is taken off. */
  method B64ToBin(inp: array?<Byte>, size: nat, out: array?<Byte>, maxLen: int) returns (r: Outcome)
    requires inp != null ==> size <= inp.Length && inp != out
    requires out != null ==> maxLen <= out.Length
    modifies out
    ensures inp == null || out == null ==> r == Return(-1)
    ensures inp != null && out != null ==>
              var c := Stripped(inp[..size]);
              if |c| == 0 then r == Return(0) && out[..] == old(out[..])
              else if |c| % 4 == 1 || maxLen < ResultLength(|c|) then r == Return(-1) && out[..] == old(out[..])
              else if !Decodable(c) then r == Exit
              else
                && r == Return(|DecodeNoPad(c)|) && |DecodeNoPad(c)| <= out.Length
                && out[..] == Filled(old(out[..]), DecodeNoPad(c))
  {
    if inp == null {
      return Return(-1);
    }
    hide Decodable, DecodeNoPad;
    var n := size;
    if size % 4 == 0 && size >= 4 {
      if inp[size - 2] == CODE_PAD {
        n := size - 2;
      } else if inp[size - 1] == CODE_PAD {
        n := size - 1;
      }
    }
    assert inp[..n] == Stripped(inp[..size]);
    r := B64ToBinNoPad(inp, n, out, maxLen);
  }

  // ---------- the alphabet and the examples of RFC 4648 ----------

  /** The characters of the sixteen codes from `x` on. */
  predicate AlphabetRow(x: bv8, row: bv128) {
    && CodeToChar(Byte(x)) == Some(Byte(((row >> 120) & 0xff) as bv8))
    && CodeToChar(Byte(x + 1)) == Some(Byte(((row >> 112) & 0xff) as bv8))
    && CodeToChar(Byte(x + 2)) == Some(Byte(((row >> 104) & 0xff) as bv8))
    && CodeToChar(Byte(x + 3)) == Some(Byte(((row >> 96) & 0xff) as bv8))
    && CodeToChar(Byte(x + 4)) == Some(Byte(((row >> 88) & 0xff) as bv8))
    && CodeToChar(Byte(x + 5)) == Some(Byte(((row >> 80) & 0xff) as bv8))
    && CodeToChar(Byte(x + 6)) == Some(Byte(((row >> 72) & 0xff) as bv8))
    && CodeToChar(Byte(x + 7)) == Some(Byte(((row >> 64) & 0xff) as bv8))
    && CodeToChar(Byte(x + 8)) == Some(Byte(((row >> 56) & 0xff) as bv8))
    && CodeToChar(Byte(x + 9)) == Some(Byte(((row >> 48) & 0xff) as bv8))
    && CodeToChar(Byte(x + 10)) == Some(Byte(((row >> 40) & 0xff) as bv8))
    && CodeToChar(Byte(x + 11)) == Some(Byte(((row >> 32) & 0xff) as bv8))
    && CodeToChar(Byte(x + 12)) == Some(Byte(((row >> 24) & 0xff) as bv8))
    && CodeToChar(Byte(x + 13)) == Some(Byte(((row >> 16) & 0xff) as bv8))
    && CodeToChar(Byte(x + 14)) == Some(Byte(((row >> 8) & 0xff) as bv8))
    && CodeToChar(Byte(x + 15)) == Some(Byte((row & 0xff) as bv8))
  }

  /** "ABC...XYZabc...xyz0123456789+/", Table 1 of RFC 4648. */
  lemma AlphabetIs()
    ensures AlphabetRow(0, 0x4142434445464748494a4b4c4d4e4f50)
    ensures AlphabetRow(16, 0x5152535455565758595a616263646566)
    ensures AlphabetRow(32, 0x6768696a6b6c6d6e6f70717273747576)
    ensures AlphabetRow(48, 0x7778797a303132333435363738392b2f)
  {
  }

  lemma ExampleBlocks()
    ensures BlockChars(BytesToBlock([Byte(0x66)]), 2) == [Byte(0x5a), Byte(0x67)]
    ensures BlockChars(BytesToBlock([Byte(0x66), Byte(0x6f)]), 3) == [Byte(0x5a), Byte(0x6d), Byte(0x38)]
    ensures BlockChars(BytesToBlock([Byte(0x66), Byte(0x6f), Byte(0x6f)]), 4) ==
            [Byte(0x5a), Byte(0x6d), Byte(0x39), Byte(0x76)]
    ensures BlockChars(BytesToBlock([Byte(0x62), Byte(0x61), Byte(0x72)]), 4) ==
            [Byte(0x59), Byte(0x6d), Byte(0x46), Byte(0x79)]
  {
  }

  lemma OneBlock(s: seq<Byte>)
    requires |s| <= 3
    ensures EncodeNoPad(s) == BlockChars(BytesToBlock(s), CharsFor(|s|))
  {
    hide BlockChars, BytesToBlock;
    if |s| == 3 {
      assert s[..3] == s && s[3..] == [];
      assert EncodeNoPad([]) == [];
    }
  }

  /** "f", "fo", "foo" and "foobar", section 10 of RFC 4648. */
  lemma Examples()
    ensures EncodePadded([Byte(0x66)]) == [Byte(0x5a), Byte(0x67), Byte(0x3d), Byte(0x3d)]
    ensures EncodePadded([Byte(0x66), Byte(0x6f)]) == [Byte(0x5a), Byte(0x6d), Byte(0x38), Byte(0x3d)]
    ensures EncodePadded([Byte(0x66), Byte(0x6f), Byte(0x6f)]) == [Byte(0x5a), Byte(0x6d), Byte(0x39), Byte(0x76)]
    ensures EncodePadded([Byte(0x66), Byte(0x6f), Byte(0x6f), Byte(0x62), Byte(0x61), Byte(0x72)]) ==
            [Byte(0x5a), Byte(0x6d), Byte(0x39), Byte(0x76), Byte(0x59), Byte(0x6d), Byte(0x46), Byte(0x79)]
  {
    ExampleBlocks();
    hide BlockChars, BytesToBlock;
    OneBlock([Byte(0x66)]);
    OneBlock([Byte(0x66), Byte(0x6f)]);
    var (foo, bar) := ([Byte(0x66), Byte(0x6f), Byte(0x6f)], [Byte(0x62), Byte(0x61), Byte(0x72)]);
    OneBlock(foo);
    OneBlock(bar);
    assert (foo + bar)[..3] == foo && (foo + bar)[3..] == bar;
    assert foo + bar == [Byte(0x66), Byte(0x6f), Byte(0x6f), Byte(0x62), Byte(0x61), Byte(0x72)];
  }
}
