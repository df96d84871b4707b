/** The cipher, its inverse and the key expansion as FIPS 197 states them, on values. */
module Fips197 {
  import opened Bytes
  import opened GaloisField
  import opened SubstitutionBox

  type Block = s: seq<Byte> | |s| == 16 witness Zeros(16)

  // The state is stored column by column: the byte in row r of column c is st[4 * c + r].

  /** Section 5.1.1. */
  function SubBytes(st: Block): Block {
    [SBox(st[0]), SBox(st[1]), SBox(st[2]), SBox(st[3]), SBox(st[4]), SBox(st[5]), SBox(st[6]), SBox(st[7]),
     SBox(st[8]), SBox(st[9]), SBox(st[10]), SBox(st[11]), SBox(st[12]), SBox(st[13]), SBox(st[14]), SBox(st[15])]
  }

  function InvSubBytes(st: Block): Block {
    [InvSBox(st[0]), InvSBox(st[1]), InvSBox(st[2]), InvSBox(st[3]),
     InvSBox(st[4]), InvSBox(st[5]), InvSBox(st[6]), InvSBox(st[7]),
     InvSBox(st[8]), InvSBox(st[9]), InvSBox(st[10]), InvSBox(st[11]),
     InvSBox(st[12]), InvSBox(st[13]), InvSBox(st[14]), InvSBox(st[15])]
  }

  /** Section 5.1.2: row r moves left by r columns. */
  function ShiftRows(st: Block): Block {
    [st[0], st[5], st[10], st[15], st[4], st[9], st[14], st[3],
     st[8], st[13], st[2], st[7], st[12], st[1], st[6], st[11]]
  }

  /** Section 5.3.1. */
  function InvShiftRows(st: Block): Block {
    [st[0], st[13], st[10], st[7], st[4], st[1], st[14], st[11],
     st[8], st[5], st[2], st[15], st[12], st[9], st[6], st[3]]
  }

  type Word = w: seq<Byte> | |w| == 4 witness Zeros(4)

  /** Section 5.1.3: a column is multiplied by 03 x^3 + 01 x^2 + 01 x + 02. */
  function MixColumn(w: Word): Word {
    hide *;
    [Sum4(Times(w[0], Byte(2)), Times(w[1], Byte(3)), w[2], w[3]),
     Sum4(Times(w[1], Byte(2)), Times(w[2], Byte(3)), w[3], w[0]),
     Sum4(Times(w[2], Byte(2)), Times(w[3], Byte(3)), w[0], w[1]),
     Sum4(Times(w[3], Byte(2)), Times(w[0], Byte(3)), w[1], w[2])]
  }

  /** Section 5.3.3. */
  function InvMixColumn(w: Word): Word {
    hide *;
    [Sum4(Times(w[0], Byte(0xe)), Times(w[1], Byte(0xb)), Times(w[2], Byte(0xd)), Times(w[3], Byte(9))),
     Sum4(Times(w[1], Byte(0xe)), Times(w[2], Byte(0xb)), Times(w[3], Byte(0xd)), Times(w[0], Byte(9))),
     Sum4(Times(w[2], Byte(0xe)), Times(w[3], Byte(0xb)), Times(w[0], Byte(0xd)), Times(w[1], Byte(9))),
     Sum4(Times(w[3], Byte(0xe)), Times(w[0], Byte(0xb)), Times(w[1], Byte(0xd)), Times(w[2], Byte(9)))]
  }

  function Columns(a: Word, b: Word, c: Word, d: Word): Block {
    a + b + c + d
  }

  function EachColumn(f: Word -> Word, st: Block): Block {
    Columns(f(st[0..4]), f(st[4..8]), f(st[8..12]), f(st[12..16]))
  }

  function MixColumns(st: Block): Block {
    EachColumn(MixColumn, st)
  }

  function InvMixColumns(st: Block): Block {
    EachColumn(InvMixColumn, st)
  }

  function RoundKey(ks: seq<Byte>, r: nat): Block
    requires 16 * r + 16 <= |ks|
  {
    ks[16 * r..16 * r + 16]
  }

  function AddRoundKey(st: Block, ks: seq<Byte>, r: nat): Block
    requires 16 * r + 16 <= |ks|
  {
    XorSeq(st, RoundKey(ks, r))
  }

  predicate Schedule(ks: seq<Byte>, rounds: nat) {
    rounds >= 1 && 16 * rounds + 16 <= |ks|
  }

  /** The rounds `r` to `rounds` of section 5.1; the last one leaves out MixColumns. */
  function RoundsFrom(st: Block, ks: seq<Byte>, r: nat, rounds: nat): Block
    requires Schedule(ks, rounds) && 1 <= r <= rounds
    decreases rounds - r
  {
    var shifted := ShiftRows(SubBytes(st));
    if r == rounds then AddRoundKey(shifted, ks, r)
    else RoundsFrom(AddRoundKey(MixColumns(shifted), ks, r), ks, r + 1, rounds)
  }

  function Cipher(input: Block, ks: seq<Byte>, rounds: nat): Block
    requires Schedule(ks, rounds)
  {
    RoundsFrom(AddRoundKey(input, ks, 0), ks, 1, rounds)
  }

  /** The rounds `r` down to 0 of section 5.3; the last one leaves out InvMixColumns. */
  function InvRoundsFrom(st: Block, ks: seq<Byte>, r: nat): Block
    requires 16 * r + 16 <= |ks|
    decreases r
  {
    var keyed := AddRoundKey(InvSubBytes(InvShiftRows(st)), ks, r);
    if r == 0 then keyed else InvRoundsFrom(InvMixColumns(keyed), ks, r - 1)
  }

  function InvCipher(input: Block, ks: seq<Byte>, rounds: nat): Block
    requires Schedule(ks, rounds)
  {
    InvRoundsFrom(AddRoundKey(input, ks, rounds), ks, rounds - 1)
  }

  /** The cipher and its inverse under a fixed schedule. */
  function CipherWith(ks: seq<Byte>, rounds: nat): Block -> Block
    requires Schedule(ks, rounds)
  {
    (b: Block) => Cipher(b, ks, rounds)
  }

  function InvCipherWith(ks: seq<Byte>, rounds: nat): Block -> Block
    requires Schedule(ks, rounds)
  {
    (b: Block) => InvCipher(b, ks, rounds)
  }

  // ---------- section 5.2: the key expansion ----------

  predicate KeyLength(n: nat) {
    n == 16 || n == 24 || n == 32
  }

  /** Nr, the number of rounds, for a key of `n` bytes. */
  function Rounds(n: nat): nat {
    n / 4 + 6
  }

  function SubWord(w: Word): Word {
    [SBox(w[0]), SBox(w[1]), SBox(w[2]), SBox(w[3])]
  }

  function RotWord(w: Word): Word {
    [w[1], w[2], w[3], w[0]]
  }

  /** The first byte of Rcon[i], that is x^(i-1). */
  function Rcon(i: nat): Byte
    requires i >= 1
  {
    if i == 1 then Byte(1) else XTime(Rcon(i - 1))
  }

  /** What is added to the word Nk places before word `i`, given the word just before it. */
  function Temp(previous: Word, nk: nat, i: nat): Word
    requires 0 < nk <= i
  {
    if i % nk == 0 then
      var w := SubWord(RotWord(previous));
      assert i / nk >= 1;
      [Xor(w[0], Rcon(i / nk)), w[1], w[2], w[3]]
    else if nk > 6 && i % nk == 4 then SubWord(previous)
    else previous
  }

  /** Word `i` of the expanded key. */
  function KeyWord(key: seq<Byte>, i: nat): Word
    requires KeyLength(|key|)
  {
    var nk := |key| / 4;
    if i < nk then key[4 * i..4 * i + 4]
    else XorSeq(KeyWord(key, i - nk), Temp(KeyWord(key, i - 1), nk, i))
  }

  function KeyByte(key: seq<Byte>, k: nat): Byte
    requires KeyLength(|key|)
  {
    KeyWord(key, k / 4)[k % 4]
  }

  function KeyExpansion(key: seq<Byte>): (ks: seq<Byte>)
    requires KeyLength(|key|)
    ensures Schedule(ks, Rounds(|key|))
  {
    seq(16 * (Rounds(|key|) + 1), k requires 0 <= k => KeyByte(key, k))
  }

  // ---------- only the round keys matter ----------

  lemma {:induction false} RoundsUsePrefix(st: Block, ks: seq<Byte>, r: nat, rounds: nat)
    requires Schedule(ks, rounds) && 1 <= r <= rounds
    ensures RoundsFrom(st, ks, r, rounds) == RoundsFrom(st, ks[..16 * rounds + 16], r, rounds)
    decreases rounds - r
  {
    hide SubBytes, ShiftRows, MixColumns, XorSeq;
    assert RoundKey(ks, r) == RoundKey(ks[..16 * rounds + 16], r);
    if r < rounds {
      RoundsUsePrefix(AddRoundKey(MixColumns(ShiftRows(SubBytes(st))), ks, r), ks, r + 1, rounds);
    }
  }

  lemma {:induction false} InvRoundsUsePrefix(st: Block, ks: seq<Byte>, r: nat, rounds: nat)
    requires Schedule(ks, rounds) && r <= rounds
    ensures InvRoundsFrom(st, ks, r) == InvRoundsFrom(st, ks[..16 * rounds + 16], r)
    decreases r
  {
    hide InvSubBytes, InvShiftRows, InvMixColumns, XorSeq;
    assert RoundKey(ks, r) == RoundKey(ks[..16 * rounds + 16], r);
    if r > 0 {
      InvRoundsUsePrefix(InvMixColumns(AddRoundKey(InvSubBytes(InvShiftRows(st)), ks, r)), ks, r - 1, rounds);
    }
  }

  lemma CipherUsesPrefix(b: Block, ks: seq<Byte>, rounds: nat)
    requires Schedule(ks, rounds)
    ensures Cipher(b, ks, rounds) == Cipher(b, ks[..16 * rounds + 16], rounds)
    ensures InvCipher(b, ks, rounds) == InvCipher(b, ks[..16 * rounds + 16], rounds)
  {
    hide RoundsFrom, InvRoundsFrom, XorSeq;
    var prefix := ks[..16 * rounds + 16];
    assert RoundKey(ks, 0) == RoundKey(prefix, 0) && RoundKey(ks, rounds) == RoundKey(prefix, rounds);
    RoundsUsePrefix(AddRoundKey(b, ks, 0), ks, 1, rounds);
    InvRoundsUsePrefix(AddRoundKey(b, ks, rounds), ks, rounds - 1, rounds);
  }

  /** The cipher of the standard under a key of 128, 192 or 256 bits. */
  function AesUnder(key: seq<Byte>): Block -> Block
    requires KeyLength(|key|)
  {
    CipherWith(KeyExpansion(key), Rounds(|key|))
  }

  // ---------- every step of a round is undone by its inverse ----------

  /** Equality of blocks, byte by byte. */
  predicate Same(s: Block, t: Block) {
    && s[0] == t[0] && s[1] == t[1] && s[2] == t[2] && s[3] == t[3]
    && s[4] == t[4] && s[5] == t[5] && s[6] == t[6] && s[7] == t[7]
    && s[8] == t[8] && s[9] == t[9] && s[10] == t[10] && s[11] == t[11]
    && s[12] == t[12] && s[13] == t[13] && s[14] == t[14] && s[15] == t[15]
  }

  lemma SameIsEqual(s: Block, t: Block)
    requires Same(s, t)
    ensures s == t
  {
  }

  lemma SubBytesInvert(st: Block)
    ensures InvSubBytes(SubBytes(st)) == st && SubBytes(InvSubBytes(st)) == st
  {
    hide SBox, InvSBox;
    forall i | 0 <= i < 16 ensures InvSBox(SBox(st[i])) == st[i] && SBox(InvSBox(st[i])) == st[i] {
      SBoxInverts(st[i]);
    }
    SameIsEqual(InvSubBytes(SubBytes(st)), st);
    SameIsEqual(SubBytes(InvSubBytes(st)), st);
  }

  lemma ShiftRowsInvert(st: Block)
    ensures InvShiftRows(ShiftRows(st)) == st && ShiftRows(InvShiftRows(st)) == st
  {
    SameIsEqual(InvShiftRows(ShiftRows(st)), st);
    SameIsEqual(ShiftRows(InvShiftRows(st)), st);
  }

  /** The equation that section 5.1.2 states for ShiftRows. */
  lemma ShiftRowsMovesRows(st: Block, r: nat, c: nat)
    requires r < 4 && c < 4
    ensures ShiftRows(st)[4 * c + r] == st[4 * ((c + r) % 4) + r]
  {
  }

  /** The columns in terms of the rows that the tables compute. */
  lemma MixColumnRows(w: Word)
    ensures MixColumn(w) == [MixRow(w[0], w[1], w[2], w[3]), MixRow(w[1], w[2], w[3], w[0]),
                             MixRow(w[2], w[3], w[0], w[1]), MixRow(w[3], w[0], w[1], w[2])]
    ensures InvMixColumn(w) == [InvMixRow(w[0], w[1], w[2], w[3]), InvMixRow(w[1], w[2], w[3], w[0]),
                                InvMixRow(w[2], w[3], w[0], w[1]), InvMixRow(w[3], w[0], w[1], w[2])]
  {
    hide Sum4, F2, F3, F9, FB, FD, FE, Times;
    MacrosMultiply(w[0]);
    MacrosMultiply(w[1]);
    MacrosMultiply(w[2]);
    MacrosMultiply(w[3]);
  }

  lemma MixColumnInverts(w: Word)
    ensures InvMixColumn(MixColumn(w)) == w && MixColumn(InvMixColumn(w)) == w
  {
    hide MixRow, InvMixRow, MixColumn, InvMixColumn;
    MixColumnRows(w);
    MixColumnRows(MixColumn(w));
    MixColumnRows(InvMixColumn(w));
    InvMixRowOfMixRow(w[0], w[1], w[2], w[3]);
    InvMixRowOfMixRow(w[1], w[2], w[3], w[0]);
    InvMixRowOfMixRow(w[2], w[3], w[0], w[1]);
    InvMixRowOfMixRow(w[3], w[0], w[1], w[2]);
    MixRowOfInvMixRow(w[0], w[1], w[2], w[3]);
    MixRowOfInvMixRow(w[1], w[2], w[3], w[0]);
    MixRowOfInvMixRow(w[2], w[3], w[0], w[1]);
    MixRowOfInvMixRow(w[3], w[0], w[1], w[2]);
  }

  lemma ColumnsOf(a: Word, b: Word, c: Word, d: Word)
    ensures var st := Columns(a, b, c, d);
            st[0..4] == a && st[4..8] == b && st[8..12] == c && st[12..16] == d
  {
  }

  lemma MixColumnsInvert(st: Block)
    ensures InvMixColumns(MixColumns(st)) == st && MixColumns(InvMixColumns(st)) == st
  {
    hide MixColumn, InvMixColumn;
    var (a, b, c, d) := (st[0..4], st[4..8], st[8..12], st[12..16]);
    assert st == Columns(a, b, c, d);
    MixColumnInverts(a);
    MixColumnInverts(b);
    MixColumnInverts(c);
    MixColumnInverts(d);
    ColumnsOf(MixColumn(a), MixColumn(b), MixColumn(c), MixColumn(d));
    ColumnsOf(InvMixColumn(a), InvMixColumn(b), InvMixColumn(c), InvMixColumn(d));
  }

  lemma AddRoundKeyTwice(st: Block, ks: seq<Byte>, r: nat)
    requires 16 * r + 16 <= |ks|
    ensures AddRoundKey(AddRoundKey(st, ks, r), ks, r) == st
  {
    XorSeqCancels(st, RoundKey(ks, r));
  }

  lemma ShiftSubInverts(st: Block)
    ensures InvSubBytes(InvShiftRows(ShiftRows(SubBytes(st)))) == st
    ensures ShiftRows(SubBytes(InvSubBytes(InvShiftRows(st)))) == st
  {
    ShiftRowsInvert(SubBytes(st));
    SubBytesInvert(st);
    SubBytesInvert(InvShiftRows(st));
    ShiftRowsInvert(st);
  }

  // ---------- decryption undoes encryption, for any schedule and number of rounds ----------

  lemma {:induction false} InvRoundsUndoRounds(st: Block, ks: seq<Byte>, r: nat, rounds: nat)
    requires Schedule(ks, rounds) && 1 <= r <= rounds
    ensures InvCipher(RoundsFrom(st, ks, r, rounds), ks, rounds) == InvRoundsFrom(ShiftRows(SubBytes(st)), ks, r - 1)
    decreases rounds - r
  {
    hide SubBytes, InvSubBytes, ShiftRows, InvShiftRows, MixColumns, InvMixColumns, AddRoundKey;
    var shifted := ShiftRows(SubBytes(st));
    if r == rounds {
      AddRoundKeyTwice(shifted, ks, r);
    } else {
      var next := AddRoundKey(MixColumns(shifted), ks, r);
      InvRoundsUndoRounds(next, ks, r + 1, rounds);
      ShiftSubInverts(next);
      AddRoundKeyTwice(MixColumns(shifted), ks, r);
      MixColumnsInvert(shifted);
    }
  }

  lemma InvCipherOfCipher(b: Block, ks: seq<Byte>, rounds: nat)
    requires Schedule(ks, rounds)
    ensures InvCipher(Cipher(b, ks, rounds), ks, rounds) == b
  {
    hide SubBytes, InvSubBytes, ShiftRows, InvShiftRows, MixColumns, InvMixColumns, AddRoundKey, RoundsFrom;
    var st := AddRoundKey(b, ks, 0);
    InvRoundsUndoRounds(st, ks, 1, rounds);
    ShiftSubInverts(st);
    AddRoundKeyTwice(b, ks, 0);
  }

  lemma {:induction false} RoundsUndoInvRounds(st: Block, ks: seq<Byte>, r: nat, rounds: nat)
    requires Schedule(ks, rounds) && r < rounds
    ensures Cipher(InvRoundsFrom(st, ks, r), ks, rounds) == RoundsFrom(InvSubBytes(InvShiftRows(st)), ks, r + 1, rounds)
    decreases r
  {
    hide SubBytes, InvSubBytes, ShiftRows, InvShiftRows, MixColumns, InvMixColumns, AddRoundKey;
    var sub := InvSubBytes(InvShiftRows(st));
    var keyed := AddRoundKey(sub, ks, r);
    AddRoundKeyTwice(sub, ks, r);
    if r > 0 {
      RoundsUndoInvRounds(InvMixColumns(keyed), ks, r - 1, rounds);
      ShiftSubInverts(InvMixColumns(keyed));
      MixColumnsInvert(keyed);
    }
  }

  lemma CipherOfInvCipher(b: Block, ks: seq<Byte>, rounds: nat)
    requires Schedule(ks, rounds)
    ensures Cipher(InvCipher(b, ks, rounds), ks, rounds) == b
  {
    hide SubBytes, InvSubBytes, ShiftRows, InvShiftRows, MixColumns, InvMixColumns, AddRoundKey, InvRoundsFrom, Cipher;
    var st := AddRoundKey(b, ks, rounds);
    RoundsUndoInvRounds(st, ks, rounds - 1, rounds);
    ShiftSubInverts(st);
    AddRoundKeyTwice(b, ks, rounds);
  }
}
